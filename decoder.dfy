/** Reading a plain PPM image: a format tag, the number of columns, the number of rows, the maximum
    channel value, then one (r, g, b) triple per pixel in row-major order. The file reader is
    replaced by the sequence of whitespace-separated tokens it would deliver. */
module Decoder {
  import opened Pixels
  import opened Images
  import Transforms

  /** A token of the input: either an integer literal or any other word (such as the tag "P3").
      An integer literal is always a Number; a Word never spells one. */
  datatype Token = Word(text: string) | Number(value: int)

  /** What In.readInt accepts: an integer literal within Java's int range. */
  predicate IsJavaInt(t: Token)
  {
    t.Number? && -0x8000_0000 <= t.value < 0x8000_0000
  }

  /** In.readInt applied to token i. */
  function ReadInt(tokens: seq<Token>, i: nat): (v: Result<int>)
    ensures v.Ok? <==> i < |tokens| && IsJavaInt(tokens[i])
    ensures v.Ok? ==> tokens[i] == Number(v.value)
    ensures v.Err? ==> (v.error == Truncated <==> |tokens| <= i)
    ensures v.Err? ==> v.error == Truncated || v.error == NotAnInteger
  {
    if i >= |tokens| then Err(Truncated)
    else if !IsJavaInt(tokens[i]) then Err(NotAnInteger)
    else Ok(tokens[i].value)
  }

  datatype Header = Header(cols: nat, rows: nat)

  /** The first four tokens: the tag (any token), columns, rows and the maximum value (ignored). */
  function ParseHeader(tokens: seq<Token>): (h: Result<Header>)
    ensures h.Ok? <==>
      4 <= |tokens| && IsJavaInt(tokens[1]) && IsJavaInt(tokens[2]) && IsJavaInt(tokens[3]) &&
      0 <= tokens[1].value && 0 <= tokens[2].value
    ensures h.Ok? ==> tokens[1] == Number(h.value.cols) && tokens[2] == Number(h.value.rows)
    ensures h == Err(NegativeSize) <==>
      4 <= |tokens| && IsJavaInt(tokens[1]) && IsJavaInt(tokens[2]) && IsJavaInt(tokens[3]) &&
      (tokens[1].value < 0 || tokens[2].value < 0)
  {
    if |tokens| == 0 then Err(Truncated)
    else
      var cols :- ReadInt(tokens, 1);
      var rows :- ReadInt(tokens, 2);
      var _ :- ReadInt(tokens, 3);
      if rows < 0 || cols < 0 then Err(NegativeSize) else Ok(Header(cols, rows))
  }

  /** Token position of the first channel of pixel k, counted in reading order. */
  function PixelStart(k: nat): nat { 4 + 3 * k }

  /** Pixel k: three integers read in order, then the Color constructor's range check. */
  function ReadPixel(tokens: seq<Token>, k: nat): (p: Result<Color>)
    ensures p.Ok? ==>
      PixelStart(k) + 3 <= |tokens| &&
      tokens[PixelStart(k)] == Number(p.value.r) && tokens[PixelStart(k) + 1] == Number(p.value.g) &&
      tokens[PixelStart(k) + 2] == Number(p.value.b)
    ensures p == Err(ChannelOutOfRange) <==>
      PixelStart(k) + 3 <= |tokens| && IsJavaInt(tokens[PixelStart(k)]) &&
      IsJavaInt(tokens[PixelStart(k) + 1]) && IsJavaInt(tokens[PixelStart(k) + 2]) &&
      !(InRange(tokens[PixelStart(k)].value) && InRange(tokens[PixelStart(k) + 1].value) &&
        InRange(tokens[PixelStart(k) + 2].value))
  {
    var r :- ReadInt(tokens, PixelStart(k));
    var g :- ReadInt(tokens, PixelStart(k) + 1);
    var b :- ReadInt(tokens, PixelStart(k) + 2);
    if InRange(r) && InRange(g) && InRange(b) then Ok(Color(r, g, b)) else Err(ChannelOutOfRange)
  }

  /** The first n pixels in reading order, or the error of the first pixel that cannot be read. */
  function ReadPixels(tokens: seq<Token>, n: nat): (res: Result<seq<Color>>)
    ensures res.Ok? ==> |res.value| == n
  {
    if n == 0 then Ok([])
    else
      var ps :- ReadPixels(tokens, n - 1);
      var p :- ReadPixel(tokens, n - 1);
      Ok(ps + [p])
  }

  lemma RowMajorBound(r: nat, c: nat, rows: nat, cols: nat)
    requires r < rows && c < cols
    ensures r * cols + c < rows * cols
  {
    MulMono(cols, r + 1, rows);
    assert (r + 1) * cols == r * cols + cols;
  }

  /** Cuts a row-major list of pixels into rows of cols pixels. */
  function Reshape(ps: seq<Color>, rows: nat, cols: nat): (g: Grid)
    requires |ps| == rows * cols
    ensures IsGrid(g, rows, cols)
  {
    seq(rows, r requires 0 <= r < rows =>
      seq(cols, c requires 0 <= c < cols =>
        RowMajorBound(r, c, rows, cols);
        ps[r * cols + c]))
  }

  /** The image a token sequence describes, or the first error reading it meets. */
  function Decode(tokens: seq<Token>): (d: Result<Grid>)
    ensures ParseHeader(tokens).Err? ==> d == Err(ParseHeader(tokens).error)
    ensures d.Ok? ==> ParseHeader(tokens).Ok? && IsGrid(d.value, tokens[2].value, tokens[1].value)
  {
    var h :- ParseHeader(tokens);
    var ps :- ReadPixels(tokens, h.rows * h.cols);
    Ok(Reshape(ps, h.rows, h.cols))
  }

  // ---------------------------------------------------------------------------
  // Properties

  /** The input is an image: a header of four tokens whose dimensions are non-negative Java ints,
      with the maximum value (token 3, otherwise ignored) a Java int too, followed by at least
      3 * rows * cols Java ints, each a channel in [0, 255]. */
  predicate IsImageInput(tokens: seq<Token>)
  {
    4 <= |tokens| && IsJavaInt(tokens[1]) && IsJavaInt(tokens[2]) && IsJavaInt(tokens[3]) &&
    0 <= tokens[1].value && 0 <= tokens[2].value &&
    PixelStart(tokens[2].value * tokens[1].value) <= |tokens| &&
    forall i :: 4 <= i < PixelStart(tokens[2].value * tokens[1].value) ==>
      IsJavaInt(tokens[i]) && InRange(tokens[i].value)
  }

  lemma ReadPixelOk(tokens: seq<Token>, k: nat)
    ensures ReadPixel(tokens, k).Ok? <==>
      PixelStart(k) + 3 <= |tokens| &&
      forall i :: PixelStart(k) <= i < PixelStart(k) + 3 ==> IsJavaInt(tokens[i]) && InRange(tokens[i].value)
    ensures ReadPixel(tokens, k).Ok? ==>
      (var p, s := ReadPixel(tokens, k).value, PixelStart(k);
       tokens[s] == Number(p.r) && tokens[s + 1] == Number(p.g) && tokens[s + 2] == Number(p.b))
  {
    var s := PixelStart(k);
    if s + 3 <= |tokens| && forall i :: s <= i < s + 3 ==> IsJavaInt(tokens[i]) && InRange(tokens[i].value) {
      assert IsJavaInt(tokens[s]) && IsJavaInt(tokens[s + 1]) && IsJavaInt(tokens[s + 2]);
      assert InRange(tokens[s].value) && InRange(tokens[s + 1].value) && InRange(tokens[s + 2].value);
    }
  }

  /** The first n pixels can be read exactly when each of them can, and then pixel k is the
      triple at token PixelStart(k). */
  lemma {:induction false} ReadPixelsOk(tokens: seq<Token>, n: nat)
    ensures ReadPixels(tokens, n).Ok? <==> forall k :: 0 <= k < n ==> ReadPixel(tokens, k).Ok?
    ensures ReadPixels(tokens, n).Ok? ==>
      forall k :: 0 <= k < n ==> ReadPixels(tokens, n).value[k] == ReadPixel(tokens, k).value
  {
    if n > 0 {
      ReadPixelsOk(tokens, n - 1);
    }
  }

  /** Once pixel k fails, reading any longer prefix fails with the same error. */
  lemma {:induction false} ReadPixelsStop(tokens: seq<Token>, k: nat, n: nat)
    requires k < n && ReadPixels(tokens, k).Ok? && ReadPixel(tokens, k).Err?
    ensures ReadPixels(tokens, n) == Err(ReadPixel(tokens, k).error)
  {
    if n > k + 1 {
      ReadPixelsStop(tokens, k, n - 1);
    }
  }

  lemma ReshapeAt(ps: seq<Color>, rows: nat, cols: nat, r: nat, c: nat)
    requires |ps| == rows * cols && r < rows && c < cols
    ensures r * cols + c < |ps| && Reshape(ps, rows, cols)[r][c] == ps[r * cols + c]
  {
    RowMajorBound(r, c, rows, cols);
  }

  /** Pixel tokens that can all be read are in-range Java ints up to PixelStart(n). */
  lemma PixelTokensOfReadable(tokens: seq<Token>, n: nat)
    requires forall k :: 0 <= k < n ==> ReadPixel(tokens, k).Ok?
    ensures 0 < n ==> PixelStart(n) <= |tokens|
    ensures forall i :: 4 <= i < PixelStart(n) && i < |tokens| ==> IsJavaInt(tokens[i]) && InRange(tokens[i].value)
  {
    if n > 0 {
      ReadPixelOk(tokens, n - 1);
    }
    forall i | 4 <= i < PixelStart(n) && i < |tokens| ensures IsJavaInt(tokens[i]) && InRange(tokens[i].value) {
      var k := (i - 4) / 3;
      assert PixelStart(k) <= i < PixelStart(k) + 3 && k < n;
      ReadPixelOk(tokens, k);
    }
  }

  /** Conversely, in-range Java ints up to PixelStart(n) make every one of the n pixels readable. */
  lemma ReadableOfPixelTokens(tokens: seq<Token>, n: nat)
    requires PixelStart(n) <= |tokens|
    requires forall i :: 4 <= i < PixelStart(n) ==> IsJavaInt(tokens[i]) && InRange(tokens[i].value)
    ensures forall k :: 0 <= k < n ==> ReadPixel(tokens, k).Ok?
  {
    forall k | 0 <= k < n ensures ReadPixel(tokens, k).Ok? {
      ReadPixelOk(tokens, k);
    }
  }

  /** Decoding succeeds exactly on image inputs. */
  lemma DecodeSucceedsIff(tokens: seq<Token>)
    ensures Decode(tokens).Ok? <==> IsImageInput(tokens)
  {
    var hd := ParseHeader(tokens);
    if hd.Ok? {
      var n := hd.value.rows * hd.value.cols;
      assert tokens[2].value * tokens[1].value == n;
      ReadPixelsOk(tokens, n);
      if ReadPixels(tokens, n).Ok? {
        PixelTokensOfReadable(tokens, n);
      }
      if IsImageInput(tokens) {
        ReadableOfPixelTokens(tokens, n);
      }
    }
  }

  /** A decoded image has the declared dimensions, and cell (r, c) holds the triple that starts
      3 * (r * cols + c) tokens after the four-token header. */
  lemma DecodeCells(tokens: seq<Token>, r: nat, c: nat)
    requires Decode(tokens).Ok?
    ensures 4 <= |tokens| && IsJavaInt(tokens[1]) && IsJavaInt(tokens[2])
    ensures 0 <= tokens[1].value && 0 <= tokens[2].value
    ensures IsGrid(Decode(tokens).value, tokens[2].value, tokens[1].value)
    ensures r < tokens[2].value && c < tokens[1].value ==>
      var k := r * tokens[1].value + c;
      var p, s := Decode(tokens).value[r][c], PixelStart(k);
      s + 2 < |tokens| &&
      tokens[s] == Number(p.r) && tokens[s + 1] == Number(p.g) && tokens[s + 2] == Number(p.b)
  {
    var h := ParseHeader(tokens).value;
    assert h.cols == tokens[1].value && h.rows == tokens[2].value;
    var n := h.rows * h.cols;
    var ps := ReadPixels(tokens, n).value;
    assert Decode(tokens).value == Reshape(ps, h.rows, h.cols);
    if r < h.rows && c < h.cols {
      var k := r * h.cols + c;
      ReshapeAt(ps, h.rows, h.cols, r, c);
      assert Decode(tokens).value[r][c] == ps[k];
      ReadPixelsOk(tokens, n);
      assert ps[k] == ReadPixel(tokens, k).value;
      ReadPixelOk(tokens, k);
    }
  }

  /** Too few pixel tokens for the declared size is an error. */
  lemma DecodeTruncated(tokens: seq<Token>)
    requires ParseHeader(tokens).Ok?
    requires |tokens| < PixelStart(ParseHeader(tokens).value.rows * ParseHeader(tokens).value.cols)
    ensures Decode(tokens).Err?
  {
    DecodeSucceedsIff(tokens);
  }

  /** When the input simply ends too early (every pixel token present is an in-range Java int),
      the error is Truncated: the read runs out of input inside the first missing pixel. */
  lemma DecodeShortInput(tokens: seq<Token>)
    requires ParseHeader(tokens).Ok?
    requires |tokens| < PixelStart(ParseHeader(tokens).value.rows * ParseHeader(tokens).value.cols)
    requires forall i :: 4 <= i < |tokens| ==> IsJavaInt(tokens[i]) && InRange(tokens[i].value)
    ensures Decode(tokens) == Err(Truncated)
  {
    var m := (|tokens| - 4) / 3;
    assert PixelStart(m) <= |tokens| < PixelStart(m) + 3;
    ReadableOfPixelTokens(tokens, m);
    ReadPixelsOk(tokens, m);
    var s := PixelStart(m);
    assert ReadInt(tokens, s).Err? ==> ReadInt(tokens, s) == Err(Truncated);
    assert ReadPixel(tokens, m) == Err(Truncated);
    DecodeStopsAt(tokens, m);
  }

  // ---------------------------------------------------------------------------
  // The method, on arrays

  /** Reading one more pixel of the current row extends both the pixels read and the row. */
  lemma ReadPixelsNext(tokens: seq<Token>, k: nat, ps: seq<Color>, row: seq<Color>)
    requires ReadPixels(tokens, k) == Ok(ps + row) && ReadPixel(tokens, k).Ok?
    ensures ReadPixels(tokens, k + 1) == Ok(ps + (row + [ReadPixel(tokens, k).value]))
  {
    assert ps + row + [ReadPixel(tokens, k).value] == ps + (row + [ReadPixel(tokens, k).value]);
  }

  /** A pixel that cannot be read ends decoding with its error. */
  lemma DecodeStopsAt(tokens: seq<Token>, k: nat)
    requires ParseHeader(tokens).Ok?
    requires k < ParseHeader(tokens).value.rows * ParseHeader(tokens).value.cols
    requires ReadPixels(tokens, k).Ok? && ReadPixel(tokens, k).Err?
    ensures Decode(tokens) == Err(ReadPixel(tokens, k).error)
  {
    var h := ParseHeader(tokens).value;
    ReadPixelsStop(tokens, k, h.rows * h.cols);
  }

  /** Reading one more row of cols pixels adds that row to the image. */
  lemma ReshapeNextRow(ps: seq<Color>, row: seq<Color>, r: nat, cols: nat)
    requires |ps| == r * cols && |row| == cols
    ensures |ps + row| == (r + 1) * cols
    ensures Reshape(ps + row, r + 1, cols) == Reshape(ps, r, cols) + [row]
  {
    assert (r + 1) * cols == r * cols + cols;
    var g, h := Reshape(ps + row, r + 1, cols), Reshape(ps, r, cols) + [row];
    forall i, j | 0 <= i < r + 1 && 0 <= j < cols ensures g[i][j] == h[i][j] {
      ReshapeAt(ps + row, r + 1, cols, i, j);
      if i < r {
        ReshapeAt(ps, r, cols, i, j);
      }
    }
    assert forall i :: 0 <= i < r + 1 ==> g[i] == h[i];
  }

  /** The inner loop of read: pixels k .. k + cols - 1 fill row r from left to right. Returns
      the row, or the error of the first pixel in it that cannot be read. */
  method ReadRow(tokens: seq<Token>, image: array2<Color>, r: nat, k: nat, ghost ps: seq<Color>)
      returns (res: Result<seq<Color>>)
    requires ParseHeader(tokens) == Ok(Header(image.Length1, image.Length0))
    requires r < image.Length0 && k == |ps| && k + image.Length1 <= image.Length0 * image.Length1
    requires ReadPixels(tokens, k) == Ok(ps)
    modifies image
    ensures forall i, j :: 0 <= i < image.Length0 && 0 <= j < image.Length1 && i != r ==>
      image[i, j] == old(image[i, j])
    ensures res.Err? ==> Decode(tokens) == Err(res.error)
    ensures res.Ok? ==> |res.value| == image.Length1
    ensures res.Ok? ==> ReadPixels(tokens, k + image.Length1) == Ok(ps + res.value)
    ensures res.Ok? ==> forall j :: 0 <= j < image.Length1 ==> image[r, j] == res.value[j]
  {
    var row: seq<Color> := [];
    assert ps + row == ps;
    for c := 0 to image.Length1
      invariant |row| == c && ReadPixels(tokens, k + c) == Ok(ps + row)
      invariant forall i, j :: 0 <= i < image.Length0 && 0 <= j < image.Length1 && i != r ==>
        image[i, j] == old(image[i, j])
      invariant forall j :: 0 <= j < c ==> image[r, j] == row[j]
    {
      var pixel := ReadPixel(tokens, k + c);
      if pixel.Err? {
        DecodeStopsAt(tokens, k + c);
        return Err(pixel.error);
      }
      ReadPixelsNext(tokens, k + c, ps, row);
      image[r, c] := pixel.value;
      row := row + [pixel.value];
    }
    return Ok(row);
  }

  /** Reads the image, filling a fresh array row by row while consuming the tokens in order. */
  method Read(tokens: seq<Token>) returns (res: Result<array2<Color>>)
    ensures res.Ok? ==> fresh(res.value)
    ensures CellsOfResult(res) == Decode(tokens)
  {
    var header := ParseHeader(tokens);
    if header.Err? {
      return Err(header.error);
    }
    var rows, cols := header.value.rows, header.value.cols;
    var image := new Color[rows, cols];
    var k := 0;                        // pixels read so far
    ghost var ps: seq<Color> := [];    // and their values
    ghost var done: Grid := [];        // the rows filled so far
    for r := 0 to rows
      invariant k == |ps| == r * cols && ReadPixels(tokens, k) == Ok(ps)
      invariant Reshape(ps, r, cols) == done
      invariant forall i, j :: 0 <= i < r && 0 <= j < cols ==> image[i, j] == done[i][j]
    {
      MulMono(cols, r + 1, rows);
      var row :- ReadRow(tokens, image, r, k, ps);
      ReshapeNextRow(ps, row, r, cols);
      ps, done := ps + row, done + [row];
      k := k + cols;
    }
    CellsOf(image, done);
    res := Ok(image);
  }

  /** The 2 x 2 example: red, green / blue, white. */
  function ExampleTokens(): seq<Token>
  {
    [Word("P3"), Number(2), Number(2), Number(255),
     Number(255), Number(0), Number(0),     Number(0), Number(255), Number(0),
     Number(0), Number(0), Number(255),     Number(255), Number(255), Number(255)]
  }

  /** The four pixels of the example, in reading order. */
  lemma ExamplePixels()
    ensures ReadPixels(ExampleTokens(), 4).Ok?
    ensures ReadPixels(ExampleTokens(), 4).value ==
      [Color(255, 0, 0), Color(0, 255, 0), Color(0, 0, 255), Color(255, 255, 255)]
  {
    var t := ExampleTokens();
    assert ReadPixel(t, 0) == Ok(Color(255, 0, 0));
    assert ReadPixel(t, 1) == Ok(Color(0, 255, 0));
    assert ReadPixel(t, 2) == Ok(Color(0, 0, 255));
    assert ReadPixel(t, 3) == Ok(Color(255, 255, 255));
    assert ReadPixels(t, 1).Ok? && ReadPixels(t, 1).value == [Color(255, 0, 0)];
    assert ReadPixels(t, 2).Ok? && ReadPixels(t, 2).value == [Color(255, 0, 0), Color(0, 255, 0)];
    assert ReadPixels(t, 3).Ok? && ReadPixels(t, 3).value == [Color(255, 0, 0), Color(0, 255, 0), Color(0, 0, 255)];
  }

  /** The image the example describes. */
  function ExampleGrid(): Grid
  {
    [[Color(255, 0, 0), Color(0, 255, 0)], [Color(0, 0, 255), Color(255, 255, 255)]]
  }

  lemma DecodeExample()
    ensures Decode(ExampleTokens()) ==
      Ok([[Color(255, 0, 0), Color(0, 255, 0)], [Color(0, 0, 255), Color(255, 255, 255)]])
  {
    var t := ExampleTokens();
    assert ParseHeader(t) == Ok(Header(2, 2));
    ExamplePixels();
    var ps := [Color(255, 0, 0), Color(0, 255, 0), Color(0, 0, 255), Color(255, 255, 255)];
    var g := Reshape(ps, 2, 2);
    assert g[0] == [ps[0], ps[1]] && g[1] == [ps[2], ps[3]];
    assert g == [[Color(255, 0, 0), Color(0, 255, 0)], [Color(0, 0, 255), Color(255, 255, 255)]];
  }

  /** Flipping the decoded example horizontally puts green in the top-left corner. */
  lemma DecodeFlipExample()
    ensures Decode(ExampleTokens()) == Ok(ExampleGrid())
    ensures Transforms.HorizontalFlip(ExampleGrid()) ==
      [[Color(0, 255, 0), Color(255, 0, 0)], [Color(255, 255, 255), Color(0, 0, 255)]]
  {
    DecodeExample();
    var g := ExampleGrid();
    var f := Transforms.HorizontalFlip(g);
    forall r, c | 0 <= r < 2 && 0 <= c < 2 ensures f[r][c] == g[r][1 - c] {
      Transforms.HorizontalFlipAt(g, r, c);
    }
    assert f[0] == [g[0][1], g[0][0]] && f[1] == [g[1][1], g[1][0]];
  }
}
