/** The transforms of Runigram: flips, grey-scaling, nearest-neighbour scaling and blending of
    two images. Each one is given first as a function on grids, then as the method that allocates
    a fresh array and fills it cell by cell as the Java code does. */
module Transforms {
  import opened Pixels
  import opened Images

  // ---------------------------------------------------------------------------
  // Functions on grids

  function HorizontalFlip(g: Grid): (f: Grid)
    requires WellFormed(g)
    ensures WellFormed(f) && Rows(f) == Rows(g) && Cols(f) == Cols(g)
  {
    seq(Rows(g), r requires 0 <= r < Rows(g) =>
      seq(Cols(g), c requires 0 <= c < Cols(g) => g[r][Cols(g) - 1 - c]))
  }

  function VerticalFlip(g: Grid): (f: Grid)
    requires WellFormed(g)
    ensures WellFormed(f) && Rows(f) == Rows(g) && Cols(f) == Cols(g)
  {
    var f := seq(Rows(g), r requires 0 <= r < Rows(g) =>
      seq(Cols(g), c requires 0 <= c < Cols(g) => g[Rows(g) - 1 - r][c]));
    assert forall r :: 0 <= r < |f| ==> |f[r]| == Cols(g);
    f
  }

  function GrayScale(g: Grid): (f: Grid)
    requires WellFormed(g)
    ensures WellFormed(f) && Rows(f) == Rows(g) && Cols(f) == Cols(g)
  {
    seq(Rows(g), r requires 0 <= r < Rows(g) =>
      seq(Cols(g), c requires 0 <= c < Cols(g) => Luminance(g[r][c])))
  }

  /** Nearest-neighbour source index: a destination index i out of n maps to floor(i * n0 / n),
      clamped to n0 - 1. */
  function SourceIndex(i: nat, n0: nat, n: nat): (k: nat)
    requires i < n && 0 < n0
    ensures k < n0
  {
    Min(i * n0 / n, n0 - 1)
  }

  /** Resamples g to height rows and width columns; every cell is a copy of one source cell. */
  function Resample(g: Grid, height: nat, width: nat): (f: Grid)
    requires WellFormed(g)
    ensures IsGrid(f, height, width)
  {
    seq(height, r requires 0 <= r < height =>
      seq(width, c requires 0 <= c < width =>
        g[SourceIndex(r, Rows(g), height)][SourceIndex(c, Cols(g), width)]))
  }

  /** Cell-wise blend of two grids of the same size. */
  function BlendCells(g1: Grid, g2: Grid, alpha: Alpha): (f: Grid)
    requires WellFormed(g1) && IsGrid(g2, Rows(g1), Cols(g1)) && alpha.Valid()
    ensures WellFormed(f) && Rows(f) == Rows(g1) && Cols(f) == Cols(g1)
  {
    seq(Rows(g1), r requires 0 <= r < Rows(g1) =>
      seq(Cols(g1), c requires 0 <= c < Cols(g1) => Blend(g1[r][c], g2[r][c], alpha)))
  }

  predicate SameSize(g1: Grid, g2: Grid) { Rows(g1) == Rows(g2) && Cols(g1) == Cols(g2) }

  /** Blending two images, which fails unless their dimensions agree. */
  function BlendGrids(g1: Grid, g2: Grid, alpha: Alpha): (res: Result<Grid>)
    requires WellFormed(g1) && WellFormed(g2) && alpha.Valid()
    ensures res.Ok? <==> SameSize(g1, g2)
    ensures res.Err? ==> res.error == DimensionMismatch
  {
    if SameSize(g1, g2) then Ok(BlendCells(g1, g2, alpha)) else Err(DimensionMismatch)
  }

  // ---------------------------------------------------------------------------
  // Properties

  lemma HorizontalFlipAt(g: Grid, r: nat, c: nat)
    requires WellFormed(g) && r < Rows(g) && c < Cols(g)
    ensures HorizontalFlip(g)[r][c] == g[r][Cols(g) - 1 - c]
  {
  }

  lemma VerticalFlipAt(g: Grid, r: nat, c: nat)
    requires WellFormed(g) && r < Rows(g) && c < Cols(g)
    ensures VerticalFlip(g)[r][c] == g[Rows(g) - 1 - r][c]
  {
  }

  lemma HorizontalFlipInvolution(g: Grid)
    requires WellFormed(g)
    ensures HorizontalFlip(HorizontalFlip(g)) == g
  {
    var f := HorizontalFlip(HorizontalFlip(g));
    forall r | 0 <= r < Rows(g) ensures f[r] == g[r] {
      forall c | 0 <= c < Cols(g) ensures f[r][c] == g[r][c] {
        HorizontalFlipAt(HorizontalFlip(g), r, c);
        HorizontalFlipAt(g, r, Cols(g) - 1 - c);
      }
    }
  }

  lemma VerticalFlipInvolution(g: Grid)
    requires WellFormed(g)
    ensures VerticalFlip(VerticalFlip(g)) == g
  {
    var f := VerticalFlip(VerticalFlip(g));
    forall r | 0 <= r < Rows(g) ensures f[r] == g[r] {
      forall c | 0 <= c < Cols(g) ensures f[r][c] == g[r][c] {
        VerticalFlipAt(VerticalFlip(g), r, c);
        VerticalFlipAt(g, Rows(g) - 1 - r, c);
      }
    }
  }

  /** Flipping one way and then the other gives the same image in either order. */
  lemma FlipsCommute(g: Grid)
    requires WellFormed(g)
    ensures HorizontalFlip(VerticalFlip(g)) == VerticalFlip(HorizontalFlip(g))
  {
    var f1 := HorizontalFlip(VerticalFlip(g));
    var f2 := VerticalFlip(HorizontalFlip(g));
    forall r | 0 <= r < Rows(g) ensures f1[r] == f2[r] {
      forall c | 0 <= c < Cols(g) ensures f1[r][c] == f2[r][c] {
        HorizontalFlipAt(VerticalFlip(g), r, c);
        VerticalFlipAt(g, r, Cols(g) - 1 - c);
        VerticalFlipAt(HorizontalFlip(g), r, c);
        HorizontalFlipAt(g, Rows(g) - 1 - r, c);
      }
    }
  }

  /** Every cell of the grey image is grey and is the luminance of the same input cell. */
  lemma GrayScaleAt(g: Grid, r: nat, c: nat)
    requires WellFormed(g) && r < Rows(g) && c < Cols(g)
    ensures GrayScale(g)[r][c] == Luminance(g[r][c])
    ensures GrayScale(g)[r][c].r == GrayScale(g)[r][c].g == GrayScale(g)[r][c].b
  {
  }

  /** In exact arithmetic, grey-scaling an image that is already grey changes nothing. */
  lemma GrayScaleIdempotent(g: Grid)
    requires WellFormed(g)
    ensures GrayScale(GrayScale(g)) == GrayScale(g)
  {
    var once := GrayScale(g);
    var twice := GrayScale(once);
    forall r | 0 <= r < Rows(g) ensures twice[r] == once[r] {
      forall c | 0 <= c < Cols(g) ensures twice[r][c] == once[r][c] {
        LuminanceIdempotent(g[r][c]);
      }
    }
  }

  lemma MulDivCancel(i: nat, n: nat)
    requires 0 < n
    ensures i * n / n == i
  {
    DivBetween(i * n, n, i, i);
  }

  lemma MulStrict(a: nat, b: nat, n: nat)
    requires a < b && 0 < n
    ensures a * n < b * n
  {
    assert b * n - a * n == (b - a) * n;
  }

  /** In exact arithmetic the clamp never fires: floor(i * n0 / n) is already below n0, and it is
      the source index nearest from below, i.e. k * n <= i * n0 < (k + 1) * n. */
  lemma SourceIndexUnclamped(i: nat, n0: nat, n: nat)
    requires i < n && 0 < n0
    ensures SourceIndex(i, n0, n) == i * n0 / n
    ensures SourceIndex(i, n0, n) * n <= i * n0 < (SourceIndex(i, n0, n) + 1) * n
  {
    MulStrict(i, n, n0);
    assert i * n0 < n0 * n;
    DivBetween(i * n0, n, 0, n0);
    var k := i * n0 / n;
    if k >= n0 {
      MulMono(n, n0, k);
      assert false;
    }
  }

  /** Resampling to the same size maps every index to itself. */
  lemma SourceIndexSameSize(i: nat, n: nat)
    requires i < n
    ensures SourceIndex(i, n, n) == i
  {
    MulDivCancel(i, n);
  }

  lemma ResampleAt(g: Grid, height: nat, width: nat, r: nat, c: nat)
    requires WellFormed(g) && r < height && c < width
    ensures Resample(g, height, width)[r][c] ==
            g[SourceIndex(r, Rows(g), height)][SourceIndex(c, Cols(g), width)]
  {
  }

  /** Scaling samples and never averages: each output cell is a copy of some input cell. */
  lemma ResampleSamples(g: Grid, height: nat, width: nat, r: nat, c: nat)
    requires WellFormed(g) && r < height && c < width
    ensures exists i, j :: 0 <= i < Rows(g) && 0 <= j < Cols(g) &&
                           Resample(g, height, width)[r][c] == g[i][j]
  {
    var i, j := SourceIndex(r, Rows(g), height), SourceIndex(c, Cols(g), width);
    assert Resample(g, height, width)[r][c] == g[i][j];
  }

  /** Scaling an image to its own size returns it unchanged. */
  lemma ResampleIdentity(g: Grid)
    requires WellFormed(g)
    ensures Resample(g, Rows(g), Cols(g)) == g
  {
    var f := Resample(g, Rows(g), Cols(g));
    forall r | 0 <= r < Rows(g) ensures f[r] == g[r] {
      forall c | 0 <= c < Cols(g) ensures f[r][c] == g[r][c] {
        SourceIndexSameSize(r, Rows(g));
        SourceIndexSameSize(c, Cols(g));
      }
    }
  }

  /** A single-pixel image scaled to any size has that pixel everywhere. */
  lemma ResampleSinglePixel(p: Color, height: nat, width: nat, r: nat, c: nat)
    requires r < height && c < width
    ensures Resample([[p]], height, width)[r][c] == p
  {
  }

  lemma BlendCellsAt(g1: Grid, g2: Grid, alpha: Alpha, r: nat, c: nat)
    requires WellFormed(g1) && IsGrid(g2, Rows(g1), Cols(g1)) && alpha.Valid()
    requires r < Rows(g1) && c < Cols(g1)
    ensures BlendCells(g1, g2, alpha)[r][c] == Blend(g1[r][c], g2[r][c], alpha)
  {
  }

  /** With alpha = 1 the blend is the first image. */
  lemma BlendCellsFull(g1: Grid, g2: Grid, d: int)
    requires WellFormed(g1) && IsGrid(g2, Rows(g1), Cols(g1)) && 0 < d
    ensures BlendCells(g1, g2, Ratio(d, d)) == g1
  {
    var f := BlendCells(g1, g2, Ratio(d, d));
    forall r | 0 <= r < Rows(g1) ensures f[r] == g1[r] {
      forall c | 0 <= c < Cols(g1) ensures f[r][c] == g1[r][c] {
        BlendFull(g1[r][c], g2[r][c], d);
      }
    }
  }

  /** With alpha = 0 the blend is the second image. */
  lemma BlendCellsNone(g1: Grid, g2: Grid, d: int)
    requires WellFormed(g1) && IsGrid(g2, Rows(g1), Cols(g1)) && 0 < d
    ensures BlendCells(g1, g2, Ratio(0, d)) == g2
  {
    var f := BlendCells(g1, g2, Ratio(0, d));
    forall r | 0 <= r < Rows(g1) ensures f[r] == g2[r] {
      forall c | 0 <= c < Cols(g1) ensures f[r][c] == g2[r][c] {
        BlendNone(g1[r][c], g2[r][c], d);
      }
    }
  }

  /** A successful grid blend has the first image's dimensions and blends cell by cell. */
  lemma BlendGridsCells(g1: Grid, g2: Grid, alpha: Alpha, r: nat, c: nat)
    requires WellFormed(g1) && WellFormed(g2) && alpha.Valid()
    requires SameSize(g1, g2) && r < Rows(g1) && c < Cols(g1)
    ensures BlendGrids(g1, g2, alpha).Ok?
    ensures IsGrid(BlendGrids(g1, g2, alpha).value, Rows(g1), Cols(g1))
    ensures BlendGrids(g1, g2, alpha).value[r][c] == Blend(g1[r][c], g2[r][c], alpha)
  {
  }

  // ---------------------------------------------------------------------------
  // The methods, on arrays

  method FlippedHorizontally(image: array2<Color>) returns (flipped: array2<Color>)
    requires image.Length0 >= 1 && image.Length1 >= 1
    ensures fresh(flipped)
    ensures Cells(flipped) == HorizontalFlip(Cells(image))
  {
    var rows, cols := image.Length0, image.Length1;
    flipped := new Color[rows, cols];
    for r := 0 to rows
      invariant forall i, j :: 0 <= i < r && 0 <= j < cols ==> flipped[i, j] == image[i, cols - 1 - j]
    {
      for c := 0 to cols
        invariant forall i, j :: 0 <= i < r && 0 <= j < cols ==> flipped[i, j] == image[i, cols - 1 - j]
        invariant forall j :: 0 <= j < c ==> flipped[r, j] == image[r, cols - 1 - j]
      {
        flipped[r, c] := image[r, cols - c - 1];
      }
    }
    CellsOf(flipped, HorizontalFlip(Cells(image)));
  }

  method FlippedVertically(image: array2<Color>) returns (flipped: array2<Color>)
    requires image.Length0 >= 1 && image.Length1 >= 1
    ensures fresh(flipped)
    ensures Cells(flipped) == VerticalFlip(Cells(image))
  {
    var rows, cols := image.Length0, image.Length1;
    flipped := new Color[rows, cols];
    // The source walks column by column.
    for c := 0 to cols
      invariant forall i, j :: 0 <= i < rows && 0 <= j < c ==> flipped[i, j] == image[rows - 1 - i, j]
    {
      for r := 0 to rows
        invariant forall i, j :: 0 <= i < rows && 0 <= j < c ==> flipped[i, j] == image[rows - 1 - i, j]
        invariant forall i :: 0 <= i < r ==> flipped[i, c] == image[rows - 1 - i, c]
      {
        flipped[r, c] := image[rows - r - 1, c];
      }
    }
    CellsOf(flipped, VerticalFlip(Cells(image)));
  }

  method GrayScaled(image: array2<Color>) returns (gray: array2<Color>)
    requires image.Length0 >= 1 && image.Length1 >= 1
    ensures fresh(gray)
    ensures Cells(gray) == GrayScale(Cells(image))
  {
    var rows, cols := image.Length0, image.Length1;
    gray := new Color[rows, cols];
    for c := 0 to cols
      invariant forall i, j :: 0 <= i < rows && 0 <= j < c ==> gray[i, j] == Luminance(image[i, j])
    {
      for r := 0 to rows
        invariant forall i, j :: 0 <= i < rows && 0 <= j < c ==> gray[i, j] == Luminance(image[i, j])
        invariant forall i :: 0 <= i < r ==> gray[i, c] == Luminance(image[i, c])
      {
        gray[r, c] := Luminance(image[r, c]);
      }
    }
    CellsOf(gray, GrayScale(Cells(image)));
  }

  /** height and width are natural numbers: Java refuses a negative array size. A zero size gives an
      empty image, since the divisions by it sit inside loops that then do not run. */
  method Scaled(image: array2<Color>, height: nat, width: nat) returns (scaled: array2<Color>)
    requires image.Length0 >= 1 && image.Length1 >= 1
    ensures fresh(scaled) && scaled.Length0 == height && scaled.Length1 == width
    ensures Cells(scaled) == Resample(Cells(image), height, width)
  {
    scaled := new Color[height, width];
    var h0, w0 := image.Length0, image.Length1;
    for r := 0 to height
      invariant forall i, j :: 0 <= i < r && 0 <= j < width ==>
        scaled[i, j] == image[SourceIndex(i, h0, height), SourceIndex(j, w0, width)]
    {
      for c := 0 to width
        invariant forall i, j :: 0 <= i < r && 0 <= j < width ==>
          scaled[i, j] == image[SourceIndex(i, h0, height), SourceIndex(j, w0, width)]
        invariant forall j :: 0 <= j < c ==>
          scaled[r, j] == image[SourceIndex(r, h0, height), SourceIndex(j, w0, width)]
      {
        var sourceR := r * h0 / height;
        var sourceC := c * w0 / width;
        sourceR := Min(sourceR, h0 - 1);
        sourceC := Min(sourceC, w0 - 1);
        assert sourceR == SourceIndex(r, h0, height) && sourceC == SourceIndex(c, w0, width);
        scaled[r, c] := image[sourceR, sourceC];
      }
    }
    CellsOf(scaled, Resample(Cells(image), height, width));
  }

  /** The grid blend. On a size mismatch the source prints "Invalid Dimensions" and hands back an
      unfilled array; here that is the error DimensionMismatch. */
  method BlendImages(image1: array2<Color>, image2: array2<Color>, alpha: Alpha)
    returns (res: Result<array2<Color>>)
    requires image1.Length0 >= 1 && image1.Length1 >= 1
    requires image2.Length0 >= 1 && image2.Length1 >= 1
    requires alpha.Valid()
    ensures res.Ok? ==> fresh(res.value)
    ensures CellsOfResult(res) == BlendGrids(Cells(image1), Cells(image2), alpha)
  {
    var rows, cols := image1.Length0, image1.Length1;
    var blended := new Color[rows, cols];
    if rows == image2.Length0 && cols == image2.Length1 {
      for r := 0 to rows
        invariant forall i, j :: 0 <= i < r && 0 <= j < cols ==>
          blended[i, j] == Blend(image1[i, j], image2[i, j], alpha)
      {
        for c := 0 to cols
          invariant forall i, j :: 0 <= i < r && 0 <= j < cols ==>
            blended[i, j] == Blend(image1[i, j], image2[i, j], alpha)
          invariant forall j :: 0 <= j < c ==> blended[r, j] == Blend(image1[r, j], image2[r, j], alpha)
        {
          blended[r, c] := Blend(image1[r, c], image2[r, c], alpha);
        }
      }
      CellsOf(blended, BlendCells(Cells(image1), Cells(image2), alpha));
      res := Ok(blended);
    } else {
      res := Err(DimensionMismatch);
    }
  }
}
