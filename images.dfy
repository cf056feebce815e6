/** Pixel grids: the value view of an image (a row-major sequence of rows), the error kinds the
    operations report, and the link between a Java-style 2-D array and its value. */
module Images {
  import opened Pixels

  /** An image as rows of pixels; row r, column c is g[r][c]. */
  type Grid = seq<seq<Color>>

  /** g has exactly h rows of exactly w pixels each. */
  predicate IsGrid(g: Grid, h: int, w: int)
  {
    |g| == h && forall r :: 0 <= r < |g| ==> |g[r]| == w
  }

  function Rows(g: Grid): nat { |g| }
  function Cols(g: Grid): nat { if |g| == 0 then 0 else |g[0]| }

  /** A rectangular image with at least one row and one column. The column bound is this model's
      choice; the Java operations themselves need only the row, to read image[0]. */
  predicate WellFormed(g: Grid)
  {
    |g| >= 1 && |g[0]| >= 1 && IsGrid(g, |g|, |g[0]|)
  }

  /** Why an operation produced no image. */
  datatype Error =
    | Truncated          // the input ran out before a value that had to be read
    | NotAnInteger       // a token that had to be a Java int was not one
    | NegativeSize       // a declared dimension was negative
    | ChannelOutOfRange  // a colour channel outside [0, 255]
    | DimensionMismatch  // two images to be combined have different sizes

  datatype Result<T> = Ok(value: T) | Err(error: Error) {
    predicate IsFailure() { Err? }
    function PropagateFailure<U>(): Result<U> requires Err? { Err(error) }
    function Extract(): T requires Ok? { value }
  }

  /** The value held by a 2-D array of pixels. */
  ghost function Cells(a: array2<Color>): (g: Grid)
    reads a
    ensures IsGrid(g, a.Length0, a.Length1)
    ensures forall r, c :: 0 <= r < a.Length0 && 0 <= c < a.Length1 ==> g[r][c] == a[r, c]
  {
    seq(a.Length0, r reads a requires 0 <= r < a.Length0 =>
      seq(a.Length1, c reads a requires 0 <= c < a.Length1 => a[r, c]))
  }

  /** An array holds the grid g when it has g's dimensions and agrees with it cell by cell. */
  lemma CellsOf(a: array2<Color>, g: Grid)
    requires IsGrid(g, a.Length0, a.Length1)
    requires forall r, c :: 0 <= r < a.Length0 && 0 <= c < a.Length1 ==> a[r, c] == g[r][c]
    ensures Cells(a) == g
  {
    assert forall r :: 0 <= r < a.Length0 ==> Cells(a)[r] == g[r];
  }

  /** The value of a result that may hold an array. */
  ghost function CellsOfResult(res: Result<array2<Color>>): (v: Result<Grid>)
    reads if res.Ok? then {res.value} else {}
    ensures v.Ok? == res.Ok?
  {
    match res
    case Ok(a) => Ok(Cells(a))
    case Err(e) => Err(e)
  }
}
