/** The morph animation: the target is scaled to the source's size once, then frames s = 0 .. n are
    the blends of source and scaled target with alpha = 1 - s / n. The frames are handed to the
    display in order; the model returns them in that order instead. */
module Morph {
  import opened Pixels
  import opened Images
  import opened Transforms

  /** The weight 1.0 - (double) s / n of frame s. For n = 0 the only frame has s = 0 and the weight
      is 1.0 - 0.0 / 0, which is NaN. */
  function MorphAlpha(s: int, n: int): (a: Alpha)
    requires 0 <= s <= n
    ensures a.Valid()
    ensures 0 < n ==> a == Ratio(n - s, n)
  {
    if n == 0 then NotANumber else Ratio(n - s, n)
  }

  /** The number of frames: the loop runs s = 0 .. n, so none at all when n is negative. */
  function FrameCount(n: int): (c: nat)
    ensures c == 0 <==> n < 0
    ensures 0 < c ==> c - 1 == n
  {
    if n < 0 then 0 else n + 1
  }

  /** Frame s of morphing source into target in n steps. */
  function MorphFrames(source: Grid, target: Grid, n: int): (frames: seq<Grid>)
    requires WellFormed(source) && WellFormed(target)
    ensures |frames| == FrameCount(n)
    ensures forall s :: 0 <= s < |frames| ==>
      WellFormed(frames[s]) && SameSize(frames[s], source)
  {
    var scaledTarget := Resample(target, Rows(source), Cols(source));
    seq(FrameCount(n), s requires 0 <= s < FrameCount(n) =>
      BlendCells(source, scaledTarget, MorphAlpha(s, n)))
  }

  lemma MorphFrameIs(source: Grid, target: Grid, n: int, s: nat)
    requires WellFormed(source) && WellFormed(target) && s <= n
    ensures MorphFrames(source, target, n)[s] ==
      BlendCells(source, Resample(target, Rows(source), Cols(source)), MorphAlpha(s, n))
  {
  }

  /** Frame s blends each source cell with the scaled target's cell at weight (n - s) / n. */
  lemma MorphFrameAt(source: Grid, target: Grid, n: int, s: nat, r: nat, c: nat)
    requires WellFormed(source) && WellFormed(target)
    requires 0 < n && s <= n && r < Rows(source) && c < Cols(source)
    ensures MorphFrames(source, target, n)[s][r][c] ==
      Blend(source[r][c], Resample(target, Rows(source), Cols(source))[r][c], Ratio(n - s, n))
  {
  }

  /** The first frame is the source itself. */
  lemma MorphFirstFrame(source: Grid, target: Grid, n: int)
    requires WellFormed(source) && WellFormed(target) && 1 <= n
    ensures MorphFrames(source, target, n)[0] == source
  {
    BlendCellsFull(source, Resample(target, Rows(source), Cols(source)), n);
  }

  /** The last frame is the target scaled to the source's size. */
  lemma MorphLastFrame(source: Grid, target: Grid, n: int)
    requires WellFormed(source) && WellFormed(target) && 1 <= n
    ensures MorphFrames(source, target, n)[n] == Resample(target, Rows(source), Cols(source))
  {
    BlendCellsNone(source, Resample(target, Rows(source), Cols(source)), n);
  }

  /** Morphing into an image of the same size ends exactly on that image. */
  lemma MorphEndsOnTarget(source: Grid, target: Grid, n: int)
    requires WellFormed(source) && WellFormed(target) && SameSize(source, target) && 1 <= n
    ensures MorphFrames(source, target, n)[n] == target
  {
    MorphLastFrame(source, target, n);
    ResampleIdentity(target);
  }

  /** With zero steps the single frame has the NaN weight, which Java truncates to 0 in every
      channel: the frame is black. */
  lemma MorphZeroSteps(source: Grid, target: Grid, r: nat, c: nat)
    requires WellFormed(source) && WellFormed(target) && r < Rows(source) && c < Cols(source)
    ensures |MorphFrames(source, target, 0)| == 1
    ensures MorphFrames(source, target, 0)[0][r][c] == Color(0, 0, 0)
  {
    BlendCellsAt(source, Resample(target, Rows(source), Cols(source)), NotANumber, r, c);
  }

  /** Runs the animation loop and returns the frames in the order they are displayed. */
  method Morph(source: array2<Color>, target: array2<Color>, n: int) returns (frames: seq<array2<Color>>)
    requires source.Length0 >= 1 && source.Length1 >= 1
    requires target.Length0 >= 1 && target.Length1 >= 1
    ensures |frames| == FrameCount(n)
    ensures forall s :: 0 <= s < |frames| ==>
      fresh(frames[s]) && Cells(frames[s]) == MorphFrames(Cells(source), Cells(target), n)[s]
  {
    var scaledTarget := Scaled(target, source.Length0, source.Length1);
    ghost var src := Cells(source);
    ghost var tgt := Cells(target);
    ghost var spec := MorphFrames(src, tgt, n);
    assert Rows(src) == source.Length0 && Cols(src) == source.Length1;
    assert Cells(scaledTarget) == Resample(tgt, Rows(src), Cols(src));
    frames := [];
    var s := 0;
    while s <= n
      invariant 0 <= s && |frames| == s && s <= FrameCount(n)
      invariant Cells(scaledTarget) == Resample(tgt, Rows(src), Cols(src))
      invariant forall t :: 0 <= t < s ==> fresh(frames[t]) && Cells(frames[t]) == spec[t]
      decreases n - s
    {
      var blended := BlendImages(source, scaledTarget, MorphAlpha(s, n));
      assert SameSize(src, Cells(scaledTarget));
      MorphFrameIs(src, tgt, n, s);
      var frame := blended.value;
      assert Cells(frame) == spec[s];
      frames := frames + [frame];
      s := s + 1;
    }
  }
}
