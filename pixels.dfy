/** RGB colour values and the two per-pixel operations of Runigram: luminance and alpha blending. */
module Pixels {

  /** A colour channel. java.awt.Color rejects any channel outside [0, 255]. */
  type Channel = v: int | 0 <= v <= 255

  predicate InRange(v: int) { 0 <= v <= 255 }

  /** An immutable RGB colour; it has no identity beyond its three channels. */
  datatype Color = Color(r: Channel, g: Channel, b: Channel)

  function Min(a: int, b: int): int { if a <= b then a else b }
  function Max(a: int, b: int): int { if a <= b then b else a }

  function MinChannel(p: Color): int { Min(p.r, Min(p.g, p.b)) }
  function MaxChannel(p: Color): int { Max(p.r, Max(p.g, p.b)) }

  /** 1000 * (0.299 r + 0.587 g + 0.114 b), exact in integers. */
  function WeightedSum(p: Color): int { 299 * p.r + 587 * p.g + 114 * p.b }

  /** Grey pixel whose level is the Java truncation of 0.299 r + 0.587 g + 0.114 b. */
  function Luminance(p: Color): (q: Color)
    ensures q.r == q.g == q.b
    ensures 1000 * q.r <= WeightedSum(p) < 1000 * (q.r + 1)
    ensures MinChannel(p) <= q.r <= MaxChannel(p)
  {
    var lum := WeightedSum(p) / 1000;
    Color(lum, lum, lum)
  }

  /** In exact arithmetic a grey pixel is its own luminance, because the three weights add up to one. */
  lemma LuminanceOfGrey(v: Channel)
    ensures Luminance(Color(v, v, v)) == Color(v, v, v)
  {
    assert WeightedSum(Color(v, v, v)) == 1000 * v;
  }

  /** In exact arithmetic the luminance of a luminance is the same grey pixel. */
  lemma LuminanceIdempotent(p: Color)
    ensures Luminance(Luminance(p)) == Luminance(p)
  {
    LuminanceOfGrey(Luminance(p).r);
  }

  /** The blending weight of the first colour. The source passes a double; the model keeps a weight
      in [0, 1] exactly as num / den, and keeps NaN, which is what morph passes for a zero step count. */
  datatype Alpha = Ratio(num: int, den: int) | NotANumber {
    predicate Valid() { Ratio? ==> 0 <= num <= den && 0 < den }
  }

  /** m is the floor of (num * v1 + (den - num) * v2) / den, i.e. of alpha * v1 + (1 - alpha) * v2. */
  predicate IsFloorOfMix(m: int, v1: int, v2: int, num: int, den: int)
  {
    den * m <= num * v1 + (den - num) * v2 < den * (m + 1)
  }

  lemma MulMono(a: int, x: int, y: int)
    requires 0 <= a && x <= y
    ensures a * x <= a * y
  {
    assert a * y - a * x == a * (y - x);
  }

  /** Division by a positive number keeps bounds it is given as multiples. */
  lemma DivBetween(x: int, d: int, lo: int, hi: int)
    requires 0 < d && d * lo <= x <= d * hi
    ensures lo <= x / d <= hi
    ensures d * (x / d) <= x < d * (x / d + 1)
  {
    var k := x / d;
    assert x == d * k + x % d;
    if k < lo {
      MulMono(d, k + 1, lo);
      assert false;
    }
    if k > hi {
      MulMono(d, hi + 1, k);
      assert false;
    }
  }

  /** If m and v both satisfy the floor property of d * v, then m == v. */
  lemma FloorOfMultiple(m: int, v: int, d: int)
    requires 0 < d && d * m <= d * v < d * (m + 1)
    ensures m == v
  {
    if m < v {
      MulMono(d, m + 1, v);
    } else if m > v {
      MulMono(d, v + 1, m);
    }
  }

  /** One blended channel: the Java truncation of alpha * v1 + (1 - alpha) * v2 with alpha = num / den. */
  function Mix(v1: Channel, v2: Channel, num: int, den: int): (m: Channel)
    requires 0 <= num <= den && 0 < den
    ensures IsFloorOfMix(m, v1, v2, num, den)
    ensures Min(v1, v2) <= m <= Max(v1, v2)
  {
    var x := num * v1 + (den - num) * v2;
    MulMono(num, Min(v1, v2), v1);
    MulMono(num, v1, Max(v1, v2));
    MulMono(den - num, Min(v1, v2), v2);
    MulMono(den - num, v2, Max(v1, v2));
    assert den * Min(v1, v2) == num * Min(v1, v2) + (den - num) * Min(v1, v2);
    assert den * Max(v1, v2) == num * Max(v1, v2) + (den - num) * Max(v1, v2);
    DivBetween(x, den, Min(v1, v2), Max(v1, v2));
    x / den
  }

  /** Channels of c lie between those of the blended colours. */
  predicate Between(c: Color, c1: Color, c2: Color)
  {
    Min(c1.r, c2.r) <= c.r <= Max(c1.r, c2.r) &&
    Min(c1.g, c2.g) <= c.g <= Max(c1.g, c2.g) &&
    Min(c1.b, c2.b) <= c.b <= Max(c1.b, c2.b)
  }

  /** The linear combination alpha * c1 + (1 - alpha) * c2, channel by channel, truncated.
      With a NaN weight every product is NaN and Java's (int) cast turns NaN into 0. */
  function Blend(c1: Color, c2: Color, alpha: Alpha): (c: Color)
    requires alpha.Valid()
    ensures alpha.Ratio? ==>
      IsFloorOfMix(c.r, c1.r, c2.r, alpha.num, alpha.den) &&
      IsFloorOfMix(c.g, c1.g, c2.g, alpha.num, alpha.den) &&
      IsFloorOfMix(c.b, c1.b, c2.b, alpha.num, alpha.den)
    ensures alpha.Ratio? ==> Between(c, c1, c2)
    ensures alpha.NotANumber? ==> c == Color(0, 0, 0)
  {
    match alpha
    case NotANumber => Color(0, 0, 0)
    case Ratio(num, den) =>
      Color(Mix(c1.r, c2.r, num, den), Mix(c1.g, c2.g, num, den), Mix(c1.b, c2.b, num, den))
  }

  /** A channel blended with weight num/den where both inputs equal v (or the weight is all on v)
      comes out as v exactly. */
  lemma MixExact(m: int, v: int, v1: int, v2: int, num: int, den: int)
    requires 0 < den && IsFloorOfMix(m, v1, v2, num, den)
    requires num * v1 + (den - num) * v2 == den * v
    ensures m == v
  {
    FloorOfMultiple(m, v, den);
  }

  /** alpha = 1 returns the first colour. */
  lemma BlendFull(c1: Color, c2: Color, d: int)
    requires 0 < d
    ensures Blend(c1, c2, Ratio(d, d)) == c1
  {
    var c := Blend(c1, c2, Ratio(d, d));
    MixExact(c.r, c1.r, c1.r, c2.r, d, d);
    MixExact(c.g, c1.g, c1.g, c2.g, d, d);
    MixExact(c.b, c1.b, c1.b, c2.b, d, d);
  }

  /** alpha = 0 returns the second colour. */
  lemma BlendNone(c1: Color, c2: Color, d: int)
    requires 0 < d
    ensures Blend(c1, c2, Ratio(0, d)) == c2
  {
    var c := Blend(c1, c2, Ratio(0, d));
    MixExact(c.r, c2.r, c1.r, c2.r, 0, d);
    MixExact(c.g, c2.g, c1.g, c2.g, 0, d);
    MixExact(c.b, c2.b, c1.b, c2.b, 0, d);
  }

  /** In exact arithmetic blending a colour with itself returns it, whatever the (numeric) weight. */
  lemma BlendSame(c: Color, alpha: Alpha)
    requires alpha.Valid() && alpha.Ratio?
    ensures Blend(c, c, alpha) == c
  {
    var b := Blend(c, c, alpha);
    var num, den := alpha.num, alpha.den;
    assert num * c.r + (den - num) * c.r == den * c.r;
    assert num * c.g + (den - num) * c.g == den * c.g;
    assert num * c.b + (den - num) * c.b == den * c.b;
    MixExact(b.r, c.r, c.r, c.r, num, den);
    MixExact(b.g, c.g, c.g, c.g, num, den);
    MixExact(b.b, c.b, c.b, c.b, num, den);
  }

  /** Half of (100, 100, 100) and half of black is (50, 50, 50). */
  lemma BlendHalfExample()
    ensures Blend(Color(100, 100, 100), Color(0, 0, 0), Ratio(1, 2)) == Color(50, 50, 50)
  {
    var c := Blend(Color(100, 100, 100), Color(0, 0, 0), Ratio(1, 2));
    MixExact(c.r, 50, 100, 0, 1, 2);
    MixExact(c.g, 50, 100, 0, 1, 2);
    MixExact(c.b, 50, 100, 0, 1, 2);
  }
}
