/**
 * The image pyramid: the original image followed by successively
 * down-scaled copies. Only image sizes are modelled; the resize primitive
 * is taken to return exactly the size it is asked for.
 */
module Pyramid {

  /** The shape of an image, height first (rows, then columns). */
  datatype Size = Size(height: nat, width: nat)

  /** The minimum admissible size, given as (width, height) like the source's tuple. */
  datatype MinSize = MinSize(width: nat, height: nat)

  /** The default minimum size of a level. */
  const DefaultMinSize := MinSize(30, 30)

  /** Truncation of a non-negative real to an integer. */
  function Trunc(r: real): (n: nat)
    requires r >= 0.0
    ensures n as real <= r < n as real + 1.0
  {
    r.Floor
  }

  /** The size of the next level: each dimension divided by `scale` and truncated. */
  function Shrink(s: Size, scale: real): (n: Size)
    requires scale > 1.0
    ensures n.height <= s.height && n.width <= s.width
    ensures s.height > 0 ==> n.height < s.height
    ensures s.width > 0 ==> n.width < s.width
  {
    ShrinkDim(s.height, scale);
    ShrinkDim(s.width, scale);
    Size(Trunc(s.height as real / scale), Trunc(s.width as real / scale))
  }

  /** A level is kept when neither dimension is below the minimum. */
  predicate Fits(s: Size, min: MinSize) {
    s.height >= min.height && s.width >= min.width
  }

  /**
   * The pyramid levels strictly below `s`, in order: the next size is
   * computed and, the first time it does not fit, generation stops.
   */
  function Below(s: Size, scale: real, min: MinSize): (r: seq<Size>)
    requires scale > 1.0
    requires min.height > 0 || min.width > 0
    ensures forall i :: 0 <= i < |r| ==> Fits(r[i], min)
    ensures |r| > 0 ==> r[0] == Shrink(s, scale)
    ensures forall i :: 0 < i < |r| ==> r[i] == Shrink(r[i - 1], scale)
    ensures !Fits(Shrink(if |r| == 0 then s else r[|r| - 1], scale), min)
    decreases s.height + s.width
  {
    var n := Shrink(s, scale);
    if !Fits(n, min) then []
    else [n] + Below(n, scale, min)
  }

  /**
   * The pyramid of an image of size `orig`: the original first, then every
   * down-scaled level until the first one that falls below `min`.
   */
  function Levels(orig: Size, scale: real, min: MinSize): (r: seq<Size>)
    requires scale > 1.0
    requires min.height > 0 || min.width > 0
    ensures |r| >= 1 && r[0] == orig
    ensures forall i :: 0 < i < |r| ==> r[i] == Shrink(r[i - 1], scale) && Fits(r[i], min)
    ensures !Fits(Shrink(r[|r| - 1], scale), min)
  {
    [orig] + Below(orig, scale, min)
  }

  /** Dividing a dimension by a scale above one never grows it, and shrinks a positive one. */
  lemma ShrinkDim(d: nat, scale: real)
    requires scale > 1.0
    ensures d as real / scale >= 0.0
    ensures (d as real / scale).Floor <= d
    ensures d > 0 ==> (d as real / scale).Floor < d
  {
    var q := d as real / scale;
    assert q * scale == d as real;
    if d > 0 {
      QuotientBelow(d as real, scale, q);
    }
  }

  /** A positive number divided by a scale above one is positive and smaller. */
  lemma QuotientBelow(a: real, scale: real, q: real)
    requires a > 0.0 && scale > 1.0
    requires q * scale == a
    ensures 0.0 < q < a
  {
    if q <= 0.0 {
      NonPositiveProduct(q, scale);
    }
    if q >= a {
      ScaleUp(a, q, scale);
      ScaleUpStrict(1.0, scale, a);
    }
  }

  lemma NonPositiveProduct(x: real, y: real)
    requires x <= 0.0 && y > 0.0
    ensures x * y <= 0.0
  {
  }

  lemma ScaleUpStrict(x: real, y: real, c: real)
    requires x < y && c > 0.0
    ensures c * x < c * y
  {
    assert c * y - c * x == c * (y - x);
  }

  lemma ScaleUp(x: real, y: real, c: real)
    requires x <= y && c > 0.0
    ensures x * c <= y * c
  {
    assert y * c - x * c == (y - x) * c;
  }

  /** An original that is already below the minimum gives a pyramid of one level. */
  lemma SmallImageSingleLevel(orig: Size, scale: real, min: MinSize)
    requires scale > 1.0
    requires min.height > 0 || min.width > 0
    requires !Fits(orig, min)
    ensures Levels(orig, scale, min) == [orig]
  {
    var n := Shrink(orig, scale);
    assert !Fits(n, min);
    assert Below(orig, scale, min) == [];
  }

  /**
   * With positive minimums, every level is strictly smaller than every
   * earlier one in both dimensions, and all levels have positive size
   * except possibly the original.
   */
  lemma {:induction false} LevelsStrictlyDecrease(orig: Size, scale: real, min: MinSize, i: nat, j: nat)
    requires scale > 1.0
    requires min.height > 0 && min.width > 0
    requires i < j < |Levels(orig, scale, min)|
    ensures Levels(orig, scale, min)[j].height < Levels(orig, scale, min)[i].height
    ensures Levels(orig, scale, min)[j].width < Levels(orig, scale, min)[i].width
    ensures Levels(orig, scale, min)[j].height > 0 && Levels(orig, scale, min)[j].width > 0
    decreases j - i
  {
    var r := Levels(orig, scale, min);
    assert r[j] == Shrink(r[j - 1], scale) && Fits(r[j], min);
    if i < j - 1 {
      LevelsStrictlyDecrease(orig, scale, min, i, j - 1);
    }
  }

  /** The scale factor of level `j`: original height over level height. */
  function Factor(orig: Size, level: Size): (f: real)
    requires level.height > 0
    ensures orig.height > 0 ==> f > 0.0
    ensures orig.height == level.height ==> f == 1.0
  {
    orig.height as real / level.height as real
  }

  /**
   * The scale factor is 1 at the original level and strictly increases
   * from one level to any later one.
   */
  lemma FactorsIncrease(orig: Size, scale: real, min: MinSize, i: nat, j: nat)
    requires scale > 1.0
    requires min.height > 0 && min.width > 0
    requires orig.height > 0
    requires i < j < |Levels(orig, scale, min)|
    ensures Levels(orig, scale, min)[i].height > 0
    ensures Factor(orig, Levels(orig, scale, min)[0]) == 1.0
    ensures Factor(orig, Levels(orig, scale, min)[i]) < Factor(orig, Levels(orig, scale, min)[j])
  {
    var r := Levels(orig, scale, min);
    LevelsStrictlyDecrease(orig, scale, min, i, j);
    if i > 0 {
      LevelsStrictlyDecrease(orig, scale, min, 0, i);
    }
    DivideBySmaller(orig.height as real, r[i].height as real, r[j].height as real);
  }

  /** Dividing a positive numerator by a smaller positive denominator gives a larger quotient. */
  lemma DivideBySmaller(a: real, b: real, c: real)
    requires a > 0.0 && 0.0 < c < b
    ensures a / b < a / c
  {
    var p, q := a / b, a / c;
    assert p * b == a && q * c == a;
    assert p > 0.0;
    assert p * c < p * b;
  }
}
