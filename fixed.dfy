/** The 26.6 fixed-point conversions of the canvas package (util.go).

    A 26.6 value (`fixed.Int26_6`) is a signed 32-bit integer counting
    1/64ths of a unit: 26 integer bits and 6 fractional bits.  Converting a
    coordinate to it multiplies by 64 and discards the fraction, as Go's
    float-to-integer conversion does (truncation toward zero); converting
    back divides by 64.  Coordinates are `real`, as in the Geometry module.
    Multiplying and dividing a float64 by 64 and widening an int32 to a
    float64 are exact, so the model loses nothing the source keeps as long
    as the input is finite and the scaled value fits.
 */
module FixedPoint {
  import opened Geometry

  /** `fixed.Int26_6`: a signed 32-bit count of 1/64ths. */
  newtype Int26_6 = i: int | -0x8000_0000 <= i < 0x8000_0000

  /** `fixed.Point26_6`: a point with 26.6 coordinates. */
  datatype Point26_6 = Point26_6(x: Int26_6, y: Int26_6)

  /** The number of 26.6 units in one coordinate unit. */
  const Scale: real := 64.0

  /** Go's conversion of a float to an integer: the fraction is discarded,
      so the result is the integer nearest to r on the zero side of it. */
  function Truncate(r: real): (n: int)
    ensures Abs(n as real) <= Abs(r) < Abs(n as real) + 1.0
    ensures r >= 0.0 ==> n >= 0
    ensures r <= 0.0 ==> n <= 0
  {
    if r >= 0.0 then r.Floor else -((-r).Floor)
  }

  /** The coordinates whose conversion fits in 32 bits: the truncation of
      f * 64 lies in the int32 range.  Outside it Go's conversion is
      implementation-defined, so no caller may rely on it. */
  predicate Fits(f: real)
  {
    -2147483649.0 < f * Scale < 2147483648.0
  }

  /** `toI26_6`: the number of whole 1/64ths in f, counted toward zero. */
  function ToI26_6(f: real): (r: Int26_6)
    requires Fits(f)
    ensures Abs(r as real) <= Abs(f * Scale) < Abs(r as real) + 1.0
    ensures f >= 0.0 ==> r >= 0
    ensures f <= 0.0 ==> r <= 0
  {
    Truncate(f * Scale) as Int26_6
  }

  /** `fromI26_6`: the coordinate i / 64.  It always fits and converts back
      to i exactly. */
  function FromI26_6(i: Int26_6): (r: real)
    ensures Fits(r) && ToI26_6(r) == i
  {
    TruncateInteger(i as int);
    i as real / Scale
  }

  /** `toP26_6`: both coordinates converted with `ToI26_6`, so each
      coordinate of the result, read as a number of 1/64ths, lies between 0
      and the input coordinate and within 1/64 of it. */
  function ToP26_6(x: real, y: real): (r: Point26_6)
    requires Fits(x) && Fits(y)
    ensures Between(0.0, r.x as real / Scale, x) && Abs(x - r.x as real / Scale) < 1.0 / Scale
    ensures Between(0.0, r.y as real / Scale, y) && Abs(y - r.y as real / Scale) < 1.0 / Scale
  {
    ToFromI26_6Error(x);
    ToFromI26_6Error(y);
    Point26_6(ToI26_6(x), ToI26_6(y))
  }

  /** `fromP26_6`: both coordinates converted with `FromI26_6`; the result
      converts back to f exactly. */
  function FromP26_6(f: Point26_6): (r: Point)
    ensures Fits(r.x) && Fits(r.y) && ToP26_6(r.x, r.y) == f
  {
    Point(FromI26_6(f.x), FromI26_6(f.y))
  }

  // ---------------------------------------------------------------------------
  // Truncation

  lemma TruncateInteger(n: int)
    ensures Truncate(n as real) == n
  {
    if n < 0 {
      assert -(n as real) == (-n) as real;
    }
  }

  /** The contract of `Truncate` determines its result: any integer with
      the same bounds and sign is the truncation. */
  lemma TruncateUnique(r: real, n: int)
    requires Abs(n as real) <= Abs(r) < Abs(n as real) + 1.0
    requires r >= 0.0 ==> n >= 0
    requires r <= 0.0 ==> n <= 0
    ensures n == Truncate(r)
  {
    var t := Truncate(r);
    if r >= 0.0 {
      assert n as real <= r < n as real + 1.0;
      assert t as real <= r < t as real + 1.0;
    } else {
      assert -(n as real) <= -r < -(n as real) + 1.0;
      assert -(t as real) <= -r < -(t as real) + 1.0;
    }
  }

  /** Truncation is symmetric about zero (unlike rounding down). */
  lemma TruncateNegation(r: real)
    ensures Truncate(-r) == -Truncate(r)
  {
    TruncateUnique(-r, -Truncate(r));
  }

  /** Truncation never decreases as its argument grows. */
  lemma TruncateMonotone(r: real, s: real)
    requires r <= s
    ensures Truncate(r) <= Truncate(s)
  {
    if r < 0.0 && s >= 0.0 {
    } else if r >= 0.0 {
      assert r.Floor <= s.Floor;
    } else {
      assert (-s).Floor <= (-r).Floor;
    }
  }

  // ---------------------------------------------------------------------------
  // The coordinate conversions

  /** Converting to 26.6 and back moves a coordinate by less than 1/64,
      toward zero: the result lies between 0 and f. */
  lemma ToFromI26_6Error(f: real)
    requires Fits(f)
    ensures var g := FromI26_6(ToI26_6(f));
      Between(0.0, g, f) && Abs(f - g) < 1.0 / Scale
  {
    var i := ToI26_6(f);
    var g := FromI26_6(i);
    assert g * Scale == i as real;
  }

  /** A coordinate survives the round trip exactly when it is a whole
      number of 1/64ths. */
  lemma ToFromI26_6Exact(f: real)
    requires Fits(f)
    ensures FromI26_6(ToI26_6(f)) == f <==> (f * Scale).Floor as real == f * Scale
  {
    if (f * Scale).Floor as real == f * Scale {
      TruncateInteger((f * Scale).Floor);
    }
  }

  /** `toI26_6` is odd: negating the coordinate negates the result. */
  lemma ToI26_6Negation(f: real)
    requires Fits(f) && Fits(-f)
    ensures ToI26_6(-f) as int == -(ToI26_6(f) as int)
  {
    TruncateNegation(f * Scale);
    assert -f * Scale == -(f * Scale);
  }

  /** `toI26_6` is monotone. */
  lemma ToI26_6Monotone(f: real, g: real)
    requires Fits(f) && Fits(g) && f <= g
    ensures ToI26_6(f) <= ToI26_6(g)
  {
    TruncateMonotone(f * Scale, g * Scale);
  }

  /** Converting a point to 26.6 and back moves each coordinate by less
      than 1/64 toward zero. */
  lemma ToFromP26_6Error(x: real, y: real)
    requires Fits(x) && Fits(y)
    ensures var q := FromP26_6(ToP26_6(x, y));
      && Between(0.0, q.x, x) && Abs(x - q.x) < 1.0 / Scale
      && Between(0.0, q.y, y) && Abs(y - q.y) < 1.0 / Scale
  {
    ToFromI26_6Error(x);
    ToFromI26_6Error(y);
  }
}
