/** The 2D point primitives of the canvas package (util.go).

    A `Point` is an immutable pair of coordinates; every operation returns a
    new value.  Coordinates are modelled as `real`, an exact-arithmetic
    abstraction of the float64 fields of the source: NaN, infinities and
    rounding are not represented.  Where a law below holds only over the
    reals (and not for IEEE doubles) its doc comment says so.
 */
module Geometry {

  /** Tolerance of the approximate comparisons (`epsilon = 1e-10`). */
  const Epsilon: real := 0.0000000001

  function Abs(a: real): (r: real)
    ensures r >= 0.0 && (r == a || r == -a)
  {
    if a < 0.0 then -a else a
  }

  /** `equal`: a and b differ by strictly less than Epsilon, that is, b lies
      in the open interval of radius Epsilon around a (the interval form
      holds over the reals only: in float64, a - Epsilon may round to a). */
  function Equal(a: real, b: real): (r: bool)
    ensures r <==> a - Epsilon < b < a + Epsilon
  {
    Abs(a - b) < Epsilon
  }

  datatype Point = Point(x: real, y: real) {

    /** Both coordinates are zero up to the tolerance; the same as comparing
        with the origin by `Equals`. */
    function IsZero(): (r: bool)
      ensures r <==> -Epsilon < x < Epsilon && -Epsilon < y < Epsilon
      ensures r <==> Equals(Origin)
    {
      Equal(x, 0.0) && Equal(y, 0.0)
    }

    /** Coordinate-wise approximate equality; every point equals itself. */
    function Equals(q: Point): (r: bool)
      ensures this == q ==> r
    {
      Equal(x, q.x) && Equal(y, q.y)
    }

    /** The additive inverse. */
    function Neg(): (r: Point)
      ensures Add(r) == Origin && r.Add(this) == Origin
    {
      Point(-x, -y)
    }

    /** Coordinate-wise sum; the origin is its identity on both sides. */
    function Add(a: Point): (r: Point)
      ensures a == Origin ==> r == this
      ensures this == Origin ==> r == a
    {
      Point(x + a.x, y + a.y)
    }

    /** Subtraction undoes addition: adding `a` back gives this point (over
        the reals only). */
    function Sub(a: Point): (r: Point)
      ensures r.Add(a) == this
    {
      Point(x - a.x, y - a.y)
    }

    /** Scaling by f: the dot product with this point scales by f (over the
        reals only). */
    function Mul(f: real): (r: Point)
      ensures Dot(r) == f * Dot(this)
    {
      Point(f * x, f * y)
    }

    /** A quarter turn taking (1, 0) to (0, 1): the result is perpendicular
        to this point, has the same length, and its cross product with this
        point equals the squared length, which fixes the direction. */
    function Rot90CW(): (r: Point)
      ensures Dot(r) == 0.0
      ensures r.Dot(r) == Dot(this)
      ensures x * r.y - y * r.x == Dot(this)
    {
      Point(-y, x)
    }

    /** A quarter turn taking (1, 0) to (0, -1): the result is perpendicular
        to this point, has the same length, and its cross product with this
        point equals minus the squared length, which fixes the direction. */
    function Rot90CCW(): (r: Point)
      ensures Dot(r) == 0.0
      ensures r.Dot(r) == Dot(this)
      ensures x * r.y - y * r.x == -Dot(this)
    {
      Point(y, -x)
    }

    /** The dot product. */
    function Dot(q: Point): (r: real)
    {
      x * q.x + y * q.y
    }

    /** Linear interpolation: the point a fraction t of the way from this
        point to q, starting here at t = 0 and reaching q at t = 1.  The
        affine form p + (q - p) * t of the last ensures holds over the reals
        only. */
    function Interpolate(q: Point, t: real): (r: Point)
      ensures t == 0.0 ==> r == this
      ensures t == 1.0 ==> r == q
      ensures r == Add(q.Sub(this).Mul(t))
    {
      Point((1.0 - t) * x + t * q.x, (1.0 - t) * y + t * q.y)
    }
  }

  const Origin: Point := Point(0.0, 0.0)

  /** x * x + y * y, written out independently of `Dot`. */
  function SquaredLength(p: Point): (r: real)
  {
    p.x * p.x + p.y * p.y
  }

  /** The i-fold repetition of the quarter turn `Rot90CW`. */
  function Rot90CWTimes(p: Point, n: nat): (r: Point)
  {
    if n == 0 then p else Rot90CWTimes(p, n - 1).Rot90CW()
  }

  // ---------------------------------------------------------------------------
  // Tolerance-based equality

  /** `equal` is reflexive and symmetric. */
  lemma EqualReflexiveSymmetric(a: real, b: real)
    ensures Equal(a, a)
    ensures Equal(a, b) <==> Equal(b, a)
  {
  }

  /** `equal` is not transitive: two steps of just under Epsilon each add up
      to more than Epsilon. */
  lemma EqualNotTransitive()
    ensures exists a, b, c :: Equal(a, b) && Equal(b, c) && !Equal(a, c)
  {
    var b := Epsilon * 0.75;
    assert Equal(0.0, b) && Equal(b, 2.0 * b) && !Equal(0.0, 2.0 * b);
  }

  /** `Equals` is reflexive and symmetric. */
  lemma EqualsReflexiveSymmetric(p: Point, q: Point)
    ensures p.Equals(p)
    ensures p.Equals(q) <==> q.Equals(p)
  {
  }

  /** Two points are approximately equal exactly when their difference is
      approximately zero. */
  lemma EqualsIffSubIsZero(p: Point, q: Point)
    ensures p.Equals(q) <==> p.Sub(q).IsZero()
  {
  }

  lemma ProductNonNegative(a: real, b: real)
    requires a >= 0.0 && b >= 0.0
    ensures a * b >= 0.0
  {
  }

  lemma ProductPositive(a: real, b: real)
    requires a > 0.0 && b > 0.0
    ensures a * b > 0.0
  {
  }

  lemma DifferenceOfSquares(m: real, e: real)
    ensures (e - m) * (e + m) == e * e - m * m
  {
  }

  lemma SquareOfNegation(a: real)
    ensures (-a) * (-a) == a * a
  {
  }

  /** A number of magnitude below e has a square below e * e. */
  lemma SquareBelow(a: real, e: real)
    requires Abs(a) < e
    ensures a * a < e * e
  {
    if a < 0.0 {
      SquareOfNegation(a);
      SquareMonotone(-a, e);
    } else {
      SquareMonotone(a, e);
    }
  }

  lemma SquareMonotone(m: real, e: real)
    requires 0.0 <= m < e
    ensures m * m < e * e
  {
    ProductPositive(e - m, e + m);
    DifferenceOfSquares(m, e);
  }

  /** The tolerance region of `Equals` lies between the disc of radius
      Epsilon and the disc of radius Epsilon * sqrt(2) around a point:
      within the first the points are always equal, outside the second never
      (over the reals only). */
  lemma EqualsBetweenDiscs(p: Point, q: Point)
    ensures p.Sub(q).Dot(p.Sub(q)) < Epsilon * Epsilon ==> p.Equals(q)
    ensures p.Equals(q) ==> p.Sub(q).Dot(p.Sub(q)) < 2.0 * Epsilon * Epsilon
  {
    var dx, dy := p.x - q.x, p.y - q.y;
    assert p.Sub(q).Dot(p.Sub(q)) == dx * dx + dy * dy;
    if p.Equals(q) {
      SquareBelow(dx, Epsilon);
      SquareBelow(dy, Epsilon);
    }
  }

  // ---------------------------------------------------------------------------
  // Algebraic laws of the arithmetic

  /** Negation is an involution (exact in IEEE arithmetic too). */
  lemma NegInvolution(p: Point)
    ensures p.Neg().Neg() == p
  {
  }

  /** Subtracting is adding the negation (exact in IEEE arithmetic too). */
  lemma SubIsAddNeg(p: Point, a: Point)
    ensures p.Sub(a) == p.Add(a.Neg())
  {
  }

  /** Addition is commutative (also in IEEE arithmetic) and associative
      (over the reals only). */
  lemma AddCommutativeAssociative(p: Point, a: Point, b: Point)
    ensures p.Add(a) == a.Add(p)
    ensures p.Add(a).Add(b) == p.Add(a.Add(b))
  {
  }

  /** The dot product is determined by squared lengths: four times it is
      the squared length of the sum minus that of the difference (the
      polarization identity, over the reals only). */
  lemma DotPolarization(p: Point, q: Point)
    ensures 4.0 * p.Dot(q) == SquaredLength(p.Add(q)) - SquaredLength(p.Sub(q))
  {
  }

  /** The dot product is symmetric. */
  lemma DotSymmetric(p: Point, q: Point)
    ensures p.Dot(q) == q.Dot(p)
  {
  }

  /** Scaling by f scales the dot product with any point by f (over the
      reals only). */
  lemma MulScalesDot(p: Point, q: Point, f: real)
    ensures p.Mul(f).Dot(q) == f * p.Dot(q)
  {
  }

  /** Multiplying by 1 is the identity, by 0 gives the origin, and by -1 the
      negation. */
  lemma MulUnits(p: Point)
    ensures p.Mul(1.0) == p
    ensures p.Mul(0.0) == Origin
    ensures p.Mul(-1.0) == p.Neg()
  {
  }

  // ---------------------------------------------------------------------------
  // Quarter turns

  /** The two quarter turns undo each other. */
  lemma Rot90Inverse(p: Point)
    ensures p.Rot90CW().Rot90CCW() == p
    ensures p.Rot90CCW().Rot90CW() == p
  {
  }

  /** Two quarter turns are a half turn, that is, the negation. */
  lemma Rot90Twice(p: Point)
    ensures p.Rot90CW().Rot90CW() == p.Neg()
    ensures p.Rot90CCW().Rot90CCW() == p.Neg()
  {
  }

  /** Quarter turns preserve the dot product of any two points. */
  lemma Rot90PreservesDot(p: Point, q: Point)
    ensures p.Rot90CW().Dot(q.Rot90CW()) == p.Dot(q)
    ensures p.Rot90CCW().Dot(q.Rot90CCW()) == p.Dot(q)
  {
  }

  /** Four quarter turns give back the original point, and three are the
      opposite quarter turn. */
  lemma Rot90CWFour(p: Point)
    ensures Rot90CWTimes(p, 4) == p
    ensures Rot90CWTimes(p, 3) == p.Rot90CCW()
  {
    assert Rot90CWTimes(p, 1) == p.Rot90CW();
    assert Rot90CWTimes(p, 2) == p.Rot90CW().Rot90CW();
  }

  /** `Rot90CW` has order four: n quarter turns are the same as n mod 4. */
  lemma {:induction false} Rot90CWPeriod(p: Point, n: nat)
    ensures Rot90CWTimes(p, n) == Rot90CWTimes(p, n % 4)
  {
    if n >= 4 {
      var m := n - 4;
      Rot90CWTimesSplit(p, 4, m);
      Rot90CWFour(p);
      assert Rot90CWTimes(p, n) == Rot90CWTimes(p, m);
      Rot90CWPeriod(p, m);
      ShiftByFour(m);
    }
  }

  lemma ShiftByFour(m: nat)
    ensures (m + 4) % 4 == m % 4
  {
  }

  lemma {:induction false} Rot90CWTimesSplit(p: Point, m: nat, k: nat)
    ensures Rot90CWTimes(p, m + k) == Rot90CWTimes(Rot90CWTimes(p, m), k)
  {
    if k > 0 {
      Rot90CWTimesSplit(p, m, k - 1);
    }
  }

  // ---------------------------------------------------------------------------
  // Interpolation

  /** Interpolating from q back to p with 1 - t gives the same point (over
      the reals only). */
  lemma InterpolateSwap(p: Point, q: Point, t: real)
    ensures p.Interpolate(q, t) == q.Interpolate(p, 1.0 - t)
  {
  }

  /** For t in [0, 1] the interpolated point lies in the bounding box of the
      two end points, coordinate by coordinate (over the reals only). */
  lemma InterpolateBetween(p: Point, q: Point, t: real)
    requires 0.0 <= t <= 1.0
    ensures Between(p.x, p.Interpolate(q, t).x, q.x)
    ensures Between(p.y, p.Interpolate(q, t).y, q.y)
  {
    InterpolateCoordinate(p.x, q.x, t);
    InterpolateCoordinate(p.y, q.y, t);
  }

  predicate Between(a: real, v: real, b: real)
  {
    (a <= v <= b) || (b <= v <= a)
  }

  lemma InterpolateCoordinate(a: real, b: real, t: real)
    requires 0.0 <= t <= 1.0
    ensures Between(a, (1.0 - t) * a + t * b, b)
  {
    var v := (1.0 - t) * a + t * b;
    assert v == a + t * (b - a);
    if a <= b {
      ProductNonNegative(t, b - a);
      ProductNonNegative(1.0 - t, b - a);
    } else {
      ProductNonNegative(t, a - b);
      ProductNonNegative(1.0 - t, a - b);
    }
  }
}
