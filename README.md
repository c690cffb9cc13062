# Point primitives and 26.6 fixed-point conversions of the canvas package

This project models the value-level core of the `canvas` Go package found in
`util.go`:

- the tolerance comparison `equal` (`epsilon = 1e-10`);
- the immutable 2D `Point` and its methods `IsZero`, `Equals`, `Neg`, `Add`,
  `Sub`, `Mul`, `Rot90CW`, `Rot90CCW`, `Dot` and `Interpolate`
  (module `Geometry`, file `geometry.dfy`);
- the conversions between coordinates and 26.6 fixed-point values
  `toI26_6`, `fromI26_6`, `toP26_6` and `fromP26_6`
  (module `FixedPoint`, file `fixed.dfy`).

Everything in the source is a pure function of its receiver and arguments,
so the model is a `datatype Point` with member functions, plain functions
and lemmas. Coordinates are `real`: the model is an exact-arithmetic
abstraction of the float64 code. Laws that hold only over the reals are
marked so in their doc comments: the interval form of `Equal`, the inverse
contract of `Sub`, the scaling contract of `Mul`, associativity of `Add`,
the affine form of `Interpolate`, `InterpolateSwap`, `InterpolateBetween`,
`MulScalesDot`, `DotPolarization` and `EqualsBetweenDiscs`. The swaps and sign flips of
`Neg`, `Rot90CW` and `Rot90CCW`, commutativity of `Add` and symmetry of
`Dot` hold for IEEE doubles too. A 26.6 value is the newtype `Int26_6` over the signed 32-bit
range, and Go's float-to-integer conversion is modelled as truncation
toward zero (`Truncate`).

`Rot90CW` maps (1, 0) to (0, 1) and `Rot90CCW` maps (1, 0) to (0, -1):
the names describe the turn in a frame whose y axis points down.

## Model

| member | source | states |
|---|---|---|
| Geometry.Equal | util.go:11-15 | `equal(a, b)` holds exactly when b lies in the open interval of radius 1e-10 around a |
| Geometry.EqualReflexiveSymmetric | util.go:13-15 | `equal` is reflexive and symmetric |
| Geometry.EqualNotTransitive | util.go:13-15 | `equal` is not transitive: there are a, b, c with a ≈ b, b ≈ c and not a ≈ c |
| Geometry.Point.IsZero | util.go:49-55 | `IsZero` holds exactly when both coordinates are within the tolerance of zero, which is the same as `Equals(Point{0, 0})` |
| Geometry.Point.Equals | util.go:53-55 | every point `Equals` itself |
| Geometry.EqualsReflexiveSymmetric | util.go:53-55 | `Equals` is reflexive and symmetric |
| Geometry.EqualsIffSubIsZero | util.go:49-67 | `p.Equals(q)` holds exactly when `p.Sub(q).IsZero()` |
| Geometry.EqualsBetweenDiscs | util.go:53-55 | points closer than 1e-10 are always `Equals`; `Equals` points are closer than 1e-10 times the square root of 2 |
| Geometry.Point.Neg | util.go:57-63 | `Neg` is the additive inverse: adding it on either side gives the origin |
| Geometry.NegInvolution | util.go:57-59 | negating twice gives back the point |
| Geometry.Point.Add | util.go:61-63 | the origin is the identity of `Add` on both sides; `Add` is what `Neg` and `Sub` are proved inverse to, and `AddCommutativeAssociative` gives its laws |
| Geometry.Point.Sub | util.go:61-67 | subtracting `a` and adding it back gives back the point |
| Geometry.SubIsAddNeg | util.go:57-67 | `p.Sub(a)` equals `p.Add(a.Neg())` |
| Geometry.AddCommutativeAssociative | util.go:61-63 | `Add` is commutative, and associative over the reals |
| Geometry.Point.Mul | util.go:69-71 | the dot product of the point with its copy scaled by f is f times the point's squared length; `MulScalesDot` and `MulUnits` give its other laws |
| Geometry.MulScalesDot | util.go:69-91 | `p.Mul(f).Dot(q)` is `f` times `p.Dot(q)` |
| Geometry.MulUnits | util.go:57-71 | `Mul(1)` is the identity, `Mul(0)` gives the origin, `Mul(-1)` is `Neg` |
| Geometry.Point.Dot | util.go:89-91 | the dot product; its laws are `DotPolarization`, `DotSymmetric` and `Rot90PreservesDot` |
| Geometry.DotPolarization | util.go:61-67 | four times `p.Dot(q)` is the squared length of `p.Add(q)` minus that of `p.Sub(q)` |
| Geometry.DotSymmetric | util.go:89-91 | `p.Dot(q)` equals `q.Dot(p)` |
| Geometry.Point.Rot90CW | util.go:73-91 | the quarter turn is perpendicular to the point (`p.Dot(p.Rot90CW()) == 0`), keeps its squared length, and has cross product with the point equal to its squared length, which fixes the turn as (x, y) to (-y, x) |
| Geometry.Point.Rot90CCW | util.go:77-91 | the opposite quarter turn is perpendicular to the point, keeps its squared length, and has cross product with the point equal to minus its squared length, which fixes the turn as (x, y) to (y, -x) |
| Geometry.Rot90Inverse | util.go:73-79 | `Rot90CW` then `Rot90CCW`, and the reverse, give back the point |
| Geometry.Rot90Twice | util.go:57-79 | two quarter turns in the same direction are `Neg` |
| Geometry.Rot90PreservesDot | util.go:73-91 | both quarter turns preserve the dot product of any two points |
| Geometry.Rot90CWFour | util.go:73-79 | four `Rot90CW` give back the point and three are `Rot90CCW` |
| Geometry.Rot90CWPeriod | util.go:73-75 | n applications of `Rot90CW` equal n mod 4 applications |
| Geometry.Point.Interpolate | util.go:105-107 | `Interpolate(q, 0)` is p, `Interpolate(q, 1)` is q, and in general it is `p + (q - p) * t` |
| Geometry.InterpolateSwap | util.go:105-107 | `p.Interpolate(q, t)` equals `q.Interpolate(p, 1 - t)` |
| Geometry.InterpolateBetween | util.go:105-107 | for t in [0, 1] each coordinate of the result lies between those of p and q |
| FixedPoint.Truncate | util.go:35-37 | Go's float-to-integer conversion: the result has the sign of its argument and a magnitude within 1 below the argument's |
| FixedPoint.TruncateUnique | util.go:35-37 | only one integer meets the contract of `Truncate` |
| FixedPoint.TruncateNegation | util.go:35-37 | truncation is symmetric about zero |
| FixedPoint.TruncateMonotone | util.go:35-37 | truncation is monotone |
| FixedPoint.ToI26_6 | util.go:35-37 | `toI26_6(f)` is f * 64 truncated toward zero, for every f whose truncation fits in 32 bits |
| FixedPoint.FromI26_6 | util.go:35-41 | `toI26_6(fromI26_6(i)) == i` for every 26.6 value i |
| FixedPoint.ToP26_6 | util.go:27-29 | each coordinate of `toP26_6(x, y)`, read in 1/64ths, lies between 0 and the input coordinate and within 1/64 of it; `FromP26_6` proves the round trip back |
| FixedPoint.FromP26_6 | util.go:27-41 | `toP26_6(fromP26_6(f)) == f` for every 26.6 point f |
| FixedPoint.ToFromI26_6Error | util.go:35-41 | `fromI26_6(toI26_6(x))` lies between 0 and x and within 1/64 of x |
| FixedPoint.ToFromI26_6Exact | util.go:35-41 | `fromI26_6(toI26_6(x)) == x` exactly when x is a whole number of 1/64ths |
| FixedPoint.ToI26_6Negation | util.go:35-37 | `toI26_6(-x) == -toI26_6(x)` |
| FixedPoint.ToI26_6Monotone | util.go:35-37 | `toI26_6` is monotone |
| FixedPoint.ToFromP26_6Error | util.go:27-41 | converting a point to 26.6 and back moves each coordinate by less than 1/64 toward zero |

## Left out

- Floating-point behaviour: float64 rounding, NaN and infinities are not modelled; coordinates are exact reals.
- FixedPoint.ToI26_6: requires the truncation of x * 64 to fit in 32 bits, because Go leaves an out-of-range float-to-integer conversion implementation-defined.
- Geometry.Point.Dot: has no `ensures` of its own; a nonlinear contract on it enters every proof that mentions the dot product and pushes some over the solver's resource limit, so its laws are the lemmas `DotPolarization`, `DotSymmetric` and `Rot90PreservesDot`.
- `Point.Rot`, `Point.Length` and `Point.Norm`: they depend on cosine, sine and square root, which have no exact counterpart over the reals here.
- `ftos`: formatting through `strconv.FormatFloat`, a library routine whose behaviour is not part of this model.
- `toF32Vec`: narrowing to float32 is pure rounding, nothing to state over the reals.
- `Rect` and `Rect.ToPath`: `ToPath` delegates to `Rectangle`, which is defined in a file that is not part of this model.
- `example/example.go`: driver code (font loading, file creation, PNG/PDF/EPS encoding through external libraries) with no logic of its own.
- The path model, stroker, scene accumulator and exporters of the wider engine: their source is not part of this model.
