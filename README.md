# Penpot 2D geometry value layer in Dafny

This project models the value layer behind penpot's shape geometry:

- the scalar helpers of `packages/common/src/math.ts`;
- the immutable `Point` of `packages/common/src/geom/point.ts`;
- the immutable 3×2 affine `Matrix` of `packages/common/src/geom/matrix.ts`, that is

      [a c e]
      [b d f]
      [0 0 1]

All three files are pure. Each field is read-only, and every operation returns a new value. The model is therefore made of datatypes, functions and lemmas over Dafny's exact `real`.

The modules follow the source files:

- `Wrappers` holds `Option` (an operand that may be `undefined`/`null`) and `Result` (a value, or the error the source throws).
- `JsValues` holds `JsValue`, the untyped JavaScript value the point constructor, `isPointLike` and `decodePoint` inspect at run time. These are the checks of `utils/type.ts`.
- `ScalarMath` models `math.ts`.
- `Points` models `point.ts`.
- `Matrices` models `matrix.ts`. It also holds the three point operations that apply a matrix (`transform`, `transformMut` and `matrixToPoint`), because point.ts and matrix.ts depend on each other.

Conventions of the model:

- Coordinates are exact reals, not IEEE doubles.
- `Math.round` is JavaScript's: the integer nearest to `v`, with a half rounded up, i.e. `Floor(v + 1/2)`.
- `Matrix.rotate` and `Matrix.skew` use the angle only through `cos`/`sin`/`tan`. The model takes those values as parameters (`RotateCS(c, s, point?)` and `SkewT(tanX, tanY, point?)`).
- The instance methods of `Point` and `Matrix` become functions whose first argument is the receiver.

The main results:

- **Composition order.** `multiply(m1, m2, ...others)` transforms a point as the operands do one after the other, the last operand first.
- **Neutral and absent operands.** An absent operand counts as the identity, and the identity is neutral on both sides.
- **Folding.** Extra operands fold left.
- **Associativity.** Matrix products associate.
- **Inverse.** `inverse` is `null` exactly when the determinant is almost zero; otherwise it is a two-sided inverse.
- **Pivot fixed points.** Every pivot-centred factory keeps its pivot fixed. Scaling and rotating about a pivot equal the translate–transform–translate-back product.
- **Round trip.** `fromObject(toObject(m)) = m`.
- **Point constructor.** It tests its arguments in the code's order (no argument, two safe numbers, a point-like object, one safe number) and throws otherwise. In the source every operation builds its result with `new Point`; the model sends only `divide`, `inverse` and `roundStep` through `NewPoint`, because over exact reals they are the only operations whose coordinates can be non-finite (a division by zero), and for them the constructor's outcome is modelled.
- **Rounding.** It stays within half a step or half a unit of the last decimal.

Two places where the code does not do what it evidently means are listed under "## Findings". For each there is a member modelling the code as written, with the input that shows the problem, and a corrected member that the rest of the model uses.

## Model

| member | source | states |
|---|---|---|
| ScalarMath.Abs | packages/common/src/math.ts:36-38 | `abs(v)` is non-negative and equals `v` or `-v` |
| ScalarMath.Min | packages/common/src/math.ts:293-295 | two-argument `min` is at most both arguments and equals one of them |
| ScalarMath.Max | packages/common/src/math.ts:301-303 | two-argument `max` is at least both arguments and equals one of them |
| ScalarMath.JsRound | packages/common/src/math.ts:142 | `Math.round(v)` is the integer `r` with `r - 1/2 <= v < r + 1/2` |
| ScalarMath.JsRoundIsNearest | packages/common/src/math.ts:142 | no integer is closer to `v` than `Math.round(v)` |
| ScalarMath.Round | packages/common/src/math.ts:138-143 | without a step: an integer within 1/2 of `v`; with a step: `r / step` is `round(v / step)`, so `r` is an integer multiple of the step, and `r` lies within half a step of `v` |
| ScalarMath.RoundWithStep | packages/common/src/math.ts:139-141 | with a step, `round(v, step)` is `round(v / step) * step` |
| ScalarMath.RoundHalfStepExample | packages/common/src/math.ts:133-134 | the documented example `round(13.4, 0.5) = 13.5` |
| ScalarMath.RoundThirdStepExample | packages/common/src/math.ts:133-134 | `round(13.4, 0.3)` is 13.5 (= 45 · 0.3), the multiple of 0.3 nearest to 13.4, where the comment says 13.3 |
| ScalarMath.Pow10 | packages/common/src/math.ts:161 | `10 ** n` is positive for every integer `n` |
| ScalarMath.Pow10Step | packages/common/src/math.ts:161 | `10 ** (n + 1) = 10 · 10 ** n` for every integer `n`, negative exponents included |
| ScalarMath.RoundToUnit | packages/common/src/math.ts:161-162 | `round(v * d) / d` times `d` is the integer nearest to `v * d`, and lies within `1/(2d)` of `v` |
| ScalarMath.Precision | packages/common/src/math.ts:157-163 | a non-integer `n` returns `v` unchanged; an integer `n` gives `round(v * 10^n) / 10^n`, within half a unit of the `n`-th decimal of `v` |
| ScalarMath.Radians | packages/common/src/math.ts:177-179 | `radians(deg) * 180 = deg * PI` |
| ScalarMath.Degrees | packages/common/src/math.ts:185-187 | `degrees(rad) * PI = rad * 180` |
| ScalarMath.DegreesRadiansInverse | packages/common/src/math.ts:177-187 | `degrees(radians(x)) = x` and `radians(degrees(x)) = x` |
| ScalarMath.Clamp | packages/common/src/math.ts:221-229 | `from` below the range (tested first), `to` above it, `num` inside; in `[from, to]` whenever `from <= to` |
| ScalarMath.AlmostZeroInterval | packages/common/src/math.ts:235-237 | `almostZero(n)` holds exactly on the open interval (-1e-4, 1e-4) |
| ScalarMath.AlmostZero | packages/common/src/math.ts:235-237 | `almostZero(n)` is `|n| < 1e-4`; `AlmostZeroInterval` states it as the open interval (-1e-4, 1e-4) |
| ScalarMath.RoundToZero | packages/common/src/math.ts:243-248 | 0 exactly for almost-zero values and `num` otherwise, so never more than 1e-4 away |
| ScalarMath.RoundToZeroIdempotent | packages/common/src/math.ts:243-248 | applying `roundToZero` twice is applying it once |
| ScalarMath.Close | packages/common/src/math.ts:254-263 | holds iff `|a - b| <= p`, with `p = 0.001` when no precision is given |
| ScalarMath.CloseSymmetric | packages/common/src/math.ts:260-263 | `close` is symmetric in its two numbers |
| ScalarMath.Lerp | packages/common/src/math.ts:269-271 | `v0` at `t = 0`, `v1` at `t = 1`, and `t` of the way from `v0` to `v1` in general |
| ScalarMath.MaxAbs | packages/common/src/math.ts:277-279 | at least `|a|` and `|b|`, and equal to one of them |
| ScalarMath.Sign | packages/common/src/math.ts:285-287 | always -1 or 1, and -1 exactly for negative numbers (zero gives 1) |
| ScalarMath.SignTimesAbs | packages/common/src/math.ts:285-287 | `sign(n) * |n| = n` |
| Points.ToJson | packages/common/src/geom/point.ts:594-596 | `toJSON` gives a point-like object with exactly the keys `x`, `y`, holding the coordinates |
| Points.IsPointLike | packages/common/src/geom/point.ts:112-118 | an object whose `x` and `y` are safe numbers; `IsValidPointAttrs` and `DecodePoint` state what it accepts |
| Points.NewPoint | packages/common/src/geom/point.ts:25-41 | no argument gives (0, 0); then two safe numbers give (x, y); then a point-like object is copied; then one safe number `n` gives (n, n); exactly the other inputs throw "Invalid parameters to create Point" |
| Points.NewPointCopies | packages/common/src/geom/point.ts:32-33 | `new Point(p)` copies `p` whatever the second argument is |
| Points.NewPointRejects | packages/common/src/geom/point.ts:37-40 | `null`, NaN/Infinity, strings and objects without numeric `x` and `y` are refused |
| Points.DecodePoint | packages/common/src/geom/point.ts:73-87 | a value decodes to a point iff it is point-like (an object with safe-number `x` and `y`), and then to those coordinates; every other value that is not a non-empty string is returned unchanged |
| Points.IsValidPointAttrs | packages/common/src/geom/point.ts:53-61 | `isValidPointAttrs` holds exactly when `isPointLike` does |
| Points.DecodeToJson | packages/common/src/geom/point.ts:73-87 | decoding `toJSON(p)` gives `p` back |
| Points.Close | packages/common/src/geom/point.ts:123-127 | both coordinates differ by strictly less than `epsilon`, 1e-10 by default |
| Points.CloseSymmetric | packages/common/src/geom/point.ts:123-127 | `close` is symmetric |
| Points.CloseReflexive | packages/common/src/geom/point.ts:123-127 | every point is close to itself |
| Points.Add | packages/common/src/geom/point.ts:143-148 | succeeds iff the argument is point-like, with element-wise sums; otherwise throws "arguments should be point instance" |
| Points.Subtract | packages/common/src/geom/point.ts:153-158 | succeeds iff the argument is point-like, with element-wise differences; otherwise throws its error |
| Points.Multiply | packages/common/src/geom/point.ts:163-168 | succeeds iff the argument is point-like, with element-wise products; otherwise throws its error |
| Points.Divide | packages/common/src/geom/point.ts:173-178 | a non-point-like argument throws "arguments should be pointer instance"; for non-zero divisors the quotients, whose products with the divisor give back the coordinates; a zero x divisor throws the constructor's error; a zero y divisor alone yields (x/q.x, x/q.x) |
| Points.AddSubtractCancel | packages/common/src/geom/point.ts:143-158 | `p.add(q).subtract(q) = p` |
| Points.AddCommutes | packages/common/src/geom/point.ts:143-148 | `p.add(q) = q.add(p)` |
| Points.MultiplyDivideCancel | packages/common/src/geom/point.ts:163-178 | `p.multiply(q).divide(q) = p` for `q` without zero coordinates |
| Points.Min | packages/common/src/geom/point.ts:187-198 | both absent give absent; one absent gives the other; otherwise each coordinate is at most both inputs' and equals one of them |
| Points.Max | packages/common/src/geom/point.ts:207-219 | the same with "at least" |
| Points.MinMaxExamples | packages/common/src/geom/point.ts:187-219 | the cases with (1, 2), (2, 5) and an absent operand |
| Points.Inverse | packages/common/src/geom/point.ts:225-227 | for non-zero coordinates, each coordinate times its inverse is 1; a zero x throws the constructor's error; a zero y alone yields (1/x, 1/x) |
| Points.InverseInvolutive | packages/common/src/geom/point.ts:225-227 | for non-zero coordinates, inverting twice gives the point back |
| Points.ZeroDivisorExamples | packages/common/src/geom/point.ts:173-227 | `(1, 2).divide((0, 1))` and `(0, 1).inverse()` throw; `(1, 2).divide((1, 0))` is (1, 1) and `(2, 0).inverse()` is (0.5, 0.5) |
| Points.Negate | packages/common/src/geom/point.ts:232-234 | `p + negate(p)` is the origin |
| Points.NegateInvolutive | packages/common/src/geom/point.ts:232-234 | negating twice gives the point back |
| Points.DistanceVector | packages/common/src/geom/point.ts:258-265 | non-negative components, each the difference in one order or the other, and the origin exactly for equal points |
| Points.DistanceVectorSymmetric | packages/common/src/geom/point.ts:258-265 | the distance vector does not depend on the order |
| Points.DistanceVectorIsAbsDifference | packages/common/src/geom/point.ts:258-265 | `distanceVector(q)` is `abs(p - q)`, and `abs` is idempotent |
| Points.AngleSign | packages/common/src/geom/point.ts:315-317 | always -1 or 1, and -1 exactly when `y · p.x > x · p.y` (negative cross product) |
| Points.AngleSignAntisymmetric | packages/common/src/geom/point.ts:315-317 | swapping the vectors flips the sign unless they are collinear, when both give 1 |
| Points.AngleSignPerpendicular | packages/common/src/geom/point.ts:315-317 | the perpendicular never lies clockwise of its vector |
| Points.AngleSignExamples | packages/common/src/geom/point.ts:315-317 | (1, 3) against (1, 5) gives 1, (-11, -3) against (1, 5) gives -1 |
| Points.Quadrant | packages/common/src/geom/point.ts:341-347 | in 1..4; 1 or 2 iff `y >= 0`, 1 or 4 iff `x >= 0`, so zero counts as non-negative |
| Points.QuadrantOfNegate | packages/common/src/geom/point.ts:341-347 | off the axes, negation moves a point to the opposite quadrant |
| Points.Round | packages/common/src/geom/point.ts:352-361 | each coordinate is the scalar `precision(c, decimals)`, i.e. rounded to `decimals` decimal digits |
| Points.RoundStep | packages/common/src/geom/point.ts:366-371 | for a non-zero step, each coordinate is the scalar `round(c, step)` and lies within half a step of the original; a zero step makes both coordinates NaN and throws the constructor's error |
| Points.ToVec | packages/common/src/geom/point.ts:405-411 | the vector that carries `p1` to `p2`, equal to `p2.subtract(p1)` |
| Points.ScaleIsMultiply | packages/common/src/geom/point.ts:416-418 | `scale(k)` is `multiply((k, k))` |
| Points.Scale | packages/common/src/geom/point.ts:416-418 | `scale(k)` multiplies both coordinates by `k`; `ScaleIsMultiply` and `ScaleCompose` state it |
| Points.ScaleCompose | packages/common/src/geom/point.ts:416-418 | scaling by `a` then `b` is scaling by `a · b`, and scaling by 1 is neutral |
| Points.DotProperties | packages/common/src/geom/point.ts:423-425 | `dot` is symmetric, linear under `scale`, and non-negative on a point with itself |
| Points.Dot | packages/common/src/geom/point.ts:423-425 | `x · p.x + y · p.y`; `DotProperties` and `Perpendicular` state its symmetry, linearity and positivity |
| Points.Perpendicular | packages/common/src/geom/point.ts:441-443 | orthogonal to the point, of the same squared length, and counter-clockwise of it |
| Points.PerpendicularTwiceNegates | packages/common/src/geom/point.ts:441-443 | two quarter turns negate the point |
| Points.CenterFoldAddsMean | packages/common/src/geom/point.ts:463-467 | the `reduce` of `acc.add(p.divide(n))` adds `sum / n` to the accumulator |
| Points.CenterFold | packages/common/src/geom/point.ts:463-467 | the left fold of `acc.add(p.divide(k))`; `CenterFoldAddsMean` states that it adds `sum / n` |
| Points.CenterFoldStep | packages/common/src/geom/point.ts:463-467 | `new Point(n)` is (n, n), and each fold step is the `Ok` value of `acc.add(p.divide(k))` |
| Points.CenterPoints | packages/common/src/geom/point.ts:457-468 | the origin for no points, otherwise the mean `sum / n` |
| Points.CenterPointsSingleton | packages/common/src/geom/point.ts:457-468 | a single point is its own center |
| Points.CenterPointsExample | packages/common/src/geom/point.ts:457-468 | the four-point case giving (7.875, 13.425) |
| Points.ZeroPredicates | packages/common/src/geom/point.ts:509-518 | `isZero` iff the origin, `isZero` implies `almostZero`, and `almostZero` iff both coordinates lie in (-1e-4, 1e-4) |
| Points.AlmostZero | packages/common/src/geom/point.ts:509-511 | both coordinates almost zero; `ZeroPredicates` states it as both lying in (-1e-4, 1e-4) |
| Points.IsZero | packages/common/src/geom/point.ts:516-518 | both coordinates exactly 0; `ZeroPredicates` states it holds exactly at the origin |
| Points.Lerp | packages/common/src/geom/point.ts:523-527 | coordinate-wise the scalar `lerp`: `p` at 0 and `p2` at 1 |
| Points.LerpExtrapolates | packages/common/src/geom/point.ts:523-527 | at `t = 2` the result lies as far beyond `p2` as `p2` is from `p` |
| Points.NoZeros | packages/common/src/geom/point.ts:565-570 | a coordinate below 1e-10 in magnitude becomes 0.001, the others are kept, so no coordinate of the result is that small |
| Points.NoZerosIdempotent | packages/common/src/geom/point.ts:565-570 | applying `noZeros` twice is applying it once |
| Points.Abs | packages/common/src/geom/point.ts:583-585 | non-negative coordinates equal to `c` or `-c` |
| Matrices.Identity | packages/common/src/geom/matrix.ts:35-37 | `identity()` is what the constructor builds with no arguments |
| Matrices.Construct | packages/common/src/geom/matrix.ts:14-21 | `new Matrix(a?, …, f?)` with defaults 1, 0, 0, 1, 0, 0; `ConstructKeepsArguments` and `Identity` state it |
| Matrices.ConstructKeepsArguments | packages/common/src/geom/matrix.ts:14-21 | given arguments are stored as they are |
| Matrices.MatrixFactory | packages/common/src/geom/matrix.ts:423-428 | `matrix()` is the identity when `a` is missing, otherwise the constructor |
| Matrices.MatrixFactoryExamples | packages/common/src/geom/matrix.ts:423-428 | `matrix(undefined, 2)` ignores the 2, while `matrix(1, 2)` keeps it |
| Matrices.Transform | packages/common/src/geom/point.ts:376-383 | without a matrix a copy of the point, otherwise the image under `transformMut` |
| Matrices.MatrixToPoint | packages/common/src/geom/point.ts:397-399 | (e, f) is the image of the origin |
| Matrices.TransformMut | packages/common/src/geom/point.ts:388-392 | the affine image `(x·a + y·c + e, x·b + y·d + f)`; `TransformIdentity`, `MulApplies` and `TranslateMoves` state how it composes |
| Matrices.TransformIdentity | packages/common/src/geom/point.ts:376-392 | the identity moves no point |
| Matrices.MulApplies | packages/common/src/geom/matrix.ts:119-126 | transforming by the product `m1 · m2` is transforming by `m2` and then by `m1` |
| Matrices.Mul | packages/common/src/geom/matrix.ts:119-126 | the product of two present operands; `MulApplies`, `MulIdentity` and `MulAssociative` state its meaning |
| Matrices.MulIdentity | packages/common/src/geom/matrix.ts:119-126 | the identity is a left and a right unit of the product |
| Matrices.MulAssociative | packages/common/src/geom/matrix.ts:119-126 | the product is associative |
| Matrices.ComposeApplies | packages/common/src/geom/matrix.ts:119-130 | a chain's product transforms a point as the chain does, last matrix first |
| Matrices.FoldMulIsCompose | packages/common/src/geom/matrix.ts:128-130 | folding the rest operands into an accumulator multiplies it by their product |
| Matrices.Multiply | packages/common/src/geom/matrix.ts:110-131 | `multiply(m1, m2, ...others)` is the product of `m1`, `m2` (an absent one counting as the identity) and the rest, left to right |
| Matrices.MultiplyApplies | packages/common/src/geom/matrix.ts:110-131 | the result transforms a point as the operands do one after the other, the last first |
| Matrices.MultiplySplits | packages/common/src/geom/matrix.ts:110-131 | the result is the first two operands' product times the product of the rest |
| Matrices.MultiplyPair | packages/common/src/geom/matrix.ts:110-131 | with no rest operands, the product of the two operands |
| Matrices.MultiplyAbsentOperands | packages/common/src/geom/matrix.ts:112-117 | two absent operands give `identity()`, one absent gives the other, and the identity is neutral on either side |
| Matrices.LeftNeutral | packages/common/src/geom/matrix.ts:112-117 | an absent or identity left operand gives the right one |
| Matrices.RightNeutral | packages/common/src/geom/matrix.ts:112-117 | an absent or identity right operand gives the left one |
| Matrices.MultiplyFoldsLeft | packages/common/src/geom/matrix.ts:128-130 | `multiply(m1, m2, m3, ...rest) = multiply(multiply(m1, m2), m3, ...rest)` |
| Matrices.MultiplyBy | packages/common/src/geom/matrix.ts:137-139 | the instance `m.multiply(other)` is the product `m · other` |
| Matrices.MultiplyAsWritten | packages/common/src/geom/matrix.ts:110-131 | the code as written agrees with `Multiply` when both operands are present or there are no rest operands |
| Matrices.MultiplyAsWrittenDropsOthers | packages/common/src/geom/matrix.ts:112-117 | as written, `multiply(null, identity(), t)` is the identity where `t` is meant |
| Matrices.MultiplyAsWrittenCounterexample | packages/common/src/geom/matrix.ts:112-117 | with `t = translate(1, 0)` the written result differs from the intended one |
| Matrices.AddTranslate | packages/common/src/geom/matrix.ts:147-152 | linear part (1, 0, 0, 1), with the offsets of all operands summed |
| Matrices.AddTranslateIsMultiply | packages/common/src/geom/matrix.ts:147-152 | on pure translations `addTranslate` is `multiply` |
| Matrices.Translate | packages/common/src/geom/matrix.ts:158-163 | a pure translation that takes the origin to `p` |
| Matrices.TranslateNeg | packages/common/src/geom/matrix.ts:169-174 | a pure translation that takes `p` to the origin |
| Matrices.TranslateXY | packages/common/src/geom/matrix.ts:158-163 | the numeric `translate(x, y?)` is `translate({x, y})`, with `y` taken as 0 when omitted |
| Matrices.TranslateNegXY | packages/common/src/geom/matrix.ts:169-174 | the numeric `translateNeg(x, y)` is `translateNeg({x, y})`, and it undoes `translate(x, y)` |
| Matrices.TranslateMoves | packages/common/src/geom/matrix.ts:158-174 | every point moves by `p` under `translate(p)` and by `-p` under `translateNeg(p)` |
| Matrices.TranslateThenNeg | packages/common/src/geom/matrix.ts:158-174 | `multiply(translate(p), translateNeg(p))` is the identity in either order, and `translateNeg(p) = translate(-p)` |
| Matrices.Scale | packages/common/src/geom/matrix.ts:180-197 | linear part diag(sx, sy); no offset about the origin; about a center, the center is fixed |
| Matrices.ScaleMoves | packages/common/src/geom/matrix.ts:180-197 | each point's offset from the center is scaled by (sx, sy) |
| Matrices.ScaleAboutCenter | packages/common/src/geom/matrix.ts:190-194 | scaling about a center is translate, scale, translate back |
| Matrices.RotateCS | packages/common/src/geom/matrix.ts:203-219 | linear part (c, s, -s, c); no offset about the origin; about a point, the point is fixed |
| Matrices.RotateAboutPoint | packages/common/src/geom/matrix.ts:208-216 | rotating about a point is translate, rotate, translate back |
| Matrices.SkewT | packages/common/src/geom/matrix.ts:225-239 | the shear (1, tanY, tanX, 1, 0, 0); with a point, `translate(p) · shear · translate(-p)`, which keeps `p` fixed |
| Matrices.RotateBy | packages/common/src/geom/matrix.ts:245-247 | the instance `rotate` is `multiply(this, rotate(...))` |
| Matrices.ScaleBy | packages/common/src/geom/matrix.ts:253-255 | the instance `scale` is `multiply(this, scale(...))` |
| Matrices.TranslateBy | packages/common/src/geom/matrix.ts:261-263 | the instance `translate` is `multiply(this, translate(...))` |
| Matrices.SkewBy | packages/common/src/geom/matrix.ts:269-271 | the instance `skew` is `multiply(this, skew(...))` |
| Matrices.InstanceFormsApply | packages/common/src/geom/matrix.ts:245-263 | each of the instance `translate`, `rotate`, `scale` and `skew` applies its factory's matrix first and then the receiver |
| Matrices.TranslateByAdds | packages/common/src/geom/matrix.ts:147-263 | composing translations adds their offsets, through `translate` and through `addTranslate` |
| Matrices.Subtract | packages/common/src/geom/matrix.ts:95-104 | the component-wise difference, which is all zeros exactly for equal matrices, and `m2` plus the difference gives back `m1` |
| Matrices.IsUnit | packages/common/src/geom/matrix.ts:43-52 | holds iff every component is within 0.001 of the identity's |
| Matrices.Close | packages/common/src/geom/matrix.ts:58-69 | with an absent operand, whether both are absent; otherwise every component within 0.001 |
| Matrices.CloseProperties | packages/common/src/geom/matrix.ts:43-69 | `close` is reflexive and symmetric, and `isUnit(m)` iff `close(m, identity())` |
| Matrices.Equal | packages/common/src/geom/matrix.ts:277-287 | holds iff every component is within `threshold` |
| Matrices.EqualProperties | packages/common/src/geom/matrix.ts:277-287 | reflexive exactly for non-negative thresholds, symmetric, and with threshold 0 exact equality |
| Matrices.DeterminantProperties | packages/common/src/geom/matrix.ts:293-295 | the determinant is multiplicative, and 1 for the identity and for translations |
| Matrices.Determinant | packages/common/src/geom/matrix.ts:293-295 | `a · d − c · b`; `DeterminantProperties` states it is multiplicative and 1 on the identity and translations |
| Matrices.Inverse | packages/common/src/geom/matrix.ts:301-315 | `null` iff the determinant is almost zero; otherwise `m · inverse(m)` and `inverse(m) · m` are both the identity |
| Matrices.InverseLawRight | packages/common/src/geom/matrix.ts:306-314 | the adjugate over the determinant is a right inverse |
| Matrices.InverseLawLeft | packages/common/src/geom/matrix.ts:306-314 | the adjugate over the determinant is a left inverse |
| Matrices.InverseOfTranslate | packages/common/src/geom/matrix.ts:301-315 | the inverse of `translate(p)` is `translateNeg(p)` |
| Matrices.InverseAsWritten | packages/common/src/geom/matrix.ts:301-315 | the code as written agrees with `Inverse` on `null` and on the linear part, and has the opposite translation part |
| Matrices.AsWrittenOver | packages/common/src/geom/matrix.ts:307-314 | the six quotients as written are the adjugate over the determinant with the translation part negated |
| Matrices.InverseAsWrittenOnTranslations | packages/common/src/geom/matrix.ts:311-312 | as written, `translate(p).inverse()` is `translate(p)` itself, which does not undo `translate(p)` when `p` is not the origin |
| Matrices.Round | packages/common/src/geom/matrix.ts:321-330 | every component times 10^4 is the integer nearest to the original component times 10^4 |
| Matrices.RoundIdentity | packages/common/src/geom/matrix.ts:321-330 | rounding leaves the identity unchanged |
| Matrices.TransformPoint | packages/common/src/geom/matrix.ts:336-338 | `transformPoint(p)` is the affine image of `p` |
| Matrices.TransformPointCenter | packages/common/src/geom/matrix.ts:344-355 | without a center the point itself; with a center `c`, `m` applied to `p - c` with `c` added back |
| Matrices.CenteredTransform | packages/common/src/geom/matrix.ts:349-354 | the product `translate(c) · m · translate(-c)` applies `m` to `p - c` and adds `c` |
| Matrices.TransformPointCenterFixesCenter | packages/common/src/geom/matrix.ts:344-355 | a matrix without a translation part keeps the center in place |
| Matrices.IsMove | packages/common/src/geom/matrix.ts:361-368 | holds iff `a - 1`, `b`, `c` and `d - 1` all lie in (-1e-4, 1e-4) |
| Matrices.IsMoveExamples | packages/common/src/geom/matrix.ts:361-368 | every translation is a move, and so are the identity and a rotation by zero about any point; a scaling by 2 is not |
| Matrices.ToObject | packages/common/src/geom/matrix.ts:382-391 | a record with exactly the keys `a` … `f`, each holding that component |
| Matrices.FromObject | packages/common/src/geom/matrix.ts:417-419 | each component is the record's field of that name, or the constructor's default (1 for `a` and `d`, 0 otherwise) when the field is missing |
| Matrices.ObjectRoundTrip | packages/common/src/geom/matrix.ts:382-419 | `fromObject(m.toObject()) = m`, and an empty record gives the identity |

## Left out

- Trigonometry, square roots and logarithms are not modelled, nor is every operation built on them. On the `math.ts` side: `sin`, `cos`, `acos`, `tan`, `atan2`, `sqrt`, `cubicroot`, `hypot`, `distance`, `log10`, and `pow` with fractional exponents. On the `Point` side: `length`, `distance`, `unit`, `normalLeft`/`normalRight`, `project`, `angle`, `angleWithOther`, `signedAngleWithOther`, `updateAngle`, `angleToPoint`, `rotate`, `scaleFrom`, `resize` and `pointLineDistance`. Exact reals have no transcendental functions.
- Matrices.RotateCS, Matrices.SkewT: take `cos`/`sin` and `tan` of the angles as parameters instead of converting degrees and calling the trigonometric functions.
- NaN and Infinity are not modelled as numbers, because the model uses exact reals; `isNaN`, `isFinite` and `finite` are left out with them, and so is overflow of sums and products to ±Infinity. Where a division by zero reaches the point constructor (`divide`, `inverse`, `roundStep`), the non-finite quotient is the `NonFinite` JavaScript value, and the constructor's outcome is modelled.
- ScalarMath.Round: requires a non-zero step. With step 0 the source computes `Math.round(v / 0) * 0`, which is NaN.
- String formatting and parsing are not modelled: `toFixed`, `formatPrecision`, `toString`, `toMatrixString`, `fromString` and `pointToStr`. They rest on JavaScript number printing and regular expressions.
- Points.DecodePoint: requires a value that is not a non-empty string. The `"x,y"` branch splits the string and calls `parseFloat`, which is not modelled.
- The `instanceof` checks `isPoint` and `isMatrix` are not modelled, nor `isValidPoint` and `pointToJson`, which rest on `isPoint`, nor the reference-identity check `isBase`. Points and matrices are values here, so the error `distanceVector` throws for an argument that is not a `Point` instance cannot arise.
- Matrices.TranslateNegXY: takes both numbers. `translateNeg(x)` with `y` omitted stores `-undefined`, which is NaN, as `f`.
- ScalarMath.Min, ScalarMath.Max: model the two-argument case of the variadic `min`/`max`.
- Points.Round: takes `decimals` as an integer, so the `TypeError` for a non-number argument does not arise. Fractional `decimals` are excluded as well: the source accepts them and divides by the fractional power `10 ** decimals`, which exact reals do not model.
- Points.DotProperties: does not state that `dot(p, p) = 0` only for the origin.
- Matrices.Round: states only the rounding equation per component, not the half-unit error bound that `ScalarMath.Precision` states per component.
- The one-line wrappers `neg`, `sq`, `floor` and `ceil` of `math.ts` (lines 84-151) are not modelled: no operation of `Point` or `Matrix` calls them, and each is a single JavaScript operator or `Math` call.
- `packages/common/src/utils/type.ts` is not part of this model beyond the predicates in `JsValues`.

## Findings

| source | as written | input that shows it | evidently intended | confidence | as-written member | corrected member |
|---|---|---|---|---|---|---|
| packages/common/src/geom/matrix.ts:311-312 | the translation part of `inverse` is `e = -(c·f − d·e)/det`, `f = -(b·e − a·f)/det`, one negation too many | `translate(1, 0).inverse()` returns `translate(1, 0)`, and `translate(1, 0) · translate(1, 0)` is `translate(2, 0)`, not the identity | `e = (c·f − d·e)/det`, `f = (b·e − a·f)/det`, so that `m · inverse(m) = inverse(m) · m = identity` | high (derived by proof, not executed) | Matrices.InverseAsWritten, Matrices.InverseAsWrittenOnTranslations | Matrices.Inverse |
| packages/common/src/geom/matrix.ts:112-117 | when `m1` or `m2` is `null`, `multiply` returns early and ignores `...others` | `multiply(null, identity(), translate(1, 0))` returns `identity()` | an absent operand counts as the identity and the rest operands are still folded in, giving `translate(1, 0)` | high (derived by proof, not executed) | Matrices.MultiplyAsWritten, Matrices.MultiplyAsWrittenDropsOthers, Matrices.MultiplyAsWrittenCounterexample | Matrices.Multiply |
