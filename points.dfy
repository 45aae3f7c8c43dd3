/** The immutable 2D point of packages/common/src/geom/point.ts.  Every
    operation returns a new point; operations that throw in the source return
    `Err` here.  The matrix-dependent operations (`transform`, `transformMut`,
    `matrixToPoint`) live in module `Matrices`, which imports this one. */
module Points {
  import opened Wrappers
  import opened JsValues
  import ScalarMath

  datatype Point = Point(x: real, y: real)

  const Origin: Point := Point(0.0, 0.0)

  /** The `Error` a point operation throws, with its message. */
  datatype Error = InvalidArgument(message: string)

  const CreateError: string := "Invalid parameters to create Point"
  const AddError: string := "arguments should be point instance"
  const OperandError: string := "arguments should be pointer instance"

  /** Default tolerance of `close`. */
  const CLOSE_EPSILON: real := 0.0000000001

  /** `Point.isPointLike`: an object whose `x` and `y` are safe numbers. */
  predicate IsPointLike(v: JsValue) {
    IsValidObject(v) && IsSafeNumber(Property(v, "x")) && IsSafeNumber(Property(v, "y"))
  }

  /** `Point.isValidPointAttrs`: `typeof v === 'object'`, not `null`, with
      safe-number `x` and `y`, which is the test `isPointLike` makes. */
  function IsValidPointAttrs(v: JsValue): (r: bool)
    ensures r <==> IsPointLike(v)
  {
    if !(v.Obj? || v.Arr?) then false
    else Property(v, "x").Num? && Property(v, "y").Num?
  }

  /** The coordinates of a point-like value. */
  function PointOf(v: JsValue): Point
    requires IsPointLike(v)
  {
    Point(Property(v, "x").n, Property(v, "y").n)
  }

  /** `toJSON`: the plain object `{x, y}`, which is point-like and carries
      exactly the point's coordinates. */
  function ToJson(p: Point): (r: JsValue)
    ensures IsPointLike(r) && PointOf(r) == p
    ensures r.Obj? && r.props.Keys == {"x", "y"}
  {
    Obj(map["x" := Num(p.x), "y" := Num(p.y)])
  }

  /** The overloaded constructor `new Point(x?, y?)`.  Its tests, in order:
      no first argument, two safe numbers, a point-like first argument, a
      single safe number; anything else throws. */
  function NewPoint(x: JsValue, y: JsValue): (r: Result<Point, Error>)
    ensures x.Undefined? ==> r == Ok(Origin)
    ensures x.Num? && y.Num? ==> r == Ok(Point(x.n, y.n))
    ensures x.Num? && !y.Num? ==> r == Ok(Point(x.n, x.n))
    ensures IsPointLike(x) ==> r == Ok(PointOf(x))
    ensures r.Err? <==> !(x.Undefined? || x.Num? || IsPointLike(x))
    ensures r.Err? ==> r.error == InvalidArgument(CreateError)
  {
    if x.Undefined? then Ok(Origin)
    else if IsSafeNumber(x) && IsSafeNumber(y) then Ok(Point(x.n, y.n))
    else if IsPointLike(x) then Ok(PointOf(x))
    else if IsSafeNumber(x) then Ok(Point(x.n, x.n))
    else Err(InvalidArgument(CreateError))
  }

  /** `new Point(p)` copies a point, whatever the second argument is. */
  lemma NewPointCopies(p: Point, y: JsValue)
    ensures NewPoint(ToJson(p), y) == Ok(p)
  {
    assert !ToJson(p).Num?;
  }

  /** Values that are neither absent, numbers nor point-like are refused:
      `null`, booleans, strings, NaN/Infinity and objects without numeric
      `x` and `y`. */
  lemma NewPointRejects(y: JsValue)
    ensures NewPoint(Null, y) == Err(InvalidArgument(CreateError))
    ensures NewPoint(NonFinite, y) == Err(InvalidArgument(CreateError))
    ensures NewPoint(Str("1,2"), y) == Err(InvalidArgument(CreateError))
    ensures NewPoint(Obj(map["x" := Num(1.0)]), y) == Err(InvalidArgument(CreateError))
  {
    assert !IsPointLike(Obj(map["x" := Num(1.0)])) by {
      assert "y" !in map["x" := Num(1.0)];
    }
  }

  /** What `decodePoint` gives back: a point, or its argument unchanged. */
  datatype Decoded = Decoded(point: Point) | Passed(value: JsValue)

  /** `decodePoint`, without its string branch: a non-array object with safe
      `x` and `y` becomes a point; any other value is returned as it is. */
  function DecodePoint(v: JsValue): (r: Decoded)
    requires !IsNonEmptyString(v)
    ensures r.Decoded? <==> IsPointLike(v)
    ensures r.Decoded? ==> r.point == PointOf(v)
    ensures r.Passed? ==> r.value == v
  {
    if IsValidObject(v) && !v.Arr? && IsSafeNumber(Property(v, "x")) && IsSafeNumber(Property(v, "y"))
    then Decoded(Point(Property(v, "x").n, Property(v, "y").n))
    else Passed(v)
  }

  /** Decoding the JSON form of a point gives back the point. */
  lemma DecodeToJson(p: Point)
    ensures DecodePoint(ToJson(p)) == Decoded(p)
  {
  }

  /** `close(p, epsilon = 1e-10)`: both coordinates differ by strictly less
      than `epsilon`. */
  function Close(p: Point, q: Point, epsilon: Option<real>): (r: bool)
    ensures r <==> (var e := epsilon.GetOr(CLOSE_EPSILON);
                    q.x - e < p.x < q.x + e && q.y - e < p.y < q.y + e)
  {
    var e := epsilon.GetOr(CLOSE_EPSILON);
    ScalarMath.Abs(p.x - q.x) < e && ScalarMath.Abs(p.y - q.y) < e
  }

  lemma CloseSymmetric(p: Point, q: Point, epsilon: Option<real>)
    ensures Close(p, q, epsilon) == Close(q, p, epsilon)
  {
  }

  /** With the default tolerance every point is close to itself. */
  lemma CloseReflexive(p: Point)
    ensures Close(p, p, None)
  {
  }

  function Sum(p: Point, q: Point): Point {
    Point(p.x + q.x, p.y + q.y)
  }

  function Difference(p: Point, q: Point): Point {
    Point(p.x - q.x, p.y - q.y)
  }

  function Product(p: Point, q: Point): Point {
    Point(p.x * q.x, p.y * q.y)
  }

  function Quotient(p: Point, q: Point): Point
    requires q.x != 0.0 && q.y != 0.0
  {
    Point(p.x / q.x, p.y / q.y)
  }

  /** `add(p)`: the element-wise sum; throws unless `p` is point-like. */
  function Add(p: Point, q: JsValue): (r: Result<Point, Error>)
    ensures r.Ok? <==> IsPointLike(q)
    ensures r.Ok? ==> r.value.x == p.x + PointOf(q).x && r.value.y == p.y + PointOf(q).y
    ensures r.Err? ==> r.error == InvalidArgument(AddError)
  {
    if !IsPointLike(q) then Err(InvalidArgument(AddError)) else Ok(Sum(p, PointOf(q)))
  }

  /** `subtract(p)`: the element-wise difference; throws unless `p` is point-like. */
  function Subtract(p: Point, q: JsValue): (r: Result<Point, Error>)
    ensures r.Ok? <==> IsPointLike(q)
    ensures r.Ok? ==> r.value.x == p.x - PointOf(q).x && r.value.y == p.y - PointOf(q).y
    ensures r.Err? ==> r.error == InvalidArgument(OperandError)
  {
    if !IsPointLike(q) then Err(InvalidArgument(OperandError)) else Ok(Difference(p, PointOf(q)))
  }

  /** `multiply(p)`: the element-wise product; throws unless `p` is point-like. */
  function Multiply(p: Point, q: JsValue): (r: Result<Point, Error>)
    ensures r.Ok? <==> IsPointLike(q)
    ensures r.Ok? ==> r.value.x == p.x * PointOf(q).x && r.value.y == p.y * PointOf(q).y
    ensures r.Err? ==> r.error == InvalidArgument(OperandError)
  {
    if !IsPointLike(q) then Err(InvalidArgument(OperandError)) else Ok(Product(p, PointOf(q)))
  }

  /** The JavaScript quotient `a / b` as a value: dividing by zero gives
      ±Infinity or NaN, none of which is a safe number. */
  function Ratio(a: real, b: real): JsValue {
    if b == 0.0 then NonFinite else Num(a / b)
  }

  /** `divide(p)`: throws unless `p` is point-like; otherwise both quotients
      go to the constructor.  A zero x divisor makes the first argument
      non-finite, which the constructor rejects; a zero y divisor alone leaves
      one safe number, which the constructor copies into both coordinates. */
  function Divide(p: Point, q: JsValue): (r: Result<Point, Error>)
    ensures !IsPointLike(q) ==> r == Err(InvalidArgument(OperandError))
    ensures IsPointLike(q) && PointOf(q).x != 0.0 && PointOf(q).y != 0.0 ==>
      r.Ok? && r.value.x * PointOf(q).x == p.x && r.value.y * PointOf(q).y == p.y
    ensures IsPointLike(q) && PointOf(q).x == 0.0 ==> r == Err(InvalidArgument(CreateError))
    ensures IsPointLike(q) && PointOf(q).x != 0.0 && PointOf(q).y == 0.0 ==>
      r.Ok? && r.value.x == r.value.y && r.value.x * PointOf(q).x == p.x
  {
    if !IsPointLike(q) then Err(InvalidArgument(OperandError))
    else NewPoint(Ratio(p.x, PointOf(q).x), Ratio(p.y, PointOf(q).y))
  }

  /** `p.add(q).subtract(q)` is `p`. */
  lemma AddSubtractCancel(p: Point, q: Point)
    ensures Add(p, ToJson(q)).Ok?
    ensures Subtract(Add(p, ToJson(q)).value, ToJson(q)) == Ok(p)
  {
  }

  lemma AddCommutes(p: Point, q: Point)
    ensures Add(p, ToJson(q)) == Add(q, ToJson(p))
  {
  }

  /** `p.multiply(q).divide(q)` is `p` when `q` has no zero coordinate. */
  lemma MultiplyDivideCancel(p: Point, q: Point)
    requires q.x != 0.0 && q.y != 0.0
    ensures Multiply(p, ToJson(q)).Ok?
    ensures Divide(Multiply(p, ToJson(q)).value, ToJson(q)) == Ok(p)
  {
    var m := Multiply(p, ToJson(q)).value;
    ScalarMath.MulDivCancel(p.x, q.x);
    ScalarMath.MulDivCancel(p.y, q.y);
    assert Quotient(m, q) == p;
  }

  /** Static `Point.min(p1?, p2?)`: an absent operand yields the other one;
      otherwise the element-wise minimum. */
  function Min(p1: Option<Point>, p2: Option<Point>): (r: Option<Point>)
    ensures p1.None? && p2.None? ==> r.None?
    ensures p1.None? ==> r == p2
    ensures p2.None? ==> r == p1
    ensures p1.Some? && p2.Some? ==>
      (r.Some?
       && r.value.x <= p1.value.x && r.value.x <= p2.value.x
       && r.value.y <= p1.value.y && r.value.y <= p2.value.y
       && (r.value.x == p1.value.x || r.value.x == p2.value.x)
       && (r.value.y == p1.value.y || r.value.y == p2.value.y))
  {
    if p1.None? then p2
    else if p2.None? then p1
    else Some(Point(ScalarMath.Min(p1.value.x, p2.value.x), ScalarMath.Min(p1.value.y, p2.value.y)))
  }

  /** Static `Point.max(p1?, p2?)`: an absent operand yields the other one;
      otherwise the element-wise maximum. */
  function Max(p1: Option<Point>, p2: Option<Point>): (r: Option<Point>)
    ensures p1.None? && p2.None? ==> r.None?
    ensures p1.None? ==> r == p2
    ensures p2.None? ==> r == p1
    ensures p1.Some? && p2.Some? ==>
      (r.Some?
       && r.value.x >= p1.value.x && r.value.x >= p2.value.x
       && r.value.y >= p1.value.y && r.value.y >= p2.value.y
       && (r.value.x == p1.value.x || r.value.x == p2.value.x)
       && (r.value.y == p1.value.y || r.value.y == p2.value.y))
  {
    if p1.None? then p2
    else if p2.None? then p1
    else Some(Point(ScalarMath.Max(p1.value.x, p2.value.x), ScalarMath.Max(p1.value.y, p2.value.y)))
  }

  /** The test cases of `min`/`max` with (1, 2) and (2, 5). */
  lemma MinMaxExamples()
    ensures Min(Some(Point(1.0, 2.0)), Some(Point(2.0, 5.0))) == Some(Point(1.0, 2.0))
    ensures Max(Some(Point(1.0, 2.0)), Some(Point(2.0, 5.0))) == Some(Point(2.0, 5.0))
    ensures Min(None, Some(Point(1.0, 2.0))) == Some(Point(1.0, 2.0))
    ensures Max(Some(Point(1.0, 2.0)), None) == Some(Point(1.0, 2.0))
  {
  }

  /** `inverse()`: `new Point(1 / x, 1 / y)`, which the constructor rejects
      when `x` is zero and turns into (1/x, 1/x) when only `y` is. */
  function Inverse(p: Point): (r: Result<Point, Error>)
    ensures p.x != 0.0 && p.y != 0.0 ==> r.Ok? && r.value.x * p.x == 1.0 && r.value.y * p.y == 1.0
    ensures p.x == 0.0 ==> r == Err(InvalidArgument(CreateError))
    ensures p.x != 0.0 && p.y == 0.0 ==> r.Ok? && r.value.x == r.value.y && r.value.x * p.x == 1.0
  {
    NewPoint(Ratio(1.0, p.x), Ratio(1.0, p.y))
  }

  lemma InverseInvolutive(p: Point)
    requires p.x != 0.0 && p.y != 0.0
    ensures Inverse(p).Ok? && Inverse(p).value.x != 0.0 && Inverse(p).value.y != 0.0
    ensures Inverse(Inverse(p).value) == Ok(p)
  {
    var q := Inverse(p).value;
    assert q.x != 0.0 && q.y != 0.0;
    var r := Inverse(q).value;
    assert r.x * q.x == p.x * q.x;
    assert r.y * q.y == p.y * q.y;
  }

  /** What a zero divisor does: a zero x throws the constructor's error, a
      zero y alone duplicates the x quotient. */
  lemma ZeroDivisorExamples()
    ensures Divide(Point(1.0, 2.0), ToJson(Point(0.0, 1.0))) == Err(InvalidArgument(CreateError))
    ensures Divide(Point(1.0, 2.0), ToJson(Point(1.0, 0.0))) == Ok(Point(1.0, 1.0))
    ensures Inverse(Point(0.0, 1.0)) == Err(InvalidArgument(CreateError))
    ensures Inverse(Point(2.0, 0.0)) == Ok(Point(0.5, 0.5))
  {
    var d := Divide(Point(1.0, 2.0), ToJson(Point(1.0, 0.0))).value;
    assert d.x * 1.0 == 1.0;
    var i := Inverse(Point(2.0, 0.0)).value;
    assert i.x * 2.0 == 1.0;
  }

  /** `negate()`: the additive inverse. */
  function Negate(p: Point): (r: Point)
    ensures Sum(p, r) == Origin
  {
    Point(-p.x, -p.y)
  }

  lemma NegateInvolutive(p: Point)
    ensures Negate(Negate(p)) == p
  {
  }

  /** `distanceVector(p)`: the absolute coordinate differences. */
  function DistanceVector(p: Point, q: Point): (r: Point)
    ensures r.x >= 0.0 && r.y >= 0.0
    ensures r == Origin <==> p == q
    ensures r.x == p.x - q.x || r.x == q.x - p.x
    ensures r.y == p.y - q.y || r.y == q.y - p.y
  {
    Point(ScalarMath.Abs(p.x - q.x), ScalarMath.Abs(p.y - q.y))
  }

  lemma DistanceVectorSymmetric(p: Point, q: Point)
    ensures DistanceVector(p, q) == DistanceVector(q, p)
  {
  }

  /** The z component of the cross product of `p` and `q`. */
  function Cross(p: Point, q: Point): real {
    p.x * q.y - p.y * q.x
  }

  /** `angleSign(p)`: -1 when `y * p.x > x * p.y`, that is when `p` lies
      clockwise of this vector, and 1 otherwise (collinear included). */
  function AngleSign(p: Point, q: Point): (r: real)
    ensures r == -1.0 || r == 1.0
    ensures r == -1.0 <==> Cross(p, q) < 0.0
  {
    if p.y * q.x > p.x * q.y then -1.0 else 1.0
  }

  /** Swapping the two vectors flips the sign unless they are collinear. */
  lemma AngleSignAntisymmetric(p: Point, q: Point)
    ensures Cross(p, q) != 0.0 ==> AngleSign(q, p) == -AngleSign(p, q)
    ensures Cross(p, q) == 0.0 ==> AngleSign(q, p) == AngleSign(p, q) == 1.0
  {
    assert Cross(q, p) == -Cross(p, q);
  }

  /** The counter-clockwise perpendicular is never on the clockwise side. */
  lemma AngleSignPerpendicular(p: Point)
    ensures AngleSign(p, Perpendicular(p)) == 1.0
    ensures p != Origin ==> AngleSign(Perpendicular(p), p) == -1.0
  {
    var n := Perpendicular(p);
    assert Cross(p, n) == p.x * p.x + p.y * p.y;
    assert Cross(n, p) == -(p.x * p.x + p.y * p.y);
    if p != Origin {
      assert p.x * p.x > 0.0 || p.y * p.y > 0.0;
    }
  }

  /** The test cases of `angleSign`. */
  lemma AngleSignExamples()
    ensures AngleSign(Point(1.0, 3.0), Point(1.0, 5.0)) == 1.0
    ensures AngleSign(Point(-11.0, -3.0), Point(1.0, 5.0)) == -1.0
  {
  }

  /** `quadrant()`: 1..4; zero counts as non-negative on both axes. */
  function Quadrant(p: Point): (r: int)
    ensures 1 <= r <= 4
    ensures (r == 1 || r == 2) <==> p.y >= 0.0
    ensures (r == 1 || r == 4) <==> p.x >= 0.0
  {
    if p.x >= 0.0 then (if p.y >= 0.0 then 1 else 4)
    else (if p.y >= 0.0 then 2 else 3)
  }

  /** Off the axes, negating a point moves it to the opposite quadrant. */
  lemma QuadrantOfNegate(p: Point)
    requires p.x != 0.0 && p.y != 0.0
    ensures Quadrant(Negate(p)) == (Quadrant(p) + 1) % 4 + 1
  {
  }

  /** `round(decimals)`: each coordinate rounded through the factor
      `10 ** decimals`, which agrees with the scalar `precision`. */
  function Round(p: Point, decimals: int): (r: Point)
    ensures r.x == ScalarMath.Precision(p.x, decimals as real)
    ensures r.y == ScalarMath.Precision(p.y, decimals as real)
  {
    var factor := ScalarMath.Pow10(decimals);
    assert (decimals as real).Floor == decimals;
    Point(ScalarMath.RoundToUnit(p.x, factor), ScalarMath.RoundToUnit(p.y, factor))
  }

  /** One coordinate of `roundStep`, `Math.round(v / step) * step`, as a
      value: for a zero step it is `±Infinity * 0` or `NaN * 0`, i.e. NaN. */
  function StepRounded(v: real, step: real): JsValue {
    if step == 0.0 then NonFinite else Num(ScalarMath.Round(v, Some(step)))
  }

  /** `roundStep(step)`: each coordinate to the nearest multiple of `step`,
      that is the scalar `round(v, step)`; a zero step makes both coordinates
      NaN, and the constructor throws. */
  function RoundStep(p: Point, step: real): (r: Result<Point, Error>)
    ensures step == 0.0 ==> r == Err(InvalidArgument(CreateError))
    ensures step != 0.0 ==> r.Ok?
    ensures step != 0.0 ==>
      r.value.x == ScalarMath.Round(p.x, Some(step)) && r.value.y == ScalarMath.Round(p.y, Some(step))
    ensures step != 0.0 ==> ScalarMath.Abs(p.x - r.value.x) <= ScalarMath.Abs(step) / 2.0
    ensures step != 0.0 ==> ScalarMath.Abs(p.y - r.value.y) <= ScalarMath.Abs(step) / 2.0
  {
    NewPoint(StepRounded(p.x, step), StepRounded(p.y, step))
  }

  /** `toVec(p1, p2)`, i.e. `p2.subtract(p1)`: the vector that carries `p1` to `p2`. */
  function ToVec(p1: Point, p2: Point): (r: Point)
    ensures Sum(p1, r) == p2
    ensures Subtract(p2, ToJson(p1)) == Ok(r)
  {
    Difference(p2, p1)
  }

  /** `scale(k)`: both coordinates multiplied by `k`. */
  function Scale(p: Point, k: real): Point {
    Point(p.x * k, p.y * k)
  }

  /** Scaling is the element-wise `multiply` by (k, k). */
  lemma ScaleIsMultiply(p: Point, k: real)
    ensures Multiply(p, ToJson(Point(k, k))) == Ok(Scale(p, k))
  {
    var q := ToJson(Point(k, k));
    assert PointOf(q) == Point(k, k);
    assert Multiply(p, q) == Ok(Product(p, Point(k, k)));
    assert Product(p, Point(k, k)) == Scale(p, k);
    var scaled: Result<Point, Error> := Ok(Scale(p, k));
    assert Multiply(p, q) == scaled;
  }

  lemma ScaleCompose(p: Point, a: real, b: real)
    ensures Scale(Scale(p, a), b) == Scale(p, a * b)
    ensures Scale(p, 1.0) == p
  {
    assert p.x * a * b == p.x * (a * b);
    assert p.y * a * b == p.y * (a * b);
  }

  /** `dot(p)`. */
  function Dot(p: Point, q: Point): real {
    p.x * q.x + p.y * q.y
  }

  lemma DotProperties(p: Point, q: Point, k: real)
    ensures Dot(p, q) == Dot(q, p)
    ensures Dot(Scale(p, k), q) == k * Dot(p, q)
    ensures Dot(p, p) >= 0.0
  {
    assert p.x * k * q.x + p.y * k * q.y == k * (p.x * q.x + p.y * q.y);
    assert p.x * p.x >= 0.0 && p.y * p.y >= 0.0;
  }

  /** `perpendicular()`: (x, y) rotated a quarter turn counter-clockwise,
      orthogonal to the point and of the same squared length. */
  function Perpendicular(p: Point): (r: Point)
    ensures Dot(p, r) == 0.0
    ensures Dot(r, r) == Dot(p, p)
    ensures Cross(p, r) == Dot(p, p)
  {
    Point(-p.y, p.x)
  }

  lemma PerpendicularTwiceNegates(p: Point)
    ensures Perpendicular(Perpendicular(p)) == Negate(p)
  {
  }

  /** The reference sum of a point sequence. */
  function Total(ps: seq<Point>): Point {
    if |ps| == 0 then Origin else Sum(ps[0], Total(ps[1..]))
  }

  /** The `reduce` of `centerPoints`: `acc.add(p.divide(k))` from left to
      right with `k = (n, n)`; `CenterFoldStep` shows that each step is the
      `Ok` value of those two calls. */
  function CenterFold(acc: Point, ps: seq<Point>, n: real): Point
    requires n != 0.0
    decreases |ps|
  {
    if |ps| == 0 then acc
    else CenterFold(Sum(acc, Quotient(ps[0], Point(n, n))), ps[1..], n)
  }

  /** One step of the `reduce`: `k = new Point(n)` is (n, n), dividing by it
      succeeds for `n != 0`, and adding the quotient is the step `CenterFold`
      takes. */
  lemma CenterFoldStep(acc: Point, p: Point, n: real)
    requires n != 0.0
    ensures NewPoint(Num(n), Undefined) == Ok(Point(n, n))
    ensures Divide(p, ToJson(Point(n, n))).Ok?
    ensures Add(acc, ToJson(Divide(p, ToJson(Point(n, n))).value))
            == Ok(Sum(acc, Quotient(p, Point(n, n))))
  {
  }

  lemma DivAdd(a: real, b: real, n: real)
    requires n != 0.0
    ensures a / n + b / n == (a + b) / n
  {
  }

  /** The fold adds `Total(ps) / n` to its accumulator. */
  lemma {:induction false} CenterFoldAddsMean(acc: Point, ps: seq<Point>, n: real)
    requires n != 0.0
    ensures CenterFold(acc, ps, n) == Point(acc.x + Total(ps).x / n, acc.y + Total(ps).y / n)
    decreases |ps|
  {
    if |ps| > 0 {
      var next := Sum(acc, Quotient(ps[0], Point(n, n)));
      CenterFoldAddsMean(next, ps[1..], n);
      DivAdd(ps[0].x, Total(ps[1..]).x, n);
      DivAdd(ps[0].y, Total(ps[1..]).y, n);
    }
  }

  /** `centerPoints(points)`: (0, 0) for no points, otherwise their mean. */
  function CenterPoints(ps: seq<Point>): (r: Point)
    ensures |ps| == 0 ==> r == Origin
    ensures |ps| > 0 ==> r == Point(Total(ps).x / (|ps| as real), Total(ps).y / (|ps| as real))
  {
    if |ps| == 0 then Origin
    else
      var n := |ps| as real;
      CenterFoldAddsMean(Origin, ps, n);
      CenterFold(Origin, ps, n)
  }

  lemma CenterPointsSingleton(p: Point)
    ensures CenterPoints([p]) == p
  {
    assert Total([p]) == Sum(p, Total([]));
  }

  /** The test case of `centerPoints`. */
  lemma CenterPointsExample()
    ensures CenterPoints([Point(0.5, 0.5), Point(-1.0, -2.0), Point(20.0, 65.2), Point(12.0, -10.0)])
      == Point(7.875, 13.425)
  {
    var ps := [Point(0.5, 0.5), Point(-1.0, -2.0), Point(20.0, 65.2), Point(12.0, -10.0)];
    assert ps[1..] == [Point(-1.0, -2.0), Point(20.0, 65.2), Point(12.0, -10.0)];
    assert ps[1..][1..] == [Point(20.0, 65.2), Point(12.0, -10.0)];
    assert ps[1..][1..][1..] == [Point(12.0, -10.0)];
    assert ps[1..][1..][1..][1..] == [];
    assert Total(ps) == Point(31.5, 53.7);
  }

  /** `almostZero()`: both coordinates almost zero (|c| < 1e-4). */
  predicate AlmostZero(p: Point) {
    ScalarMath.AlmostZero(p.x) && ScalarMath.AlmostZero(p.y)
  }

  /** `isZero()`: both coordinates exactly zero. */
  predicate IsZero(p: Point) {
    p.x == 0.0 && p.y == 0.0
  }

  lemma ZeroPredicates(p: Point)
    ensures IsZero(p) <==> p == Origin
    ensures IsZero(p) ==> AlmostZero(p)
    ensures AlmostZero(p) <==> -0.0001 < p.x < 0.0001 && -0.0001 < p.y < 0.0001
  {
    ScalarMath.AlmostZeroInterval(p.x);
    ScalarMath.AlmostZeroInterval(p.y);
  }

  /** `lerp(p2, t)`: coordinate-wise the scalar `lerp`, so `p` at 0, `p2` at
      1, and an extrapolation beyond [0, 1]. */
  function Lerp(p: Point, p2: Point, t: real): (r: Point)
    ensures r.x == ScalarMath.Lerp(p.x, p2.x, t) && r.y == ScalarMath.Lerp(p.y, p2.y, t)
    ensures t == 0.0 ==> r == p
    ensures t == 1.0 ==> r == p2
  {
    Point(p.x + (p2.x - p.x) * t, p.y + (p2.y - p.y) * t)
  }

  /** At `t = 2` the interpolation lands as far beyond `p2` as `p2` is from `p`. */
  lemma LerpExtrapolates(p: Point, p2: Point)
    ensures Lerp(p, p2, 2.0) == Sum(p2, Difference(p2, p))
  {
  }

  /** `noZeros()`: a coordinate with |c| < 1e-10 becomes 0.001, the others
      are kept, so no coordinate of the result is that small. */
  function NoZeros(p: Point): (r: Point)
    ensures ScalarMath.Abs(r.x) >= 0.0000000001 && ScalarMath.Abs(r.y) >= 0.0000000001
    ensures ScalarMath.Abs(p.x) < 0.0000000001 ==> r.x == 0.001
    ensures ScalarMath.Abs(p.x) >= 0.0000000001 ==> r.x == p.x
    ensures ScalarMath.Abs(p.y) < 0.0000000001 ==> r.y == 0.001
    ensures ScalarMath.Abs(p.y) >= 0.0000000001 ==> r.y == p.y
  {
    Point(if ScalarMath.Abs(p.x) < 0.0000000001 then 0.001 else p.x,
          if ScalarMath.Abs(p.y) < 0.0000000001 then 0.001 else p.y)
  }

  lemma NoZerosIdempotent(p: Point)
    ensures NoZeros(NoZeros(p)) == NoZeros(p)
  {
  }

  /** `abs()`: the coordinates' magnitudes. */
  function Abs(p: Point): (r: Point)
    ensures r.x >= 0.0 && r.y >= 0.0
    ensures (r.x == p.x || r.x == -p.x) && (r.y == p.y || r.y == -p.y)
  {
    Point(ScalarMath.Abs(p.x), ScalarMath.Abs(p.y))
  }

  /** `distanceVector(q)` is the magnitude of the difference. */
  lemma DistanceVectorIsAbsDifference(p: Point, q: Point)
    ensures DistanceVector(p, q) == Abs(Difference(p, q))
    ensures Abs(Abs(p)) == Abs(p)
  {
  }
}
