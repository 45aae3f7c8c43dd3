/** The immutable 3×2 affine matrix of packages/common/src/geom/matrix.ts,
        [a c e]
        [b d f]
        [0 0 1]
    together with the point operations that apply one (`transform`,
    `transformMut`, `matrixToPoint` of point.ts).  Trigonometry enters only
    through cos/sin/tan values that the caller supplies. */
module Matrices {
  import opened Wrappers
  import ScalarMath
  import Points

  type Point = Points.Point

  datatype Matrix = Matrix(a: real, b: real, c: real, d: real, e: real, f: real)

  // ---------------------------------------------------------------------
  // Construction

  /** `new Matrix(a?, b?, c?, d?, e?, f?)`: a missing argument takes its
      default, 1 for `a` and `d` and 0 for the others. */
  function Construct(a: Option<real>, b: Option<real>, c: Option<real>,
                     d: Option<real>, e: Option<real>, f: Option<real>): Matrix
  {
    Matrix(a.GetOr(1.0), b.GetOr(0.0), c.GetOr(0.0), d.GetOr(1.0), e.GetOr(0.0), f.GetOr(0.0))
  }

  /** `Matrix.identity()`, which is what the constructor builds with no arguments. */
  function Identity(): (r: Matrix)
    ensures r == Construct(None, None, None, None, None, None)
  {
    Matrix(1.0, 0.0, 0.0, 1.0, 0.0, 0.0)
  }

  /** Given arguments are stored as they are. */
  lemma ConstructKeepsArguments(m: Matrix)
    ensures Construct(Some(m.a), Some(m.b), Some(m.c), Some(m.d), Some(m.e), Some(m.f)) == m
  {
  }

  /** The `matrix(a?, ..., f?)` factory: the identity when `a` is missing,
      whatever the later arguments are; otherwise the constructor. */
  function MatrixFactory(a: Option<real>, b: Option<real>, c: Option<real>,
                         d: Option<real>, e: Option<real>, f: Option<real>): (r: Matrix)
    ensures a.None? ==> r == Identity()
    ensures a.Some? ==> r.a == a.value
    ensures a.Some? ==> r == Construct(a, b, c, d, e, f)
  {
    if a.None? then Identity() else Construct(a, b, c, d, e, f)
  }

  /** `matrix(undefined, 2)` ignores the 2, while `matrix(1, 2)` keeps it. */
  lemma MatrixFactoryExamples()
    ensures MatrixFactory(None, Some(2.0), None, None, None, None) == Identity()
    ensures MatrixFactory(Some(1.0), Some(2.0), None, None, None, None) == Matrix(1.0, 2.0, 0.0, 1.0, 0.0, 0.0)
  {
  }

  // ---------------------------------------------------------------------
  // Applying a matrix to a point (point.ts)

  /** `p.transformMut(m)`: the affine image (a·x + c·y + e, b·x + d·y + f). */
  function TransformMut(p: Point, m: Matrix): Point {
    Points.Point(p.x * m.a + p.y * m.c + m.e, p.x * m.b + p.y * m.d + m.f)
  }

  /** `p.transform(m?)`: a copy of `p` when there is no matrix, otherwise the
      affine image, the same formula as `transformMut`. */
  function Transform(p: Point, m: Option<Matrix>): (r: Point)
    ensures m.None? ==> r == p
    ensures m.Some? ==> r == TransformMut(p, m.value)
  {
    match m
    case None => Points.Point(p.x, p.y)
    case Some(mm) => Points.Point(p.x * mm.a + p.y * mm.c + mm.e, p.x * mm.b + p.y * mm.d + mm.f)
  }

  /** `Point.matrixToPoint(m)`: (e, f), the image of the origin. */
  function MatrixToPoint(m: Matrix): (r: Point)
    ensures r == TransformMut(Points.Origin, m)
  {
    Points.Point(m.e, m.f)
  }

  /** The identity moves no point. */
  lemma TransformIdentity(p: Point)
    ensures TransformMut(p, Identity()) == p
    ensures Transform(p, Some(Identity())) == Transform(p, None)
  {
  }

  // ---------------------------------------------------------------------
  // Composition

  /** The product `m1 · m2` that `multiply` computes for two present operands. */
  function Mul(m1: Matrix, m2: Matrix): Matrix {
    Matrix(m1.a * m2.a + m1.c * m2.b,
           m1.b * m2.a + m1.d * m2.b,
           m1.a * m2.c + m1.c * m2.d,
           m1.b * m2.c + m1.d * m2.d,
           m1.a * m2.e + m1.c * m2.f + m1.e,
           m1.b * m2.e + m1.d * m2.f + m1.f)
  }

  /** Composition order: applying `m1 · m2` is applying `m2` first and then `m1`. */
  lemma MulApplies(m1: Matrix, m2: Matrix, q: Point)
    ensures TransformMut(q, Mul(m1, m2)) == TransformMut(TransformMut(q, m2), m1)
  {
    Expand(q.x, q.y, m1.a, m1.c, m1.e, m2.a, m2.b, m2.c, m2.d, m2.e, m2.f);
    Expand(q.x, q.y, m1.b, m1.d, m1.f, m2.a, m2.b, m2.c, m2.d, m2.e, m2.f);
    var l, r := TransformMut(q, Mul(m1, m2)), TransformMut(TransformMut(q, m2), m1);
    assert l.x == r.x;
    assert l.y == r.y;
  }

  /** One coordinate of `MulApplies`, as a polynomial identity. */
  lemma Expand(x: real, y: real, a1: real, c1: real, e1: real,
               a2: real, b2: real, c2: real, d2: real, e2: real, f2: real)
    ensures x * (a1 * a2 + c1 * b2) + y * (a1 * c2 + c1 * d2) + (a1 * e2 + c1 * f2 + e1)
         == (x * a2 + y * c2 + e2) * a1 + (x * b2 + y * d2 + f2) * c1 + e1
  {
  }

  /** The identity is a left and a right unit. */
  lemma MulIdentity(m: Matrix)
    ensures Mul(Identity(), m) == m
    ensures Mul(m, Identity()) == m
  {
  }

  /** Products associate, so the grouping of a chain does not matter. */
  lemma MulAssociative(m1: Matrix, m2: Matrix, m3: Matrix)
    ensures Mul(Mul(m1, m2), m3) == Mul(m1, Mul(m2, m3))
  {
    AssocA(m1, m2, m3);
    AssocB(m1, m2, m3);
    AssocC(m1, m2, m3);
    AssocD(m1, m2, m3);
    AssocE(m1, m2, m3);
    AssocF(m1, m2, m3);
  }

  /** `MulAssociative`, one coefficient at a time. */
  lemma AssocA(m1: Matrix, m2: Matrix, m3: Matrix)
    ensures Mul(Mul(m1, m2), m3).a == Mul(m1, Mul(m2, m3)).a
  {
    var x, y := Mul(m1, m2), Mul(m2, m3);
    Regroup(m1.a, m1.c, m2.a, m2.b, m2.c, m2.d, m3.a, m3.b, x.a, x.c, y.a, y.b);
  }

  lemma AssocB(m1: Matrix, m2: Matrix, m3: Matrix)
    ensures Mul(Mul(m1, m2), m3).b == Mul(m1, Mul(m2, m3)).b
  {
    var x, y := Mul(m1, m2), Mul(m2, m3);
    Regroup(m1.b, m1.d, m2.a, m2.b, m2.c, m2.d, m3.a, m3.b, x.b, x.d, y.a, y.b);
  }

  lemma AssocC(m1: Matrix, m2: Matrix, m3: Matrix)
    ensures Mul(Mul(m1, m2), m3).c == Mul(m1, Mul(m2, m3)).c
  {
    var x, y := Mul(m1, m2), Mul(m2, m3);
    Regroup(m1.a, m1.c, m2.a, m2.b, m2.c, m2.d, m3.c, m3.d, x.a, x.c, y.c, y.d);
  }

  lemma AssocD(m1: Matrix, m2: Matrix, m3: Matrix)
    ensures Mul(Mul(m1, m2), m3).d == Mul(m1, Mul(m2, m3)).d
  {
    var x, y := Mul(m1, m2), Mul(m2, m3);
    Regroup(m1.b, m1.d, m2.a, m2.b, m2.c, m2.d, m3.c, m3.d, x.b, x.d, y.c, y.d);
  }

  lemma AssocE(m1: Matrix, m2: Matrix, m3: Matrix)
    ensures Mul(Mul(m1, m2), m3).e == Mul(m1, Mul(m2, m3)).e
  {
    var x, y := Mul(m1, m2), Mul(m2, m3);
    RegroupOffset(m1.a, m1.c, m1.e, m2.a, m2.b, m2.c, m2.d, m2.e, m2.f, m3.e, m3.f, x.a, x.c, x.e, y.e, y.f);
  }

  lemma AssocF(m1: Matrix, m2: Matrix, m3: Matrix)
    ensures Mul(Mul(m1, m2), m3).f == Mul(m1, Mul(m2, m3)).f
  {
    var x, y := Mul(m1, m2), Mul(m2, m3);
    RegroupOffset(m1.b, m1.d, m1.f, m2.a, m2.b, m2.c, m2.d, m2.e, m2.f, m3.e, m3.f, x.b, x.d, x.f, y.e, y.f);
  }

  /** Regrouping one coordinate of a triple product, with the inner
      products `s`, `t`, `u`, `v` named. */
  lemma Regroup(p: real, q: real, a: real, b: real, c: real, d: real, x: real, y: real,
                s: real, t: real, u: real, v: real)
    requires s == p * a + q * b && t == p * c + q * d
    requires u == a * x + c * y && v == b * x + d * y
    ensures s * x + t * y == p * u + q * v
  {
  }

  /** `Regroup` for an offset coordinate. */
  lemma RegroupOffset(p: real, q: real, w: real, a: real, b: real, c: real, d: real, e: real, f: real,
                      x: real, y: real, s: real, t: real, o: real, u: real, v: real)
    requires s == p * a + q * b && t == p * c + q * d && o == p * e + q * f + w
    requires u == a * x + c * y + e && v == b * x + d * y + f
    ensures s * x + t * y + o == p * u + q * v + w
  {
  }

  /** The reference product `ms[0] · ms[1] · …`, the identity for none. */
  function Compose(ms: seq<Matrix>): Matrix {
    if |ms| == 0 then Identity() else Mul(ms[0], Compose(ms[1..]))
  }

  /** Applying the matrices of `ms` one after the other, the last one first. */
  function ApplyAll(ms: seq<Matrix>, q: Point): Point {
    if |ms| == 0 then q else TransformMut(ApplyAll(ms[1..], q), ms[0])
  }

  /** The product transforms a point as the whole sequence does. */
  lemma {:induction false} ComposeApplies(ms: seq<Matrix>, q: Point)
    ensures TransformMut(q, Compose(ms)) == ApplyAll(ms, q)
  {
    if |ms| == 0 {
      TransformIdentity(q);
    } else {
      ComposeApplies(ms[1..], q);
      MulApplies(ms[0], Compose(ms[1..]), q);
    }
  }

  /** The left fold over the rest operands of `multiply`. */
  function FoldMul(acc: Matrix, ms: seq<Matrix>): Matrix
    decreases |ms|
  {
    if |ms| == 0 then acc else FoldMul(Mul(acc, ms[0]), ms[1..])
  }

  lemma {:induction false} FoldMulIsCompose(acc: Matrix, ms: seq<Matrix>)
    ensures FoldMul(acc, ms) == Mul(acc, Compose(ms))
    decreases |ms|
  {
    if |ms| == 0 {
      MulIdentity(acc);
    } else {
      FoldMulIsCompose(Mul(acc, ms[0]), ms[1..]);
      MulAssociative(acc, ms[0], Compose(ms[1..]));
    }
  }

  /** Static `Matrix.multiply(m1, m2, ...others)` with every path folding the
      rest operands: an absent operand counts as the identity (two absent
      ones give `identity()`, one absent gives the other), and the result is
      multiplied on the right by `others` from left to right. */
  function Multiply(m1: Option<Matrix>, m2: Option<Matrix>, others: seq<Matrix>): (r: Matrix)
    ensures r == Compose([m1.GetOr(Identity()), m2.GetOr(Identity())] + others)
  {
    var first :=
      if m1.None? && m2.None? then Identity()
      else if m1.None? then m2.value
      else if m2.None? then m1.value
      else Mul(m1.value, m2.value);
    var x, y := m1.GetOr(Identity()), m2.GetOr(Identity());
    MulIdentity(x);
    MulIdentity(y);
    assert first == Mul(x, y);
    FoldMulIsCompose(first, others);
    ComposeTwoThen(x, y, others);
    MulAssociative(x, y, Compose(others));
    FoldMul(first, others)
  }

  lemma ComposeTwoThen(x: Matrix, y: Matrix, others: seq<Matrix>)
    ensures Compose([x, y] + others) == Mul(x, Mul(y, Compose(others)))
  {
    var ms := [x, y] + others;
    assert ms[1..] == [y] + others;
    assert ms[1..][1..] == others;
  }

  /** Composition order of `multiply`: the result transforms a point as the
      operands do one after the other, the last operand first. */
  lemma MultiplyApplies(m1: Option<Matrix>, m2: Option<Matrix>, others: seq<Matrix>, q: Point)
    ensures TransformMut(q, Multiply(m1, m2, others))
         == ApplyAll([m1.GetOr(Identity()), m2.GetOr(Identity())] + others, q)
  {
    ComposeApplies([m1.GetOr(Identity()), m2.GetOr(Identity())] + others, q);
  }

  /** `multiply(m1, m2, ...others)` is the product of the two operands,
      multiplied on the right by the product of the rest. */
  lemma MultiplySplits(m1: Option<Matrix>, m2: Option<Matrix>, others: seq<Matrix>)
    ensures Multiply(m1, m2, others) == Mul(Mul(m1.GetOr(Identity()), m2.GetOr(Identity())), Compose(others))
  {
    var x, y := m1.GetOr(Identity()), m2.GetOr(Identity());
    ComposeTwoThen(x, y, others);
    MulAssociative(x, y, Compose(others));
  }

  /** With no rest operands, `multiply` is the product of its two operands. */
  lemma MultiplyPair(m1: Option<Matrix>, m2: Option<Matrix>)
    ensures Multiply(m1, m2, []) == Mul(m1.GetOr(Identity()), m2.GetOr(Identity()))
  {
    MultiplySplits(m1, m2, []);
    MulIdentity(Mul(m1.GetOr(Identity()), m2.GetOr(Identity())));
  }

  /** The two-operand rules: absent operands are the identity, and the
      identity is neutral on either side. */
  lemma MultiplyAbsentOperands(m: Matrix)
    ensures Multiply(None, None, []) == Identity()
    ensures Multiply(None, Some(m), []) == m
    ensures Multiply(Some(m), None, []) == m
    ensures Multiply(Some(Identity()), Some(m), []) == m
    ensures Multiply(Some(m), Some(Identity()), []) == m
  {
    LeftNeutral(None, None);
    LeftNeutral(None, Some(m));
    RightNeutral(Some(m), None);
    LeftNeutral(Some(Identity()), Some(m));
    RightNeutral(Some(m), Some(Identity()));
  }

  /** An absent or identity left operand leaves the right one. */
  lemma LeftNeutral(m1: Option<Matrix>, m2: Option<Matrix>)
    requires m1.GetOr(Identity()) == Identity()
    ensures Multiply(m1, m2, []) == m2.GetOr(Identity())
  {
    MultiplyPair(m1, m2);
    MulIdentity(m2.GetOr(Identity()));
  }

  /** An absent or identity right operand leaves the left one. */
  lemma RightNeutral(m1: Option<Matrix>, m2: Option<Matrix>)
    requires m2.GetOr(Identity()) == Identity()
    ensures Multiply(m1, m2, []) == m1.GetOr(Identity())
  {
    MultiplyPair(m1, m2);
    MulIdentity(m1.GetOr(Identity()));
  }

  /** `Compose` unfolds one operand at the front. */
  lemma ComposeCons(m: Matrix, rest: seq<Matrix>)
    ensures Compose([m] + rest) == Mul(m, Compose(rest))
  {
    assert ([m] + rest)[1..] == rest;
  }

  /** Extra operands fold left: `multiply(m1, m2, m3, ...rest)` is
      `multiply(multiply(m1, m2), m3, ...rest)`. */
  lemma MultiplyFoldsLeft(m1: Option<Matrix>, m2: Option<Matrix>, m3: Matrix, rest: seq<Matrix>)
    ensures Multiply(m1, m2, [m3] + rest) == Multiply(Some(Multiply(m1, m2, [])), Some(m3), rest)
  {
    var xy := Mul(m1.GetOr(Identity()), m2.GetOr(Identity()));
    FoldsLeftLhs(m1, m2, m3, rest);
    FoldsLeftRhs(m1, m2, m3, rest);
    MulAssociative(xy, m3, Compose(rest));
  }

  lemma FoldsLeftLhs(m1: Option<Matrix>, m2: Option<Matrix>, m3: Matrix, rest: seq<Matrix>)
    ensures Multiply(m1, m2, [m3] + rest)
         == Mul(Mul(m1.GetOr(Identity()), m2.GetOr(Identity())), Mul(m3, Compose(rest)))
  {
    MultiplySplits(m1, m2, [m3] + rest);
    ComposeCons(m3, rest);
  }

  lemma FoldsLeftRhs(m1: Option<Matrix>, m2: Option<Matrix>, m3: Matrix, rest: seq<Matrix>)
    ensures Multiply(Some(Multiply(m1, m2, [])), Some(m3), rest)
         == Mul(Mul(Mul(m1.GetOr(Identity()), m2.GetOr(Identity())), m3), Compose(rest))
  {
    MultiplyPair(m1, m2);
    MultiplySplits(Some(Multiply(m1, m2, [])), Some(m3), rest);
  }

  /** The instance method `m.multiply(other)`: apply `other`, then `m`. */
  function MultiplyBy(m: Matrix, other: Matrix): (r: Matrix)
    ensures r == Mul(m, other)
  {
    MultiplyPair(Some(m), Some(other));
    Multiply(Some(m), Some(other), [])
  }

  /** The body of `multiply` exactly as written: an absent operand returns
      early, so on those paths the rest operands are dropped. */
  function MultiplyAsWritten(m1: Option<Matrix>, m2: Option<Matrix>, others: seq<Matrix>): (r: Matrix)
    ensures m1.Some? && m2.Some? ==> r == Multiply(m1, m2, others)
    ensures others == [] ==> r == Multiply(m1, m2, others)
    decreases |others|
  {
    if m1.None? && m2.None? then
      MultiplyAbsentOperands(Identity());
      Identity()
    else if m1.None? then
      MultiplyAbsentOperands(m2.value);
      m2.value
    else if m2.None? then
      MultiplyAbsentOperands(m1.value);
      m1.value
    else
      var result := Mul(m1.value, m2.value);
      MultiplyPair(m1, m2);
      if |others| > 0 then
        MultiplyFoldsLeft(m1, m2, others[0], others[1..]);
        assert [others[0]] + others[1..] == others;
        MultiplyAsWritten(Some(result), Some(others[0]), others[1..])
      else
        result
  }

  /** With the first operand absent, `multiply(null, identity(), t)` gives
      the identity as written, where `t` is meant. */
  lemma MultiplyAsWrittenDropsOthers(t: Matrix)
    ensures MultiplyAsWritten(None, Some(Identity()), [t]) == Identity()
    ensures Multiply(None, Some(Identity()), [t]) == t
    ensures t != Identity() ==> MultiplyAsWritten(None, Some(Identity()), [t]) != Multiply(None, Some(Identity()), [t])
  {
    MultiplyFoldsLeft(None, Some(Identity()), t, []);
    assert [t] + [] == [t];
    LeftNeutral(None, Some(Identity()));
    LeftNeutral(Some(Identity()), Some(t));
  }

  /** The input that shows it: `t = translate(1, 0)`. */
  lemma MultiplyAsWrittenCounterexample()
    ensures MultiplyAsWritten(None, Some(Identity()), [Translate(Points.Point(1.0, 0.0))])
         != Multiply(None, Some(Identity()), [Translate(Points.Point(1.0, 0.0))])
  {
    var t := Translate(Points.Point(1.0, 0.0));
    assert t.e != Identity().e;
    MultiplyAsWrittenDropsOthers(t);
  }

  /** Sum of the `e` and of the `f` coordinates of a sequence. */
  function SumE(ms: seq<Matrix>): real {
    if |ms| == 0 then 0.0 else ms[0].e + SumE(ms[1..])
  }

  function SumF(ms: seq<Matrix>): real {
    if |ms| == 0 then 0.0 else ms[0].f + SumF(ms[1..])
  }

  /** `m.addTranslate(n, ...others)`: a pure translation whose offsets are
      the sums of all the operands' offsets. */
  function AddTranslate(m: Matrix, n: Matrix, others: seq<Matrix>): (r: Matrix)
    ensures r.a == 1.0 && r.b == 0.0 && r.c == 0.0 && r.d == 1.0
    ensures r.e == m.e + n.e + SumE(others)
    ensures r.f == m.f + n.f + SumF(others)
    decreases |others|
  {
    var result := Matrix(1.0, 0.0, 0.0, 1.0, m.e + n.e, m.f + n.f);
    if |others| > 0 then AddTranslate(result, others[0], others[1..]) else result
  }

  /** A matrix whose linear part is the identity. */
  predicate IsTranslation(m: Matrix) {
    m.a == 1.0 && m.b == 0.0 && m.c == 0.0 && m.d == 1.0
  }

  /** On pure translations `addTranslate` is `multiply`. */
  lemma {:induction false} AddTranslateIsMultiply(m: Matrix, n: Matrix, others: seq<Matrix>)
    requires IsTranslation(m) && IsTranslation(n)
    requires forall i :: 0 <= i < |others| ==> IsTranslation(others[i])
    ensures AddTranslate(m, n, others) == Multiply(Some(m), Some(n), others)
    decreases |others|
  {
    var mn := Mul(m, n);
    assert mn == Matrix(1.0, 0.0, 0.0, 1.0, m.e + n.e, m.f + n.f);
    if |others| > 0 {
      AddTranslateIsMultiply(mn, others[0], others[1..]);
      MultiplyFoldsLeft(Some(m), Some(n), others[0], others[1..]);
      assert [others[0]] + others[1..] == others;
      MultiplyPair(Some(m), Some(n));
    } else {
      MultiplyPair(Some(m), Some(n));
    }
  }

  // ---------------------------------------------------------------------
  // Factories

  /** `Matrix.translate(p)` for a point `p`: a pure translation that takes
      the origin to `p`. */
  function Translate(p: Point): (r: Matrix)
    ensures IsTranslation(r) && MatrixToPoint(r) == p
  {
    Matrix(1.0, 0.0, 0.0, 1.0, p.x, p.y)
  }

  /** `Matrix.translateNeg(p)`: a pure translation that takes `p` to the origin. */
  function TranslateNeg(p: Point): (r: Matrix)
    ensures IsTranslation(r) && TransformMut(p, r) == Points.Origin
  {
    Matrix(1.0, 0.0, 0.0, 1.0, -p.x, -p.y)
  }

  /** `translate(x, y?)`, the numeric overload: the constructor's default 0
      fills `f` when `y` is omitted. */
  function TranslateXY(x: real, y: Option<real>): (r: Matrix)
    ensures r == Translate(Points.Point(x, y.GetOr(0.0)))
    ensures y.None? ==> MatrixToPoint(r) == Points.Point(x, 0.0)
  {
    Construct(Some(1.0), Some(0.0), Some(0.0), Some(1.0), Some(x), y)
  }

  /** `translateNeg(x, y)`, the numeric overload with both numbers given. */
  function TranslateNegXY(x: real, y: real): (r: Matrix)
    ensures r == TranslateNeg(Points.Point(x, y))
    ensures Mul(TranslateXY(x, Some(y)), r) == Identity()
  {
    Matrix(1.0, 0.0, 0.0, 1.0, -x, -y)
  }

  /** Translating after `m` only shifts its offset. */
  lemma TranslateLeft(p: Point, m: Matrix)
    ensures Mul(Translate(p), m) == Matrix(m.a, m.b, m.c, m.d, m.e + p.x, m.f + p.y)
  {
    var l := Mul(Translate(p), m);
    assert l.a == m.a && l.b == m.b && l.c == m.c && l.d == m.d;
  }

  /** Every point moves by `p` under `translate(p)` and by `-p` under `translateNeg(p)`. */
  lemma TranslateMoves(p: Point, q: Point)
    ensures TransformMut(q, Translate(p)) == Points.Sum(q, p)
    ensures TransformMut(q, TranslateNeg(p)) == Points.Difference(q, p)
  {
  }

  /** A translation followed or preceded by its negation is the identity. */
  lemma TranslateThenNeg(p: Point)
    ensures Multiply(Some(Translate(p)), Some(TranslateNeg(p)), []) == Identity()
    ensures Multiply(Some(TranslateNeg(p)), Some(Translate(p)), []) == Identity()
    ensures TranslateNeg(p) == Translate(Points.Negate(p))
  {
    MultiplyPair(Some(Translate(p)), Some(TranslateNeg(p)));
    MultiplyPair(Some(TranslateNeg(p)), Some(Translate(p)));
  }

  /** The product of three matrices, as `Compose` computes it. */
  lemma ComposeThree(x: Matrix, y: Matrix, z: Matrix)
    ensures Compose([x, y, z]) == Mul(x, Mul(y, z))
  {
    assert [x, y, z] == [x] + [y, z];
    ComposeCons(x, [y, z]);
    assert [y, z] == [y] + [z];
    ComposeCons(y, [z]);
    assert [z] == [z] + [];
    ComposeCons(z, []);
    MulIdentity(z);
  }

  /** The scale argument of `Matrix.scale`: a number or a point. */
  datatype ScaleArg = ByNumber(k: real) | ByPoint(p: Point)

  function ScaleX(s: ScaleArg): real {
    match s
    case ByNumber(k) => k
    case ByPoint(p) => p.x
  }

  function ScaleY(s: ScaleArg): real {
    match s
    case ByNumber(k) => k
    case ByPoint(p) => p.y
  }

  /** `Matrix.scale(s, center?)`: the linear part diag(sx, sy), with no offset
      about the origin and, about `center`, the offset that keeps it fixed. */
  function Scale(s: ScaleArg, center: Option<Point>): (r: Matrix)
    ensures r.a == ScaleX(s) && r.b == 0.0 && r.c == 0.0 && r.d == ScaleY(s)
    ensures center.None? ==> MatrixToPoint(r) == Points.Origin
    ensures center.Some? ==> TransformMut(center.value, r) == center.value
  {
    var sx, sy := ScaleX(s), ScaleY(s);
    match center
    case Some(cn) =>
      var r := Matrix(sx, 0.0, 0.0, sy, cn.x - cn.x * sx, cn.y - cn.y * sy);
      assert TransformMut(cn, r).x == cn.x;
      assert TransformMut(cn, r).y == cn.y;
      r
    case None => Matrix(sx, 0.0, 0.0, sy, 0.0, 0.0)
  }

  /** Each point's distance to the center is scaled by (sx, sy). */
  lemma ScaleMoves(s: ScaleArg, center: Option<Point>, q: Point)
    ensures var cn := center.GetOr(Points.Origin);
      TransformMut(q, Scale(s, center))
        == Points.Point(cn.x + ScaleX(s) * (q.x - cn.x), cn.y + ScaleY(s) * (q.y - cn.y))
  {
    var cn := center.GetOr(Points.Origin);
    var l := TransformMut(q, Scale(s, center));
    assert l.x == cn.x + ScaleX(s) * (q.x - cn.x);
    assert l.y == cn.y + ScaleY(s) * (q.y - cn.y);
  }

  /** Scaling about a center is translating to it, scaling, and translating back. */
  lemma ScaleAboutCenter(s: ScaleArg, cn: Point)
    ensures Scale(s, Some(cn)) == Compose([Translate(cn), Scale(s, None), TranslateNeg(cn)])
  {
    ComposeThree(Translate(cn), Scale(s, None), TranslateNeg(cn));
    ScaleConjugated(s, cn);
  }

  lemma ScaleConjugated(s: ScaleArg, cn: Point)
    ensures Mul(Translate(cn), Mul(Scale(s, None), TranslateNeg(cn))) == Scale(s, Some(cn))
  {
    var inner := ScaleThenBack(s, cn);
    TranslateLeft(cn, inner);
  }

  lemma ScaleThenBack(s: ScaleArg, cn: Point) returns (inner: Matrix)
    ensures inner == Mul(Scale(s, None), TranslateNeg(cn))
    ensures inner == Matrix(ScaleX(s), 0.0, 0.0, ScaleY(s), -(cn.x * ScaleX(s)), -(cn.y * ScaleY(s)))
  {
    inner := Mul(Scale(s, None), TranslateNeg(cn));
  }

  /** `Matrix.rotate(angle, point?)` with `c = cos(angle)` and `s = sin(angle)`
      supplied: the linear part (c, s, -s, c), with no offset about the
      origin and, about `point`, the offset that keeps `point` fixed. */
  function RotateCS(c: real, s: real, point: Option<Point>): (r: Matrix)
    ensures r.a == c && r.b == s && r.c == -s && r.d == c
    ensures point.None? ==> MatrixToPoint(r) == Points.Origin
    ensures point.Some? ==> TransformMut(point.value, r) == point.value
  {
    match point
    case Some(pt) =>
      var cx, cy := pt.x, pt.y;
      var nx, ny := -cx, -cy;
      var r := Matrix(c, s, -s, c, c * nx - s * ny + cx, s * nx + c * ny + cy);
      assert TransformMut(pt, r).x == cx;
      assert TransformMut(pt, r).y == cy;
      r
    case None => Matrix(c, s, -s, c, 0.0, 0.0)
  }

  /** Rotating about a point is translating to it, rotating, and translating back. */
  lemma RotateAboutPoint(c: real, s: real, pt: Point)
    ensures RotateCS(c, s, Some(pt)) == Compose([Translate(pt), RotateCS(c, s, None), TranslateNeg(pt)])
  {
    ComposeThree(Translate(pt), RotateCS(c, s, None), TranslateNeg(pt));
    RotateConjugated(c, s, pt);
  }

  lemma RotateConjugated(c: real, s: real, pt: Point)
    ensures Mul(Translate(pt), Mul(RotateCS(c, s, None), TranslateNeg(pt))) == RotateCS(c, s, Some(pt))
  {
    var inner := RotateThenBack(c, s, pt);
    TranslateLeft(pt, inner);
  }

  lemma RotateThenBack(c: real, s: real, pt: Point) returns (inner: Matrix)
    ensures inner == Mul(RotateCS(c, s, None), TranslateNeg(pt))
    ensures inner == Matrix(c, s, -s, c, c * -pt.x - s * -pt.y, s * -pt.x + c * -pt.y)
  {
    inner := Mul(RotateCS(c, s, None), TranslateNeg(pt));
    assert inner.e == c * -pt.x - s * -pt.y;
  }

  /** `Matrix.skew(angleX, angleY, point?)` with `tanX` and `tanY` the
      tangents supplied: the shear (1, tanY, tanX, 1, 0, 0), conjugated by
      the translation to `point` when one is given, which keeps `point` fixed. */
  function SkewT(tanX: real, tanY: real, point: Option<Point>): (r: Matrix)
    ensures point.None? ==> r == Matrix(1.0, tanY, tanX, 1.0, 0.0, 0.0)
    ensures point.Some? ==> r == Compose([Translate(point.value),
                                          Matrix(1.0, tanY, tanX, 1.0, 0.0, 0.0),
                                          TranslateNeg(point.value)])
    ensures point.Some? ==> TransformMut(point.value, r) == point.value
  {
    var skewMtx := Matrix(1.0, tanY, tanX, 1.0, 0.0, 0.0);
    match point
    case Some(pt) =>
      var back := Translate(Points.Point(-pt.x, -pt.y));
      assert back == TranslateNeg(pt);
      MultiplySplits(Some(Translate(pt)), Some(skewMtx), [back]);
      assert Compose([back]) == Mul(back, Compose([]));
      MulIdentity(back);
      MulAssociative(Translate(pt), skewMtx, back);
      ComposeThree(Translate(pt), skewMtx, back);
      var r := Multiply(Some(Translate(pt)), Some(skewMtx), [back]);
      assert r == Mul(Translate(pt), Mul(skewMtx, back));
      MulApplies(Translate(pt), Mul(skewMtx, back), pt);
      MulApplies(skewMtx, back, pt);
      r
    case None => skewMtx
  }

  /** The instance `m.rotate(angle, center?)`: `multiply(m, rotate(...))`. */
  function RotateBy(m: Matrix, c: real, s: real, center: Option<Point>): (r: Matrix)
    ensures r == Mul(m, RotateCS(c, s, center))
  {
    MultiplyBy(m, RotateCS(c, s, center))
  }

  /** The instance `m.scale(s, center?)`: `multiply(m, scale(...))`. */
  function ScaleBy(m: Matrix, s: ScaleArg, center: Option<Point>): (r: Matrix)
    ensures r == Mul(m, Scale(s, center))
  {
    MultiplyBy(m, Scale(s, center))
  }

  /** The instance `m.translate(p)`: `multiply(m, translate(p))`. */
  function TranslateBy(m: Matrix, p: Point): (r: Matrix)
    ensures r == Mul(m, Translate(p))
  {
    MultiplyBy(m, Translate(p))
  }

  /** The instance `m.skew(angleX, angleY, p?)`: `multiply(m, skew(...))`. */
  function SkewBy(m: Matrix, tanX: real, tanY: real, p: Option<Point>): (r: Matrix)
    ensures r == Mul(m, SkewT(tanX, tanY, p))
  {
    MultiplyBy(m, SkewT(tanX, tanY, p))
  }

  /** The instance forms apply their factory's matrix first and then `m`:
      `m.translate(p)` moves a point by `p` before `m` acts on it. */
  lemma InstanceFormsApply(m: Matrix, p: Point, c: real, s: real, k: ScaleArg,
                           tanX: real, tanY: real, center: Option<Point>, q: Point)
    ensures TransformMut(q, TranslateBy(m, p)) == TransformMut(Points.Sum(q, p), m)
    ensures TransformMut(q, RotateBy(m, c, s, center)) == TransformMut(TransformMut(q, RotateCS(c, s, center)), m)
    ensures TransformMut(q, ScaleBy(m, k, center)) == TransformMut(TransformMut(q, Scale(k, center)), m)
    ensures TransformMut(q, SkewBy(m, tanX, tanY, center)) == TransformMut(TransformMut(q, SkewT(tanX, tanY, center)), m)
  {
    MulApplies(m, Translate(p), q);
    TranslateMoves(p, q);
    MulApplies(m, RotateCS(c, s, center), q);
    MulApplies(m, Scale(k, center), q);
    MulApplies(m, SkewT(tanX, tanY, center), q);
  }

  /** Composing translations adds their offsets. */
  lemma TranslateByAdds(p: Point, q: Point)
    ensures TranslateBy(Translate(p), q) == Translate(Points.Sum(p, q))
    ensures AddTranslate(Translate(p), Translate(q), []) == Translate(Points.Sum(p, q))
  {
  }

  // ---------------------------------------------------------------------
  // Comparison

  /** `subtract(m)`: the component-wise difference. */
  function Subtract(m1: Matrix, m2: Matrix): (r: Matrix)
    ensures r == Matrix(0.0, 0.0, 0.0, 0.0, 0.0, 0.0) <==> m1 == m2
    ensures Matrix(m2.a + r.a, m2.b + r.b, m2.c + r.c, m2.d + r.d, m2.e + r.e, m2.f + r.f) == m1
  {
    Matrix(m1.a - m2.a, m1.b - m2.b, m1.c - m2.c, m1.d - m2.d, m1.e - m2.e, m1.f - m2.f)
  }

  /** All six components of `m` are within `tol` of zero. */
  predicate Within(m: Matrix, tol: real) {
    ScalarMath.Abs(m.a) <= tol && ScalarMath.Abs(m.b) <= tol && ScalarMath.Abs(m.c) <= tol
    && ScalarMath.Abs(m.d) <= tol && ScalarMath.Abs(m.e) <= tol && ScalarMath.Abs(m.f) <= tol
  }

  /** `isUnit()`: every component `close` (within 0.001) to the identity's. */
  function IsUnit(m: Matrix): (r: bool)
    ensures r <==> Within(Subtract(m, Identity()), ScalarMath.FLOAT_EQUAL_PRECISION)
  {
    ScalarMath.Close(m.a, 1.0, None) && ScalarMath.Close(m.b, 0.0, None)
    && ScalarMath.Close(m.c, 0.0, None) && ScalarMath.Close(m.d, 1.0, None)
    && ScalarMath.Close(m.e, 0.0, None) && ScalarMath.Close(m.f, 0.0, None)
  }

  /** Static `Matrix.close(m1, m2)`: with an absent operand, whether both are
      absent; otherwise every component within 0.001. */
  function Close(m1: Option<Matrix>, m2: Option<Matrix>): (r: bool)
    ensures m1.None? || m2.None? ==> (r <==> m1 == m2)
    ensures m1.Some? && m2.Some? ==>
      (r <==> Within(Subtract(m1.value, m2.value), ScalarMath.FLOAT_EQUAL_PRECISION))
  {
    if m1.None? || m2.None? then m1 == m2
    else
      var x, y := m1.value, m2.value;
      ScalarMath.Close(x.a, y.a, None) && ScalarMath.Close(x.b, y.b, None)
      && ScalarMath.Close(x.c, y.c, None) && ScalarMath.Close(x.d, y.d, None)
      && ScalarMath.Close(x.e, y.e, None) && ScalarMath.Close(x.f, y.f, None)
  }

  lemma CloseProperties(m1: Option<Matrix>, m2: Option<Matrix>, m: Matrix)
    ensures Close(m1, m1)
    ensures Close(m1, m2) == Close(m2, m1)
    ensures IsUnit(m) <==> Close(Some(m), Some(Identity()))
  {
  }

  /** `equal(other, threshold)`: every component within `threshold`. */
  function Equal(m: Matrix, other: Matrix, threshold: real): (r: bool)
    ensures r <==> Within(Subtract(m, other), threshold)
  {
    ScalarMath.Abs(m.a - other.a) <= threshold && ScalarMath.Abs(m.b - other.b) <= threshold
    && ScalarMath.Abs(m.c - other.c) <= threshold && ScalarMath.Abs(m.d - other.d) <= threshold
    && ScalarMath.Abs(m.e - other.e) <= threshold && ScalarMath.Abs(m.f - other.f) <= threshold
  }

  lemma EqualProperties(m: Matrix, other: Matrix, threshold: real)
    ensures Equal(m, m, threshold) <==> threshold >= 0.0
    ensures Equal(m, other, threshold) == Equal(other, m, threshold)
    ensures Equal(m, other, 0.0) <==> m == other
  {
  }

  // ---------------------------------------------------------------------
  // Determinant and inverse

  /** `determinant()`: a·d − c·b. */
  function Determinant(m: Matrix): real {
    m.a * m.d - m.c * m.b
  }

  /** The determinant is multiplicative and is 1 for translations. */
  lemma DeterminantProperties(m1: Matrix, m2: Matrix, p: Point)
    ensures Determinant(Mul(m1, m2)) == Determinant(m1) * Determinant(m2)
    ensures Determinant(Identity()) == 1.0 && Determinant(Translate(p)) == 1.0
  {
    DetProduct(m1.a, m1.b, m1.c, m1.d, m2.a, m2.b, m2.c, m2.d);
  }

  /** The product rule for 2×2 determinants on plain coefficients. */
  lemma DetProduct(a1: real, b1: real, c1: real, d1: real, a2: real, b2: real, c2: real, d2: real)
    ensures (a1 * a2 + c1 * b2) * (b1 * c2 + d1 * d2) - (a1 * c2 + c1 * d2) * (b1 * a2 + d1 * b2)
            == (a1 * d1 - c1 * b1) * (a2 * d2 - c2 * b2)
  {
    assert (a1 * a2 + c1 * b2) * (b1 * c2 + d1 * d2)
        == a1 * a2 * b1 * c2 + a1 * a2 * d1 * d2 + c1 * b2 * b1 * c2 + c1 * b2 * d1 * d2;
    assert (a1 * c2 + c1 * d2) * (b1 * a2 + d1 * b2)
        == a1 * c2 * b1 * a2 + a1 * c2 * d1 * b2 + c1 * d2 * b1 * a2 + c1 * d2 * d1 * b2;
    assert (a1 * d1 - c1 * b1) * (a2 * d2 - c2 * b2)
        == a1 * d1 * a2 * d2 - a1 * d1 * c2 * b2 - c1 * b1 * a2 * d2 + c1 * b1 * c2 * b2;
  }

  /** `inverse()`: `None` (the source's `null`) when the determinant is almost
      zero, otherwise the matrix that undoes `m` on both sides. */
  function Inverse(m: Matrix): (r: Option<Matrix>)
    ensures r.None? <==> ScalarMath.AlmostZero(Determinant(m))
    ensures r.Some? ==> Mul(m, r.value) == Identity() && Mul(r.value, m) == Identity()
  {
    var det := Determinant(m);
    if ScalarMath.AlmostZero(det) then None
    else
      InverseLawRight(m);
      InverseLawLeft(m);
      Some(AdjugateOver(m.a, m.b, m.c, m.d, m.e, m.f, det))
  }

  /** The adjugate over the determinant is a right inverse ... */
  lemma InverseLawRight(m: Matrix)
    requires Determinant(m) != 0.0
    ensures var det := Determinant(m);
      Mul(m, AdjugateOver(m.a, m.b, m.c, m.d, m.e, m.f, det)) == Identity()
  {
    assert m == Matrix(m.a, m.b, m.c, m.d, m.e, m.f);
    RightInverse(m.a, m.b, m.c, m.d, m.e, m.f, Determinant(m));
  }

  /** ... and a left inverse. */
  lemma InverseLawLeft(m: Matrix)
    requires Determinant(m) != 0.0
    ensures var det := Determinant(m);
      Mul(AdjugateOver(m.a, m.b, m.c, m.d, m.e, m.f, det), m) == Identity()
  {
    assert m == Matrix(m.a, m.b, m.c, m.d, m.e, m.f);
    LeftInverse(m.a, m.b, m.c, m.d, m.e, m.f, Determinant(m));
  }

  /** The adjugate of (a, b, c, d, e, f) divided by `det`, entry by entry as
      `inverse` writes it. */
  function AdjugateOver(a: real, b: real, c: real, d: real, e: real, f: real, det: real): Matrix
    requires det != 0.0
  {
    Matrix(d / det, -b / det, -c / det, a / det, (c * f - d * e) / det, (b * e - a * f) / det)
  }

  lemma RightInverse(a: real, b: real, c: real, d: real, e: real, f: real, det: real)
    requires det == a * d - c * b && det != 0.0
    ensures Mul(Matrix(a, b, c, d, e, f), AdjugateOver(a, b, c, d, e, f, det)) == Identity()
  {
    RightLinear(a, b, c, d, det);
    RightOffsets(a, b, c, d, e, f, det);
  }

  lemma LeftInverse(a: real, b: real, c: real, d: real, e: real, f: real, det: real)
    requires det == a * d - c * b && det != 0.0
    ensures Mul(AdjugateOver(a, b, c, d, e, f, det), Matrix(a, b, c, d, e, f)) == Identity()
  {
    LeftLinear(a, b, c, d, det);
    LeftOffsets(a, b, c, d, e, f, det);
  }

  lemma RightLinear(a: real, b: real, c: real, d: real, det: real)
    requires det == a * d - c * b && det != 0.0
    ensures a * (d / det) + c * (-b / det) == 1.0
    ensures b * (d / det) + d * (-b / det) == 0.0
    ensures a * (-c / det) + c * (a / det) == 0.0
    ensures b * (-c / det) + d * (a / det) == 1.0
  {
  }

  lemma RightOffsets(a: real, b: real, c: real, d: real, e: real, f: real, det: real)
    requires det == a * d - c * b && det != 0.0
    ensures a * ((c * f - d * e) / det) + c * ((b * e - a * f) / det) + e == 0.0
    ensures b * ((c * f - d * e) / det) + d * ((b * e - a * f) / det) + f == 0.0
  {
  }

  lemma LeftLinear(a: real, b: real, c: real, d: real, det: real)
    requires det == a * d - c * b && det != 0.0
    ensures (d / det) * a + (-c / det) * b == 1.0
    ensures (-b / det) * a + (a / det) * b == 0.0
    ensures (d / det) * c + (-c / det) * d == 0.0
    ensures (-b / det) * c + (a / det) * d == 1.0
  {
  }

  lemma LeftOffsets(a: real, b: real, c: real, d: real, e: real, f: real, det: real)
    requires det == a * d - c * b && det != 0.0
    ensures (d / det) * e + (-c / det) * f + (c * f - d * e) / det == 0.0
    ensures (-b / det) * e + (a / det) * f + (b * e - a * f) / det == 0.0
  {
    LeftOffset(d, e, -c, f, det);
    LeftOffset(-b, e, a, f, det);
  }

  /** (p/det)·e + (q/det)·f cancels against (-(p·e) - q·f)/det. */
  lemma LeftOffset(p: real, e: real, q: real, f: real, det: real)
    requires det != 0.0
    ensures (p / det) * e + (q / det) * f + (-(p * e) - q * f) / det == 0.0
  {
    ScaledQuotient(p, e, det);
    ScaledQuotient(q, f, det);
    QuotientSum(p * e, q * f, -(p * e) - q * f, det);
  }

  lemma ScaledQuotient(x: real, y: real, det: real)
    requires det != 0.0
    ensures (x / det) * y == (x * y) / det
  {
  }

  /** Quotients by the same nonzero value add up as their numerators do. */
  lemma QuotientSum(x: real, y: real, z: real, det: real)
    requires det != 0.0
    ensures x / det + y / det + z / det == (x + y + z) / det
  {
  }

  /** A translation's inverse is the opposite translation. */
  lemma InverseOfTranslate(p: Point)
    ensures Inverse(Translate(p)) == Some(TranslateNeg(p))
  {
  }

  /** The body of `inverse` exactly as written, whose translation part
      carries one negation too many. */
  function InverseAsWritten(m: Matrix): (r: Option<Matrix>)
    ensures r.None? <==> Inverse(m).None?
    ensures r.Some? ==> var inv := Inverse(m).value;
      r.value == Matrix(inv.a, inv.b, inv.c, inv.d, -inv.e, -inv.f)
  {
    var det := Determinant(m);
    if ScalarMath.AlmostZero(det) then None
    else
      Some(AsWrittenOver(m.a, m.b, m.c, m.d, m.e, m.f, det))
  }

  /** The six quotients of `inverse` as written, on plain coefficients: the
      adjugate over the determinant with the translation part negated. */
  function AsWrittenOver(a: real, b: real, c: real, d: real, e: real, f: real, det: real): (r: Matrix)
    requires det != 0.0
    ensures var adj := AdjugateOver(a, b, c, d, e, f, det);
      r == Matrix(adj.a, adj.b, adj.c, adj.d, -adj.e, -adj.f)
  {
    NegateQuotient(c * f - d * e, det);
    NegateQuotient(b * e - a * f, det);
    Matrix(d / det, -b / det, -c / det, a / det, -(c * f - d * e) / det, -(b * e - a * f) / det)
  }

  lemma NegateQuotient(x: real, det: real)
    requires det != 0.0
    ensures -x / det == -(x / det)
  {
  }

  /** On every translation the written `inverse` returns the matrix itself,
      and a translation by a nonzero `p` composed with itself is not the identity. */
  lemma InverseAsWrittenOnTranslations(p: Point)
    ensures InverseAsWritten(Translate(p)) == Some(Translate(p))
    ensures p != Points.Origin ==> Mul(Translate(p), InverseAsWritten(Translate(p)).value) != Identity()
  {
    var t := Translate(p);
    assert Determinant(t) == 1.0;
    var m := Mul(t, t);
    assert m.e == p.x + p.x && m.f == p.y + p.y;
  }

  // ---------------------------------------------------------------------
  // Rounding, applying, predicates, objects

  /** `round()`: every component to four decimals, i.e. the component times
      10^4 lands on the integer nearest to it. */
  function Round(m: Matrix): (r: Matrix)
    ensures r.a * 10000.0 == ScalarMath.JsRound(m.a * 10000.0) as real
    ensures r.b * 10000.0 == ScalarMath.JsRound(m.b * 10000.0) as real
    ensures r.c * 10000.0 == ScalarMath.JsRound(m.c * 10000.0) as real
    ensures r.d * 10000.0 == ScalarMath.JsRound(m.d * 10000.0) as real
    ensures r.e * 10000.0 == ScalarMath.JsRound(m.e * 10000.0) as real
    ensures r.f * 10000.0 == ScalarMath.JsRound(m.f * 10000.0) as real
  {
    assert ScalarMath.Pow10(4) == 10000.0;
    assert (4.0).Floor == 4;
    Matrix(ScalarMath.Precision(m.a, 4.0), ScalarMath.Precision(m.b, 4.0),
           ScalarMath.Precision(m.c, 4.0), ScalarMath.Precision(m.d, 4.0),
           ScalarMath.Precision(m.e, 4.0), ScalarMath.Precision(m.f, 4.0))
  }

  /** Rounding leaves the identity as it is. */
  lemma RoundIdentity()
    ensures Round(Identity()) == Identity()
  {
    var r := Round(Identity());
    assert ScalarMath.JsRound(10000.0) == 10000;
    assert ScalarMath.JsRound(0.0) == 0;
    assert r.a * 10000.0 == 10000.0;
    assert r.e * 10000.0 == 0.0;
  }

  /** `transformPoint(p)`, i.e. `p.transform(this)`. */
  function TransformPoint(m: Matrix, p: Point): (r: Point)
    ensures r == TransformMut(p, m)
  {
    Transform(p, Some(m))
  }

  /** `transformPointCenter(p, center)`: `m` applied in coordinates centred
      on `center`; without a center the point is returned. */
  function TransformPointCenter(m: Matrix, p: Point, center: Option<Point>): (r: Point)
    ensures center.None? ==> r == p
    ensures center.Some? ==>
      r == Points.Sum(TransformMut(Points.Difference(p, center.value), m), center.value)
  {
    match center
    case None => p
    case Some(cn) =>
      CenteredTransform(m, p, cn);
      Transform(p, Some(Multiply(Some(Translate(cn)), Some(m), [Translate(Points.Point(-cn.x, -cn.y))])))
  }

  /** The product `translate(c) · m · translate(-c)` applies `m` to `p - c`
      and adds `c` back. */
  lemma CenteredTransform(m: Matrix, p: Point, cn: Point)
    ensures TransformMut(p, Multiply(Some(Translate(cn)), Some(m), [Translate(Points.Point(-cn.x, -cn.y))]))
         == Points.Sum(TransformMut(Points.Difference(p, cn), m), cn)
  {
    var back := Translate(Points.Point(-cn.x, -cn.y));
    assert back == TranslateNeg(cn);
    var moved := TransformMut(p, back);
    TranslateMoves(cn, p);
    var turned := TransformMut(moved, m);
    TranslateMoves(cn, turned);
    MultiplyApplies(Some(Translate(cn)), Some(m), [back], p);
    ApplyThree(Translate(cn), m, back, p);
  }

  /** Applying three matrices one after the other, the last one first. */
  lemma ApplyThree(x: Matrix, y: Matrix, z: Matrix, q: Point)
    ensures ApplyAll([x, y] + [z], q) == TransformMut(TransformMut(TransformMut(q, z), y), x)
  {
    assert [x, y] + [z] == [x] + [y, z];
    ApplyAllCons(x, [y, z], q);
    assert [y, z] == [y] + [z];
    ApplyAllCons(y, [z], q);
    assert [z] == [z] + [];
    ApplyAllCons(z, [], q);
  }

  /** `ApplyAll` unfolds one matrix at the front. */
  lemma ApplyAllCons(m: Matrix, rest: seq<Matrix>, q: Point)
    ensures ApplyAll([m] + rest, q) == TransformMut(ApplyAll(rest, q), m)
  {
    assert ([m] + rest)[1..] == rest;
  }

  /** A matrix without translation part keeps the center in place. */
  lemma TransformPointCenterFixesCenter(m: Matrix, cn: Point)
    requires m.e == 0.0 && m.f == 0.0
    ensures TransformPointCenter(m, cn, Some(cn)) == cn
  {
    assert Points.Difference(cn, cn) == Points.Origin;
    assert TransformMut(Points.Origin, m) == Points.Origin;
  }

  /** `isMove()`: the linear part is almost the identity's. */
  function IsMove(m: Matrix): (r: bool)
    ensures r <==> (-0.0001 < m.a - 1.0 < 0.0001 && -0.0001 < m.b < 0.0001
                    && -0.0001 < m.c < 0.0001 && -0.0001 < m.d - 1.0 < 0.0001)
  {
    ScalarMath.AlmostZeroInterval(m.a - 1.0);
    ScalarMath.AlmostZeroInterval(m.b);
    ScalarMath.AlmostZeroInterval(m.c);
    ScalarMath.AlmostZeroInterval(m.d - 1.0);
    ScalarMath.AlmostZero(m.a - 1.0) && ScalarMath.AlmostZero(m.b)
    && ScalarMath.AlmostZero(m.c) && ScalarMath.AlmostZero(m.d - 1.0)
  }

  /** Every translation is a move, and so is a rotation by zero; a scaling by 2 is not. */
  lemma IsMoveExamples(p: Point)
    ensures IsMove(Translate(p))
    ensures IsMove(Identity()) && IsMove(RotateCS(1.0, 0.0, Some(p)))
    ensures !IsMove(Scale(ByNumber(2.0), None))
  {
  }

  /** `toObject()`: the plain record of the six components. */
  function ToObject(m: Matrix): (r: map<string, real>)
    ensures r.Keys == {"a", "b", "c", "d", "e", "f"}
    ensures r["a"] == m.a && r["b"] == m.b && r["c"] == m.c
    ensures r["d"] == m.d && r["e"] == m.e && r["f"] == m.f
  {
    map["a" := m.a, "b" := m.b, "c" := m.c, "d" := m.d, "e" := m.e, "f" := m.f]
  }

  /** Reading a record field: absent when the key is missing. */
  function Field(obj: map<string, real>, key: string): Option<real> {
    if key in obj then Some(obj[key]) else None
  }

  /** `Matrix.fromObject(obj)`: the constructor applied to `obj.a` … `obj.f`,
      so a missing field takes the constructor's default. */
  function FromObject(obj: map<string, real>): (r: Matrix)
    ensures r.a == (if "a" in obj then obj["a"] else 1.0)
    ensures r.b == (if "b" in obj then obj["b"] else 0.0)
    ensures r.c == (if "c" in obj then obj["c"] else 0.0)
    ensures r.d == (if "d" in obj then obj["d"] else 1.0)
    ensures r.e == (if "e" in obj then obj["e"] else 0.0)
    ensures r.f == (if "f" in obj then obj["f"] else 0.0)
  {
    Construct(Field(obj, "a"), Field(obj, "b"), Field(obj, "c"),
              Field(obj, "d"), Field(obj, "e"), Field(obj, "f"))
  }

  /** `fromObject(m.toObject())` is `m` exactly; an empty record gives the identity. */
  lemma ObjectRoundTrip(m: Matrix)
    ensures FromObject(ToObject(m)) == m
    ensures FromObject(map[]) == Identity()
  {
  }
}
