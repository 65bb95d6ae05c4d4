/** The affine curve group `CurvePoint`: a point is the identity or a pair of
    field elements, and the curve is y² = x³ + a·x + b over one of the field
    classes. A curve class supplies its field and its coefficients `a` and
    `b`; here that is the `Curve` value every operation takes. Operations that
    throw in the source (reading `P` of the identity, the assertion in `add`)
    return `Err`. */
module CurveGroup {
  import opened Wrappers
  import opened Arith
  import PF = PrimeField
  import Fld = Fields

  /** A curve class: its coordinate field and the coefficients a and b. */
  datatype Curve = Curve(F: Fld.Field, a: seq<int>, b: seq<int>)

  predicate ValidCurve(C: Curve)
  {
    Fld.Valid(C.F) && |C.a| == Fld.Dim(C.F) && |C.b| == Fld.Dim(C.F)
  }

  /** `new C(x, y)` or `C.identity()`. */
  datatype Point = Identity | Affine(x: seq<int>, y: seq<int>)

  /** Both coordinates have the field's number of coefficients. */
  predicate Fits(C: Curve, P: Point)
  {
    P.Affine? ==> |P.x| == Fld.Dim(C.F) && |P.y| == Fld.Dim(C.F)
  }

  /** Both coordinates are reduced elements of the field. */
  predicate OnField(C: Curve, P: Point)
  {
    P.Affine? ==> Fld.IsElem(C.F, P.x) && Fld.IsElem(C.F, P.y)
  }

  /** `is_well_defined`: `y.pow(2) − x.pow(3) − x·a == b`. */
  function IsWellDefined(C: Curve, P: Point): (r: bool)
    requires ValidCurve(C) && Fits(C, P)
    ensures P.Identity? ==> r
  {
    match P
    case Identity => true
    case Affine(x, y) =>
      var F := C.F;
      Fld.Eq(F, Fld.Sub(F, Fld.Sub(F, Fld.Pow(F, y, 2), Fld.Pow(F, x, 3)), Fld.Mul(F, x, C.a)), C.b)
  }

  /** −l·x' + l·x − y: the y-coordinate of the sum or double, given the
      slope l, the new x' and one point (x, y) the line passes through. */
  function LineY(F: Fld.Field, l: seq<int>, nx: seq<int>, x: seq<int>, y: seq<int>): (r: seq<int>)
    requires Fld.Valid(F) && |l| == |nx| == |x| == |y| == Fld.Dim(F)
    ensures Fld.IsElem(F, r)
  {
    Fld.Sub(F, Fld.Add(F, Fld.Mul(F, Fld.Neg(F, l), nx), Fld.Mul(F, l, x)), y)
  }

  /** The tangent slope 3x²/(2y) of `double`. */
  function TangentSlope(F: Fld.Field, x: seq<int>, y: seq<int>): (l: seq<int>)
    requires Fld.Valid(F) && |x| == |y| == Fld.Dim(F)
    ensures |l| == Fld.Dim(F)
  {
    Fld.Div(F, Fld.MulInt(F, Fld.Pow(F, x, 2), 3), Fld.MulInt(F, y, 2))
  }

  /** `double`. Nothing guards the identity, whose missing `P` makes the
      source throw, nor y = 0, where the slope divides by zero. */
  function Double(C: Curve, P: Point): (r: Result<Point>)
    requires ValidCurve(C) && Fits(C, P)
    ensures r.Err? <==> P.Identity?
    ensures r.Ok? ==> r.value.Affine? && OnField(C, r.value)
  {
    match P
    case Identity => Err(MissingProperty)
    case Affine(x, y) =>
      var F := C.F;
      var l := TangentSlope(F, x, y);
      var nx := Fld.Sub(F, Fld.Pow(F, l, 2), Fld.MulInt(F, x, 2));
      Ok(Affine(nx, LineY(F, l, nx, x, y)))
  }

  /** The chord step of `add` for two points with different x, including the
      assertion that the line through the second point gives the same y. */
  function Chord(F: Fld.Field, x1: seq<int>, y1: seq<int>, x2: seq<int>, y2: seq<int>): (r: Result<Point>)
    requires Fld.Valid(F) && |x1| == |y1| == |x2| == |y2| == Fld.Dim(F)
    ensures r.Err? ==> r.error == AssertionFailed
  {
    var l := Fld.Div(F, Fld.Sub(F, y2, y1), Fld.Sub(F, x2, x1));
    var nx := Fld.Sub(F, Fld.Sub(F, Fld.Mul(F, l, l), x1), x2);
    var ny := LineY(F, l, nx, x1, y1);
    if Fld.Eq(F, ny, LineY(F, l, nx, x2, y2)) then Ok(Affine(nx, ny)) else Err(AssertionFailed)
  }

  /** `add`. */
  function Add(C: Curve, P: Point, Q: Point): (r: Result<Point>)
    requires ValidCurve(C) && Fits(C, P) && Fits(C, Q)
    ensures r.Ok? && OnField(C, P) && OnField(C, Q) ==> OnField(C, r.value)
    ensures P.Identity? ==> r == Ok(Q)
    ensures P.Affine? && Q.Identity? ==> r == Ok(P)
    ensures P.Affine? && P == Q ==> r == Double(C, P)
    ensures P.Affine? && Q.Affine? && P != Q && P.x == Q.x ==> r == Ok(Identity)
    ensures r.Err? ==> P.Affine? && Q.Affine? && P.x != Q.x && r.error == AssertionFailed
  {
    if P.Identity? then Ok(Q)
    else if Q.Identity? then Ok(P)
    else if Fld.Eq(C.F, P.x, Q.x) && Fld.Eq(C.F, P.y, Q.y) then Double(C, P)
    else if Fld.Eq(C.F, P.x, Q.x) then Ok(Identity)
    else Chord(C.F, P.x, P.y, Q.x, Q.y)
  }

  /** `neg` */
  function Neg(C: Curve, P: Point): (r: Point)
    requires ValidCurve(C) && Fits(C, P)
    ensures Fits(C, r) && (r.Identity? <==> P.Identity?)
    ensures P.Affine? ==> r.x == P.x && forall i :: 0 <= i < |r.y| ==> r.y[i] == (-P.y[i]) % C.F.p
  {
    match P
    case Identity => Identity
    case Affine(x, y) => Affine(x, Fld.Neg(C.F, y))
  }

  /** `multiply`: double-and-add on the bits of n, with BigInt's truncating
      `n / 2n` and `n % 2n`. */
  function Multiply(C: Curve, P: Point, n: int): (r: Result<Point>)
    requires ValidCurve(C) && Fits(C, P)
    ensures r.Ok? && OnField(C, P) ==> OnField(C, r.value)
    ensures P.Identity? ==> r == Ok(Identity)
    ensures P.Affine? && n == 0 ==> r == Ok(Identity)
    ensures n == 1 ==> r == Ok(P)
    decreases Abs(n)
  {
    if P.Identity? then Ok(P)
    else if n == 0 then Ok(Identity)
    else if n == 1 then Ok(P)
    else
      var h := Multiply(C, Double(C, P).value, TruncDiv(n, 2));
      if TruncRem(n, 2) == 0 || h.Err? then h
      else Add(C, h.value, P)
  }

  /** `eq`: the coordinates compared; reading `x` of the identity throws. */
  function Eq(C: Curve, P: Point, Q: Point): (r: Result<bool>)
    requires Fits(C, P) && Fits(C, Q)
    ensures r.Err? <==> P.Identity? || Q.Identity?
    ensures r.Ok? ==> (r.value <==> P == Q)
  {
    if P.Identity? || Q.Identity? then Err(MissingProperty)
    else Ok(Fld.Eq(C.F, P.x, Q.x) && Fld.Eq(C.F, P.y, Q.y))
  }

  // ---------------------------------------------------------------------------
  // The curve equation

  /** Over a prime field the check is y² − x³ − a·x ≡ b (mod p). */
  lemma WellDefinedPrime(C: Curve, x: int, y: int)
    requires ValidCurve(C) && C.F.Prime? && Fld.IsElem(C.F, C.b)
    ensures IsWellDefined(C, Affine([x], [y])) <==> (y * y - x * x * x - x * C.a[0] - C.b[0]) % C.F.p == 0
  {
    var p := C.F.p;
    Fld.PowSmallPrime(x, p);
    Fld.PowSmallPrime(y, p);
    ModMulLeft(x * x, x, p);
    var lhs := (((y * y) % p - (x * x * x) % p) % p - (x * C.a[0]) % p) % p;
    ModSubThree(y * y, x * x * x, x * C.a[0], p);
    assert lhs == (y * y - x * x * x - x * C.a[0]) % p;
    ModOfReduced(C.b[0], p);
    ModSub(y * y - x * x * x - x * C.a[0], C.b[0], p);
    ModOfReduced(0, p);
    if lhs == C.b[0] {
      assert (lhs - C.b[0]) % p == 0;
    } else {
      assert 0 < lhs - C.b[0] < p || -p < lhs - C.b[0] < 0;
      NonzeroResidueDifference(lhs, C.b[0], p);
    }
  }

  /** In any field the check is y·y − (x·x)·x − x·a == b, in the class's `mul`. */
  lemma WellDefinedByMul(C: Curve, P: Point)
    requires ValidCurve(C) && Fits(C, P) && P.Affine?
    ensures IsWellDefined(C, P) <==> Fld.Sub(C.F, Fld.Sub(C.F, Fld.Mul(C.F, P.y, P.y), Fld.Mul(C.F, Fld.Mul(C.F, P.x, P.x), P.x)), Fld.Mul(C.F, P.x, C.a)) == C.b
  {
    Fld.PowSmall(C.F, P.x);
    Fld.PowSmall(C.F, P.y);
  }

  lemma ModSubThree(u: int, v: int, w: int, p: int)
    requires p > 0
    ensures ((u % p - v % p) % p - w % p) % p == (u - v - w) % p
  {
    ModSub(u, v, p);
    ModSub(u - v, w, p);
    ModIdempotent(u - v, p);
  }

  /** Two distinct residues differ by a non-multiple of p. */
  lemma NonzeroResidueDifference(a: int, b: int, p: int)
    requires p > 0 && 0 <= a < p && 0 <= b < p && a != b
    ensures (a - b) % p != 0
  {
    if a > b {
      ModOfReduced(a - b, p);
    } else {
      ModShift(a - b, p, 1);
      ModOfReduced(p + (a - b), p);
    }
  }

  // ---------------------------------------------------------------------------
  // The chord assertion

  /** Division by a nonzero residue of a prime field has one answer. */
  lemma QuotientUnique(u: int, v: int, b: int, p: int)
    requires IsPrime(p) && 0 <= u < p && 0 <= v < p && b >= 0 && b % p != 0
    requires (u * b) % p == (v * b) % p
    ensures u == v
  {
    var i := PF.Inverse(b, p);
    PF.InverseCorrect(b, p);
    ScaleBack(u, b, i, p);
    ScaleBack(v, b, i, p);
    ModMulLeft(u * b, i, p);
    ModMulLeft(v * b, i, p);
    ModOfReduced(u, p);
    ModOfReduced(v, p);
  }

  lemma ScaleBack(u: int, b: int, i: int, p: int)
    requires p > 1 && (i * b) % p == 1
    ensures (u * b * i) % p == u % p
  {
    Regroup(u, b, i);
    ModMul(u, i * b, p);
    assert (u % p) * ((i * b) % p) == u % p;
    ModIdempotent(u, p);
  }

  lemma Regroup(u: int, b: int, i: int)
    ensures u * b * i == u * (i * b)
  {
  }

  /** The slope of the chord: l·(x2 − x1) ≡ y2 − y1. */
  lemma SlopeProperty(x1: int, y1: int, x2: int, y2: int, p: int)
    requires IsPrime(p) && 0 <= x1 < p && 0 <= x2 < p && x1 != x2
    ensures (PF.Div((y2 - y1) % p, (x2 - x1) % p, p) * (x2 - x1)) % p == (y2 - y1) % p
  {
    NonzeroResidueDifference(x2, x1, p);
    ModIdempotent(x2 - x1, p);
    ModIdempotent(y2 - y1, p);
    var l := PF.Div((y2 - y1) % p, (x2 - x1) % p, p);
    ModMul(l, x2 - x1, p);
    ModOfReduced(l, p);
  }

  /** Negating both differences keeps the congruence l·dx ≡ dy. */
  lemma NegatedDifferences(v: int, x1: int, y1: int, x2: int, y2: int, p: int)
    requires p > 0 && (v * (x1 - x2)) % p == (y1 - y2) % p
    ensures (v * (x2 - x1)) % p == (y2 - y1) % p
  {
    assert v * (x2 - x1) == -(v * (x1 - x2));
    ModNeg(v * (x1 - x2), p);
    ModNeg(y1 - y2, p);
  }

  /** Swapping the points negates both differences and keeps the slope. */
  lemma SlopeSymmetric(x1: int, y1: int, x2: int, y2: int, p: int)
    requires IsPrime(p) && 0 <= x1 < p && 0 <= x2 < p && x1 != x2
    ensures PF.Div((y2 - y1) % p, (x2 - x1) % p, p) == PF.Div((y1 - y2) % p, (x1 - x2) % p, p)
  {
    var u := PF.Div((y2 - y1) % p, (x2 - x1) % p, p);
    var v := PF.Div((y1 - y2) % p, (x1 - x2) % p, p);
    SlopeProperty(x1, y1, x2, y2, p);
    SlopeProperty(x2, y2, x1, y1, p);
    NegatedDifferences(v, x1, y1, x2, y2, p);
    NonzeroResidueDifference(x2, x1, p);
    SameQuotient(u, v, x2 - x1, p);
  }

  lemma SameQuotient(u: int, v: int, w: int, p: int)
    requires IsPrime(p) && 0 <= u < p && 0 <= v < p && w % p != 0
    requires (u * w) % p == (v * w) % p
    ensures u == v
  {
    var r := w % p;
    ModMul(u, w, p);
    ModMul(v, w, p);
    ModOfReduced(u, p);
    ModOfReduced(v, p);
    assert (u * r) % p == (v * r) % p;
    ModIdempotent(w, p);
    QuotientUnique(u, v, r, p);
  }

  /** The two y-formulas of `add` agree when l·(x2 − x1) ≡ y2 − y1. */
  lemma LineYAgree(l: int, t: int, x1: int, y1: int, x2: int, y2: int, p: int)
    requires p > 0 && (l * (x2 - x1)) % p == (y2 - y1) % p
    ensures PF.Sub(PF.Add(t, PF.Mul(l, x1, p), p), y1, p) == PF.Sub(PF.Add(t, PF.Mul(l, x2, p), p), y2, p)
  {
    AddThenSub(t, l * x1, y1, p);
    AddThenSub(t, l * x2, y2, p);
    Distribute(l, x1, x2);
    ShiftCongruent(t, l * x1, y1, l * x2, y2, p);
  }

  lemma AddThenSub(t: int, m: int, y: int, p: int)
    requires p > 0
    ensures PF.Sub(PF.Add(t, m % p, p), y, p) == (t + m - y) % p
  {
    ModAddLeft(m, t, p);
    ModAddLeft(t + m, -y, p);
  }

  lemma Distribute(l: int, x1: int, x2: int)
    ensures l * (x2 - x1) == l * x2 - l * x1
  {
  }

  lemma ShiftCongruent(t: int, m1: int, y1: int, m2: int, y2: int, p: int)
    requires p > 0 && (m2 - m1) % p == (y2 - y1) % p
    ensures (t + m1 - y1) % p == (t + m2 - y2) % p
  {
    var d := (y2 - y1) - (m2 - m1);
    ModSub(y2 - y1, m2 - m1, p);
    ModOfReduced(0, p);
    assert d % p == 0;
    assert d == p * (d / p);
    CongruentOfMultiple(t + m1 - y1, t + m2 - y2, p, d / p);
  }

  /** `LineY` over the prime field, on residues. */
  lemma LineYPrime(F: Fld.Field, l: int, nx: int, x: int, y: int)
    requires Fld.Valid(F) && F.Prime?
    ensures LineY(F, [l], [nx], [x], [y]) == [PF.Sub(PF.Add(PF.Mul(PF.Neg(l, F.p), nx, F.p), PF.Mul(l, x, F.p), F.p), y, F.p)]
  {
  }

  /** Over a field of prime order the assertion in `add` always holds: the
      chord step never fails. */
  lemma ChordAssertionHolds(F: Fld.Field, x1: int, y1: int, x2: int, y2: int)
    requires Fld.Valid(F) && F.Prime? && IsPrime(F.p)
    requires 0 <= x1 < F.p && 0 <= x2 < F.p && x1 != x2
    ensures Chord(F, [x1], [y1], [x2], [y2]).Ok?
  {
    var p := F.p;
    var l := PF.Div((y2 - y1) % p, (x2 - x1) % p, p);
    assert Fld.Div(F, Fld.Sub(F, [y2], [y1]), Fld.Sub(F, [x2], [x1])) == [l];
    SlopeProperty(x1, y1, x2, y2, p);
    var nx := PF.Sub(PF.Sub(PF.Mul(l, l, p), x1, p), x2, p);
    assert Fld.Sub(F, Fld.Sub(F, Fld.Mul(F, [l], [l]), [x1]), [x2]) == [nx];
    LineYPrime(F, l, nx, x1, y1);
    LineYPrime(F, l, nx, x2, y2);
    LineYAgree(l, PF.Mul(PF.Neg(l, p), nx, p), x1, y1, x2, y2, p);
  }

  /** The new x of the chord, l·l − x1 − x2, is symmetric in the points. */
  lemma ChordXSymmetric(m: int, x1: int, x2: int, p: int)
    requires p > 0
    ensures PF.Sub(PF.Sub(m, x1, p), x2, p) == PF.Sub(PF.Sub(m, x2, p), x1, p)
  {
    ModAddLeft(m - x1, -x2, p);
    ModAddLeft(m - x2, -x1, p);
  }

  /** Over a field of prime order the chord step is symmetric in its points. */
  lemma ChordSwap(F: Fld.Field, x1: int, y1: int, x2: int, y2: int)
    requires Fld.Valid(F) && F.Prime? && IsPrime(F.p)
    requires 0 <= x1 < F.p && 0 <= x2 < F.p && x1 != x2
    ensures Chord(F, [x1], [y1], [x2], [y2]) == Chord(F, [x2], [y2], [x1], [y1])
  {
    var p := F.p;
    SlopeSymmetric(x1, y1, x2, y2, p);
    var l := PF.Div((y2 - y1) % p, (x2 - x1) % p, p);
    assert Fld.Div(F, Fld.Sub(F, [y2], [y1]), Fld.Sub(F, [x2], [x1])) == [l];
    assert Fld.Div(F, Fld.Sub(F, [y1], [y2]), Fld.Sub(F, [x1], [x2])) == [l];
    ChordXSymmetric(PF.Mul(l, l, p), x1, x2, p);
    ChordAssertionHolds(F, x1, y1, x2, y2);
    ChordAssertionHolds(F, x2, y2, x1, y1);
  }

  /** Over a field of prime order `add` is commutative on reduced points. */
  lemma AddCommutes(C: Curve, P: Point, Q: Point)
    requires ValidCurve(C) && C.F.Prime? && IsPrime(C.F.p)
    requires OnField(C, P) && OnField(C, Q)
    ensures Add(C, P, Q) == Add(C, Q, P)
  {
    if P.Affine? && Q.Affine? && P.x != Q.x {
      assert P.x == [P.x[0]] && Q.x == [Q.x[0]] && P.y == [P.y[0]] && Q.y == [Q.y[0]];
      ChordSwap(C.F, P.x[0], P.y[0], Q.x[0], Q.y[0]);
    }
  }

  /** Over a field of prime order `add` of reduced points never fails: the
      chord's assertion holds whenever it is reached. */
  lemma AddNeverFails(C: Curve, P: Point, Q: Point)
    requires ValidCurve(C) && C.F.Prime? && IsPrime(C.F.p)
    requires OnField(C, P) && OnField(C, Q)
    ensures Add(C, P, Q).Ok?
  {
    if P.Affine? && Q.Affine? && P.x != Q.x {
      assert P.x == [P.x[0]] && Q.x == [Q.x[0]] && P.y == [P.y[0]] && Q.y == [Q.y[0]];
      ChordAssertionHolds(C.F, P.x[0], P.y[0], Q.x[0], Q.y[0]);
    }
  }

  // ---------------------------------------------------------------------------
  // Negation

  /** `neg` is an involution on reduced points. */
  lemma NegInvolution(C: Curve, P: Point)
    requires ValidCurve(C) && OnField(C, P)
    ensures Neg(C, Neg(C, P)) == P
  {
    if P.Affine? {
      var p := C.F.p;
      forall i | 0 <= i < |P.y|
        ensures Neg(C, Neg(C, P)).y[i] == P.y[i]
      {
        ModNeg(-P.y[i], p);
        ModOfReduced(P.y[i], p);
      }
    }
  }

  /** A point added to its negation is the identity, unless y = −y, when
      they are the same point and `add` doubles it. */
  lemma AddNegation(C: Curve, P: Point)
    requires ValidCurve(C) && Fits(C, P)
    ensures P.Affine? && P.y != Neg(C, P).y ==> Add(C, P, Neg(C, P)) == Ok(Identity)
    ensures P.Affine? && P.y == Neg(C, P).y ==> Add(C, P, Neg(C, P)) == Double(C, P)
    ensures P.Identity? ==> Add(C, P, Neg(C, P)) == Ok(Identity)
  {
  }

  // ---------------------------------------------------------------------------
  // Doubling

  /** With y = 0 the slope divides by zero and becomes zero, so `double`
      returns (−2x, 0) instead of the identity. */
  lemma DoubleAtZeroY(C: Curve, x: seq<int>)
    requires ValidCurve(C) && |x| == Fld.Dim(C.F)
    ensures Double(C, Affine(x, Fld.Zero(C.F))) == Ok(Affine(Fld.Sub(C.F, Fld.Zero(C.F), Fld.MulInt(C.F, x, 2)), Fld.Zero(C.F)))
  {
    var F := C.F;
    var z := Fld.Zero(F);
    assert Fld.MulInt(F, z, 2) == z;
    Fld.DivByZero(F, Fld.MulInt(F, Fld.Pow(F, x, 2), 3));
    Fld.PowSmall(F, z);
    Fld.MulByZero(F, z);
    var nx := Fld.Sub(F, z, Fld.MulInt(F, x, 2));
    assert Fld.Neg(F, z) == z;
    Fld.MulZeroLeft(F, nx);
    Fld.MulZeroLeft(F, x);
    assert Fld.Add(F, z, z) == z;
    assert Fld.Sub(F, z, z) == z;
  }

  // ---------------------------------------------------------------------------
  // Scalar multiplication

  /** Unfolding of `multiply` for |n| ≥ 2 on a point. */
  lemma MultiplyStep(C: Curve, P: Point, n: int)
    requires ValidCurve(C) && Fits(C, P) && P.Affine? && n != 0 && n != 1
    ensures Double(C, P).Ok?
    ensures TruncRem(n, 2) == 0 ==> Multiply(C, P, n) == Multiply(C, Double(C, P).value, TruncDiv(n, 2))
    ensures TruncRem(n, 2) != 0 ==>
      Multiply(C, P, n) == (var h := Multiply(C, Double(C, P).value, TruncDiv(n, 2)); if h.Err? then h else Add(C, h.value, P))
  {
  }

  /** `multiply` by n and by −n agree on P. */
  predicate SignBlind(C: Curve, P: Point, n: int)
    requires ValidCurve(C) && Fits(C, P)
  {
    Multiply(C, P, -n) == Multiply(C, P, n)
  }

  /** n and −n give the same multiple once their halves do. */
  lemma NegatedHalves(C: Curve, P: Point, n: int)
    requires ValidCurve(C) && Fits(C, P) && P.Affine? && n != 0 && n != 1 && n != -1
    requires SignBlind(C, Double(C, P).value, TruncDiv(n, 2))
    ensures SignBlind(C, P, n)
  {
    TruncOfNegated(n, 2);
    var D := Double(C, P).value;
    var h := Multiply(C, D, TruncDiv(n, 2));
    assert Multiply(C, D, TruncDiv(-n, 2)) == h;
    MultiplyStep(C, P, n);
    MultiplyStep(C, P, -n);
    if TruncRem(n, 2) == 0 {
      assert TruncRem(-n, 2) == 0;
      assert Multiply(C, P, n) == h;
      assert Multiply(C, P, -n) == h;
    } else {
      assert TruncRem(-n, 2) != 0;
    }
  }

  /** 2·P is the double and 3·P is the double plus P. */
  lemma MultiplySmall(C: Curve, P: Point)
    requires ValidCurve(C) && Fits(C, P) && P.Affine?
    ensures Multiply(C, P, 2) == Double(C, P)
    ensures Multiply(C, P, 3) == Add(C, Double(C, P).value, P)
  {
    TruncOfNatural(2, 2);
    TruncOfNatural(3, 2);
  }

  /** (−1)·P is P: the half is 0 and the remainder −1 counts as odd. */
  lemma MultiplyMinusOne(C: Curve, P: Point)
    requires ValidCurve(C) && Fits(C, P) && P.Affine?
    ensures Multiply(C, P, -1) == Ok(P)
  {
    assert TruncDiv(-1, 2) == 0 && TruncRem(-1, 2) == -1;
    assert Multiply(C, Double(C, P).value, 0) == Ok(Identity);
  }

  /** Because BigInt `/` and `%` truncate, `multiply` ignores the sign of n. */
  lemma {:induction false} MultiplySign(C: Curve, P: Point, n: int)
    requires ValidCurve(C) && Fits(C, P)
    ensures SignBlind(C, P, n)
    decreases Abs(n)
  {
    if P.Affine? && n != 0 {
      if n == 1 || n == -1 {
        MultiplyMinusOne(C, P);
      } else {
        MultiplySign(C, Double(C, P).value, TruncDiv(n, 2));
        NegatedHalves(C, P, n);
      }
    }
  }

  /** Over a field of prime order `multiply` of a reduced point never fails. */
  lemma {:induction false} MultiplyNeverFails(C: Curve, P: Point, n: int)
    requires ValidCurve(C) && C.F.Prime? && IsPrime(C.F.p) && OnField(C, P)
    ensures Multiply(C, P, n).Ok?
    decreases Abs(n)
  {
    if P.Affine? && n != 0 && n != 1 {
      var D := Double(C, P).value;
      MultiplyNeverFails(C, D, TruncDiv(n, 2));
      AddNeverFails(C, Multiply(C, D, TruncDiv(n, 2)).value, P);
    }
  }
}
