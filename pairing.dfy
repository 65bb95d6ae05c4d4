/** The optimal-ate pairing code of alt_bn128_pairing.js and mnt4_pairing.js:
    the line function, the cast of a G1 point into FQ12, the Miller loop over
    the bits of `ate_loop_count` and the `pairing` entry points. The two files
    share their arithmetic and differ in how a point at infinity looks: a
    curve-point object whose `P` is unset (alt_bn128), or `null` (MNT4). */
module Pairing {
  import opened Wrappers
  import opened Arith
  import PF = PrimeField
  import PL = ProductLaws
  import Fld = Fields
  import CG = CurveGroup
  import Cv = Curves

  /** Which of the two pairing files an operation follows. */
  datatype Variant = AltBn128 | Mnt4

  /** What `linefunc` raises on a point at infinity: reading `P` of the
      identity object throws, and `null` fails the assertion. */
  function Absent(v: Variant): Fault
  {
    if v.AltBn128? then MissingProperty else AssertionFailed
  }

  const AteLoopCount: nat := 29793968203157093288
  const LogAteLoopCount: nat := 63

  /** The curve the loop works on: FQ12 with the generic `mul`. */
  predicate PairingCurve(C: CG.Curve)
  {
    Cv.TwistField(C.F) && CG.ValidCurve(C)
  }

  /** A point of the prime-field curve: one residue per coordinate. */
  predicate G1Point(P: CG.Point)
  {
    P.Affine? ==> |P.x| == 1 && |P.y| == 1
  }

  // ---------------------------------------------------------------------------
  // The line function

  /** The value at (xt, yt) of the line through (x1, y1) and (x2, y2): the
      chord when the x differ, the tangent when the points are equal, the
      vertical line otherwise. */
  function Line(F: Fld.Field, x1: seq<int>, y1: seq<int>, x2: seq<int>, y2: seq<int>,
                xt: seq<int>, yt: seq<int>): (r: seq<int>)
    requires Fld.Valid(F)
    requires |x1| == |y1| == |x2| == |y2| == |xt| == |yt| == Fld.Dim(F)
    ensures Fld.IsElem(F, r)
  {
    if !Fld.Eq(F, x1, x2) then
      var m := Fld.Div(F, Fld.Sub(F, y2, y1), Fld.Sub(F, x2, x1));
      Fld.Sub(F, Fld.Mul(F, m, Fld.Sub(F, xt, x1)), Fld.Sub(F, yt, y1))
    else if Fld.Eq(F, y1, y2) then
      var m := CG.TangentSlope(F, x1, y1);
      Fld.Sub(F, Fld.Mul(F, m, Fld.Sub(F, xt, x1)), Fld.Sub(F, yt, y1))
    else
      Fld.Sub(F, xt, x1)
  }

  /** `linefunc(P1, P2, T)`: fails on a point at infinity, otherwise the
      line through P1 and P2 evaluated at T. */
  function LineFunc(v: Variant, C: CG.Curve, P1: CG.Point, P2: CG.Point, T: CG.Point): (r: Result<seq<int>>)
    requires CG.ValidCurve(C) && CG.Fits(C, P1) && CG.Fits(C, P2) && CG.Fits(C, T)
    ensures r.Err? <==> P1.Identity? || P2.Identity? || T.Identity?
    ensures r.Err? ==> r.error == Absent(v)
    ensures r.Ok? ==> Fld.IsElem(C.F, r.value)
  {
    if P1.Identity? || P2.Identity? || T.Identity? then Err(Absent(v))
    else Ok(Line(C.F, P1.x, P1.y, P2.x, P2.y, T.x, T.y))
  }

  /** x − x is zero. */
  lemma SubSelf(F: Fld.Field, a: seq<int>)
    requires Fld.Valid(F) && |a| == Fld.Dim(F)
    ensures Fld.Sub(F, a, a) == Fld.Zero(F)
  {
    var s := Fld.Sub(F, a, a);
    assert forall i :: 0 <= i < |s| ==> s[i] == Fld.Zero(F)[i];
  }

  /** m·0 − 0 is zero. */
  lemma ScaledZero(F: Fld.Field, m: seq<int>)
    requires Fld.Valid(F) && |m| == Fld.Dim(F)
    ensures Fld.Sub(F, Fld.Mul(F, m, Fld.Zero(F)), Fld.Zero(F)) == Fld.Zero(F)
  {
    Fld.MulByZero(F, m);
    SubSelf(F, Fld.Zero(F));
  }

  /** In each of its three branches the line passes through P1. */
  lemma LineVanishesAtFirst(v: Variant, C: CG.Curve, P1: CG.Point, P2: CG.Point)
    requires CG.ValidCurve(C) && CG.Fits(C, P1) && CG.Fits(C, P2) && P1.Affine? && P2.Affine?
    ensures LineFunc(v, C, P1, P2, P1) == Ok(Fld.Zero(C.F))
  {
    var F := C.F;
    SubSelf(F, P1.x);
    SubSelf(F, P1.y);
    if !Fld.Eq(F, P1.x, P2.x) {
      ScaledZero(F, Fld.Div(F, Fld.Sub(F, P2.y, P1.y), Fld.Sub(F, P2.x, P1.x)));
    } else if Fld.Eq(F, P1.y, P2.y) {
      ScaledZero(F, CG.TangentSlope(F, P1.x, P1.y));
    }
  }

  /** The chord through two points of different x of a prime field of prime
      order vanishes at the second point. */
  lemma ChordAtSecond(p: int, x1: int, y1: int, x2: int, y2: int)
    requires IsPrime(p) && 0 <= x1 < p && 0 <= x2 < p && x1 != x2
    ensures Line(Fld.Prime(p), [x1], [y1], [x2], [y2], [x2], [y2]) == [0]
  {
    var F := Fld.Prime(p);
    var dx := Fld.Sub(F, [x2], [x1]);
    var dy := Fld.Sub(F, [y2], [y1]);
    assert dx == [(x2 - x1) % p];
    var m := ChordSlope(p, x1, y1, x2, y2);
    SlopeTimesRun(m, x1, y1, x2, y2, p);
    assert Fld.Mul(F, [m], dx) == dy;
    SubSelf(F, dy);
  }

  /** The chord slope times x2 − x1 is y2 − y1. */
  lemma SlopeTimesRun(m: int, x1: int, y1: int, x2: int, y2: int, p: int)
    requires IsPrime(p) && 0 <= x1 < p && 0 <= x2 < p && x1 != x2
    requires m == ChordSlope(p, x1, y1, x2, y2)
    ensures (m * ((x2 - x1) % p)) % p == (y2 - y1) % p
  {
    assert m == PF.Div((y2 - y1) % p, (x2 - x1) % p, p);
    CG.SlopeProperty(x1, y1, x2, y2, p);
    ModMul(m, x2 - x1, p);
    ModOfReduced(m, p);
  }

  /** The chord slope (y2 − y1)/(x2 − x1) of the prime field. */
  function ChordSlope(p: int, x1: int, y1: int, x2: int, y2: int): (m: int)
    requires p > 1
    ensures m == Fld.Div(Fld.Prime(p), Fld.Sub(Fld.Prime(p), [y2], [y1]), Fld.Sub(Fld.Prime(p), [x2], [x1]))[0]
    ensures 0 <= m < p
  {
    Fld.Div(Fld.Prime(p), Fld.Sub(Fld.Prime(p), [y2], [y1]), Fld.Sub(Fld.Prime(p), [x2], [x1]))[0]
  }

  /** The line also passes through P2: the vertical line for equal x in any
      field (the tangent case has P2 = P1), the chord over a prime field of
      prime order, where division inverts. */
  lemma LineVanishesAtSecond(v: Variant, C: CG.Curve, P1: CG.Point, P2: CG.Point)
    requires CG.ValidCurve(C) && CG.OnField(C, P1) && CG.OnField(C, P2) && P1.Affine? && P2.Affine?
    requires P1.x == P2.x || (C.F.Prime? && IsPrime(C.F.p))
    ensures LineFunc(v, C, P1, P2, P2) == Ok(Fld.Zero(C.F))
  {
    var F := C.F;
    if P1.x != P2.x {
      assert P1 == CG.Affine([P1.x[0]], [P1.y[0]]) && P2 == CG.Affine([P2.x[0]], [P2.y[0]]);
      ChordAtSecond(F.p, P1.x[0], P1.y[0], P2.x[0], P2.y[0]);
    } else if P1.y == P2.y {
      LineVanishesAtFirst(v, C, P1, P2);
    } else {
      SubSelf(F, P2.x);
    }
  }

  // ---------------------------------------------------------------------------
  // The cast into FQ12

  /** `cast_point_to_fq12`: the residue of each coordinate becomes
      coefficient 0 of a 12-coefficient element. The alt_bn128 version reads
      `P` of the identity and throws; the MNT4 version maps `null` to `null`. */
  function Cast(v: Variant, p: int, P: CG.Point): (r: Result<CG.Point>)
    requires p > 1 && G1Point(P)
    ensures P.Identity? ==> r == (if v.AltBn128? then Err(MissingProperty) else Ok(CG.Identity))
    ensures P.Affine? ==> r.Ok? && r.value.Affine? && |r.value.x| == 12 && |r.value.y| == 12
    ensures P.Affine? ==> r.value.x[0] == P.x[0] % p && r.value.y[0] == P.y[0] % p
    ensures P.Affine? ==> forall i :: 0 < i < 12 ==> r.value.x[i] == 0 && r.value.y[i] == 0
  {
    match P
    case Identity => if v.AltBn128? then Err(MissingProperty) else Ok(CG.Identity)
    case Affine(x, y) => Ok(CG.Affine(PL.Constant(x[0], 12, p), PL.Constant(y[0], 12, p)))
  }

  /** Embedded constants multiply as their integers do. */
  lemma ConstantProduct(F: Fld.Field, a: int, b: int)
    requires Cv.TwistField(F)
    ensures Fld.Mul(F, PL.Constant(a, 12, F.p), PL.Constant(b, 12, F.p)) == PL.Constant(a * b, 12, F.p)
  {
    var p := F.p;
    PL.ProductByConstant(PL.Constant(a, 12, p), b, F.mc, p);
    ModMulLeft(a, b, p);
    ModOfReduced(0, p);
    var s := ScaledConstant(F, a, b);
    assert forall i :: 0 <= i < 12 ==> s[i] == PL.Constant(a * b, 12, p)[i];
  }

  /** The coefficient-wise scaling of an embedded constant. */
  function ScaledConstant(F: Fld.Field, a: int, b: int): (s: seq<int>)
    requires Cv.TwistField(F)
    ensures s == Fld.MulInt(F, PL.Constant(a, 12, F.p), b)
    ensures |s| == 12 && s[0] == ((a % F.p) * b) % F.p && forall i :: 0 < i < 12 ==> s[i] == 0
  {
    ModOfReduced(0, F.p);
    Fld.MulInt(F, PL.Constant(a, 12, F.p), b)
  }

  /** Embedded constants subtract as their integers do. */
  lemma ConstantDifference(F: Fld.Field, a: int, b: int)
    requires Cv.TwistField(F)
    ensures Fld.Sub(F, PL.Constant(a, 12, F.p), PL.Constant(b, 12, F.p)) == PL.Constant(a - b, 12, F.p)
  {
    var p := F.p;
    ModSub(a, b, p);
    ModOfReduced(0, p);
    var s := Fld.Sub(F, PL.Constant(a, 12, p), PL.Constant(b, 12, p));
    assert forall i :: 0 <= i < 12 ==> s[i] == PL.Constant(a - b, 12, p)[i];
  }

  /** Embedded constants are equal exactly when the integers agree modulo p. */
  lemma ConstantEquality(p: int, a: int, b: int)
    requires p > 0
    ensures PL.Constant(a, 12, p) == PL.Constant(b, 12, p) <==> a % p == b % p
  {
    if a % p == b % p {
      assert forall i :: 0 <= i < 12 ==> PL.Constant(a, 12, p)[i] == PL.Constant(b, 12, p)[i];
    }
  }

  /** The cast keeps a G1 point on y² = x³ + b: with the b of the FQ12 curve
      the embedded constant b, the FQ12 check of the bn128 override passes
      exactly when the prime-field one does. */
  lemma CastOnCurve(v: Variant, C12: CG.Curve, b: int, P: CG.Point)
    requires PairingCurve(C12) && C12.b == PL.Constant(b, 12, C12.F.p)
    requires P.Affine? && Fld.IsElem(Fld.Prime(C12.F.p), P.x) && Fld.IsElem(Fld.Prime(C12.F.p), P.y)
    ensures var C1 := CG.Curve(Fld.Prime(C12.F.p), [0], [b % C12.F.p]);
      Cv.Bn128IsWellDefined(C12, Cast(v, C12.F.p, P).value) == Cv.Bn128IsWellDefined(C1, P)
  {
    var F := C12.F;
    var p := F.p;
    var x, y := P.x[0], P.y[0];
    ModOfReduced(x, p);
    ModOfReduced(y, p);
    var X, Y := PL.Constant(x, 12, p), PL.Constant(y, 12, p);
    assert Cast(v, p, P).value == CG.Affine(X, Y);
    ConstantProduct(F, y, y);
    ConstantProduct(F, x, x);
    ConstantProduct(F, x * x, x);
    ConstantDifference(F, y * y, x * x * x);
    ConstantEquality(p, y * y - x * x * x, b);
    var C1 := CG.Curve(Fld.Prime(p), [0], [b % p]);
    assert P == CG.Affine([x], [y]);
    Cv.Bn128WellDefinedPrime(C1, x, y);
    ModIdempotent(b, p);
    Cv.EqOfResidues((y * y - x * x * x) % p, b % p, y * y - x * x * x, p);
  }

  // ---------------------------------------------------------------------------
  // The Miller loop

  /** n shifted right by i bits, one halving at a time. */
  function Shr(n: nat, i: nat): (r: nat)
    ensures r <= n
  {
    if i == 0 then n else Shr(n, i - 1) / 2
  }

  /** `ate_loop_count & 2n ** BigInt(i)` is nonzero: bit i of n is set. */
  predicate Bit(n: nat, i: nat)
  {
    Shr(n, i) % 2 == 1
  }

  /** The loop's two variables: the accumulated value f and the point R. */
  datatype Acc = Acc(f: seq<int>, R: CG.Point)

  /** The arguments of `miller_loop`: two points of the FQ12 curve. */
  predicate LoopArgs(C: CG.Curve, Q: CG.Point, P: CG.Point)
  {
    PairingCurve(C) && CG.Fits(C, Q) && CG.Fits(C, P)
  }

  /** The arguments once the loop is entered: neither is at infinity
      (`is_zero()` of the alt_bn128 points, `=== null` of the MNT4 ones). */
  predicate Finite(C: CG.Curve, Q: CG.Point, P: CG.Point)
  {
    LoopArgs(C, Q, P) && Q.Affine? && P.Affine?
  }

  /** `add` of two points with coordinates of the field's size returns one. */
  lemma AddFits(C: CG.Curve, P: CG.Point, Q: CG.Point)
    requires CG.ValidCurve(C) && CG.Fits(C, P) && CG.Fits(C, Q)
    ensures CG.Add(C, P, Q).Ok? ==> CG.Fits(C, CG.Add(C, P, Q).value)
  {
  }

  /** What the loop over the bits of n (`ate_loop_count` in `miller_loop`)
      returns when it is entered at bit i with the variables a: the passes
      for bits i down to 0, or the first failure among them.
      A pass squares f and multiplies in the tangent at R, and doubles R; on
      a set bit it also multiplies in the chord through R and Q and adds Q.
      It fails when R is at infinity or the assertion of `add` fails; once
      `linefunc` has accepted R, `double` and the second `linefunc` cannot
      fail. (The curve is part of the measure so that a literal bit does
      not unfold every pass at once; the same holds for `Climb` and
      `Ladder`.) */
  function Run(v: Variant, C: CG.Curve, Q: CG.Point, P: CG.Point, n: nat, a: Acc, i: int): (r: Result<Acc>)
    requires Finite(C, Q, P) && CG.Fits(C, a.R) && |a.f| == 12 && -1 <= i <= 63
    ensures r.Ok? ==> CG.Fits(C, r.value.R) && |r.value.f| == 12
    ensures r.Err? ==> r.error == Absent(v) || r.error == AssertionFailed
    decreases i + 1, C
  {
    if i < 0 then Ok(a)
    else
      var F := C.F;
      var l := LineFunc(v, C, a.R, a.R, P);
      if l.Err? then Err(l.error)
      else
        var f := Fld.Mul(F, Fld.Mul(F, a.f, a.f), l.value);
        var d := CG.Double(C, a.R).value;
        if !Bit(n, i) then Run(v, C, Q, P, n, Acc(f, d), i - 1)
        else
          var l2 := LineFunc(v, C, d, Q, P).value;
          AddFits(C, d, Q);
          var s := CG.Add(C, d, Q);
          if s.Err? then Err(s.error) else Run(v, C, Q, P, n, Acc(Fld.Mul(F, f, l2), s.value), i - 1)
  }

  /** `(p^12 − 1) / order`, with BigInt's truncating division. */
  function FinalExponent(p: int, order: int): int
    requires order != 0
  {
    TruncDiv(Power(p, 12) - 1, order)
  }

  /** `final_exponentiate`: f raised to (p^12 − 1)/order. */
  function FinalExponentiate(F: Fld.Field, f: seq<int>, order: int): (r: seq<int>)
    requires Fld.Valid(F) && |f| == Fld.Dim(F) && order != 0
    ensures |r| == Fld.Dim(F)
  {
    Fld.Pow(F, f, FinalExponent(F.p, order))
  }

  /** The two steps after the loop: with Q1 = (Q.x^p, Q.y^p) and
      −Q2 = (Q1.x^p, −Q1.y^p), multiply in the line through R and Q1, add
      Q1 to R, and multiply in the line through the new R and −Q2. */
  function Frobenius(v: Variant, C: CG.Curve, Q: CG.Point, P: CG.Point, a: Acc): (r: Result<seq<int>>)
    requires Finite(C, Q, P) && CG.Fits(C, a.R) && |a.f| == 12
    ensures r.Ok? ==> |r.value| == 12
    ensures r.Err? ==> r.error == Absent(v) || r.error == AssertionFailed
  {
    var F := C.F;
    var p := F.p;
    var q1 := CG.Affine(Fld.Pow(F, Q.x, p), Fld.Pow(F, Q.y, p));
    var nq2 := CG.Affine(Fld.Pow(F, q1.x, p), Fld.Neg(F, Fld.Pow(F, q1.y, p)));
    var l1 := LineFunc(v, C, a.R, q1, P);
    if l1.Err? then Err(l1.error)
    else
      AddFits(C, a.R, q1);
      var s := CG.Add(C, a.R, q1);
      if s.Err? then Err(s.error)
      else
        var l2 := LineFunc(v, C, s.value, nq2, P);
        if l2.Err? then Err(l2.error)
        else Ok(Fld.Mul(F, Fld.Mul(F, a.f, l1.value), l2.value))
  }

  /** What `miller_loop(Q, P)` returns: one when either point is at
      infinity, otherwise the 64 passes, the two Frobenius steps and the
      final exponentiation, or the first failure among them. */
  function MillerValue(v: Variant, C: CG.Curve, Q: CG.Point, P: CG.Point, order: int): (r: Result<seq<int>>)
    requires LoopArgs(C, Q, P) && order != 0
    ensures Q.Identity? || P.Identity? ==> r == Ok(Fld.One(C.F))
  {
    if Q.Identity? || P.Identity? then Ok(Fld.One(C.F))
    else
      var w := Run(v, C, Q, P, AteLoopCount, Acc(Fld.One(C.F), Q), LogAteLoopCount);
      if w.Err? then Err(w.error)
      else
        var t := Frobenius(v, C, Q, P, w.value);
        if t.Err? then t else Ok(FinalExponentiate(C.F, t.value, order))
  }

  /** `miller_loop(Q, P)`: one when either point is at infinity; otherwise
      the loop over bits 63 down to 0 of `ate_loop_count` from R = Q and
      f = 1, the two Frobenius steps and the final exponentiation, ending at
      the first failed line or addition. */
  method MillerLoop(v: Variant, C: CG.Curve, Q: CG.Point, P: CG.Point, order: int) returns (r: Result<seq<int>>)
    requires LoopArgs(C, Q, P) && order != 0
    ensures r == MillerValue(v, C, Q, P, order)
    ensures Q.Identity? || P.Identity? ==> r == Ok(Fld.One(C.F))
    ensures r.Err? ==> r.error == Absent(v) || r.error == AssertionFailed
  {
    var F := C.F;
    if Q.Identity? || P.Identity? {
      return Ok(Fld.One(F));
    }
    ghost var result := Run(v, C, Q, P, AteLoopCount, Acc(Fld.One(F), Q), LogAteLoopCount);
    var R := Q;
    var f := Fld.One(F);
    var i: int := LogAteLoopCount;
    while i > -1
      invariant -1 <= i <= 63 && CG.Fits(C, R) && |f| == 12
      invariant Run(v, C, Q, P, AteLoopCount, Acc(f, R), i) == result
      decreases i
    {
      var l := LineFunc(v, C, R, R, P);
      if l.Err? {
        return Err(l.error);
      }
      f := Fld.Mul(F, Fld.Mul(F, f, f), l.value);
      R := CG.Double(C, R).value;
      if Bit(AteLoopCount, i) {
        var l2 := LineFunc(v, C, R, Q, P).value;
        f := Fld.Mul(F, f, l2);
        AddFits(C, R, Q);
        var s := CG.Add(C, R, Q);
        if s.Err? {
          return Err(s.error);
        }
        R := s.value;
      }
      i := i - 1;
    }
    ghost var a := Acc(f, R);
    var p := F.p;
    var q1 := CG.Affine(Fld.Pow(F, Q.x, p), Fld.Pow(F, Q.y, p));
    var nq2 := CG.Affine(Fld.Pow(F, q1.x, p), Fld.Neg(F, Fld.Pow(F, q1.y, p)));
    var l1 := LineFunc(v, C, R, q1, P);
    if l1.Err? {
      return Err(l1.error);
    }
    f := Fld.Mul(F, f, l1.value);
    AddFits(C, R, q1);
    var s := CG.Add(C, R, q1);
    if s.Err? {
      return Err(s.error);
    }
    R := s.value;
    var l2 := LineFunc(v, C, R, nq2, P);
    if l2.Err? {
      return Err(l2.error);
    }
    f := Fld.Mul(F, f, l2.value);
    assert Frobenius(v, C, Q, P, a) == Ok(f);
    return Ok(FinalExponentiate(F, f, order));
  }

  // ---------------------------------------------------------------------------
  // The bit walk

  /** Left-to-right double-and-add: n·Q for n ≥ 1, reading the bits of n
      from the top, with the group operations of `CurvePoint`. */
  function Ladder(C: CG.Curve, Q: CG.Point, n: nat): (r: Result<CG.Point>)
    requires CG.ValidCurve(C) && CG.Fits(C, Q) && n >= 1
    ensures r.Ok? ==> CG.Fits(C, r.value)
    decreases n, C
  {
    if n == 1 then Ok(Q)
    else
      var h := Ladder(C, Q, n / 2);
      if h.Err? then h
      else
        var d := CG.Double(C, h.value);
        if d.Err? || n % 2 == 0 then d
        else
          AddFits(C, d.value, Q);
          CG.Add(C, d.value, Q)
  }

  /** For two and three the ladder agrees with `CurvePoint.multiply`. */
  lemma LadderSmall(C: CG.Curve, Q: CG.Point)
    requires CG.ValidCurve(C) && CG.Fits(C, Q) && Q.Affine?
    ensures Ladder(C, Q, 2) == CG.Multiply(C, Q, 2)
    ensures Ladder(C, Q, 3) == CG.Multiply(C, Q, 3)
  {
    CG.MultiplySmall(C, Q);
  }

  /** Shifting by i + j is shifting by i and then by j. */
  lemma {:induction false} ShrAdd(n: nat, i: nat, j: nat)
    ensures Shr(n, i + j) == Shr(Shr(n, i), j)
    decreases j
  {
    if j > 0 {
      ShrAdd(n, i, j - 1);
    }
  }

  /** Eight halvings divide by 256. */
  /** n >> i is n divided by 2^i, rounded down. */
  lemma {:induction false} ShrIsDivision(n: nat, i: nat)
    ensures Power(2, i) > 0 && Shr(n, i) == n / Power(2, i)
  {
    if i > 0 {
      ShrIsDivision(n, i - 1);
      DivOfDiv(n, Power(2, i - 1), 2);
    }
  }

  /** Dividing by a and then by b is dividing by a·b. */
  lemma DivOfDiv(n: nat, a: int, b: int)
    requires a > 0 && b > 0
    ensures (n / a) / b == n / (b * a)
  {
    var q, r := n / a, n % a;
    var q2, r2 := q / b, q % b;
    assert n == a * (b * q2 + r2) + r;
    assert n == (b * a) * q2 + (a * r2 + r);
    assert a * r2 <= a * (b - 1) by { MulNonNegative(a, b - 1 - r2); }
    MulNonNegative(a, r2);
    ModUnique(n, b * a, q2, a * r2 + r);
  }

  lemma ShrByte(n: nat)
    ensures Shr(n, 8) == n / 256
  {
    assert Shr(n, 1) == n / 2;
    assert Shr(n, 2) == n / 4;
    assert Shr(n, 3) == n / 8;
    assert Shr(n, 4) == n / 16;
    assert Shr(n, 5) == n / 32;
    assert Shr(n, 6) == n / 64;
    assert Shr(n, 7) == n / 128;
  }

  /** The next byte of a shift of `ate_loop_count`. */
  /** `ate_loop_count` has 65 bits, so with `log_ate_loop_count` = 63 the
      loop from bit 63 down starts just below its top bit. */
  lemma AteLoopBounds()
    ensures Power(2, LogAteLoopCount + 1) <= AteLoopCount < Power(2, LogAteLoopCount + 2)
  {
    AteTop();
    ShrIsDivision(AteLoopCount, 64);
    assert Power(2, 65) == 2 * Power(2, 64);
    QuotientOne(AteLoopCount, Power(2, 64));
  }

  lemma QuotientOne(n: nat, d: int)
    requires d > 0 && n / d == 1
    ensures d <= n < 2 * d
  {
    assert n == d * (n / d) + n % d;
  }

  lemma AteByte(k: nat, c: nat)
    requires Shr(AteLoopCount, k) == c
    ensures Shr(AteLoopCount, k + 8) == c / 256
  {
    ShrAdd(AteLoopCount, k, 8);
    ShrByte(c);
  }

  /** Bit 64 is the top bit of `ate_loop_count`: its shift by 64, taken a
      byte at a time, is one. */
  lemma AteTop()
    ensures Shr(AteLoopCount, 64) == 1
  {
    AteByte(0, 29793968203157093288);
    AteByte(8, 116382688293582395);
    AteByte(16, 454619876146806);
    AteByte(24, 1775858891198);
    AteByte(32, 6936948793);
    AteByte(40, 27097456);
    AteByte(48, 105849);
    AteByte(56, 413);
  }

  /** Shifts of `ate_loop_count` by 64 or less leave a positive number. */
  lemma {:induction false} AteShift(j: nat)
    requires j <= 64
    ensures Shr(AteLoopCount, j) >= 1
    decreases 64 - j
  {
    if j == 64 {
      AteTop();
    } else {
      AteShift(j + 1);
    }
  }

  /** Left-to-right double-and-add from R over bits i down to 0 of n: the
      way the loop moves R. */
  function Climb(C: CG.Curve, Q: CG.Point, n: nat, R: CG.Point, i: int): (r: Result<CG.Point>)
    requires CG.ValidCurve(C) && CG.Fits(C, Q) && CG.Fits(C, R) && i >= -1
    ensures r.Ok? ==> CG.Fits(C, r.value)
    decreases i + 1, C
  {
    if i < 0 then Ok(R)
    else
      var d := CG.Double(C, R);
      if d.Err? then d
      else if !Bit(n, i) then Climb(C, Q, n, d.value, i - 1)
      else
        AddFits(C, d.value, Q);
        var s := CG.Add(C, d.value, Q);
        if s.Err? then s else Climb(C, Q, n, s.value, i - 1)
  }

  /** One more bit: when R is the multiple for the bits of n above bit i and
      the step for bit i succeeds, it leaves the multiple for the bits from
      bit i up. */
  lemma ClimbStep(C: CG.Curve, Q: CG.Point, n: nat, R: CG.Point, i: nat) returns (R': CG.Point)
    requires CG.ValidCurve(C) && CG.Fits(C, Q) && CG.Fits(C, R)
    requires Shr(n, i + 1) >= 1 && Ladder(C, Q, Shr(n, i + 1)) == Ok(R)
    requires Climb(C, Q, n, R, i).Ok?
    ensures CG.Fits(C, R') && Shr(n, i) >= 1 && Ladder(C, Q, Shr(n, i)) == Ok(R')
    ensures Climb(C, Q, n, R, i) == Climb(C, Q, n, R', i - 1)
  {
    var d := CG.Double(C, R).value;
    if Bit(n, i) {
      AddFits(C, d, Q);
      R' := CG.Add(C, d, Q).value;
    } else {
      R' := d;
    }
  }

  /** Entered at bit i with R the multiple (n >> (i + 1))·Q, the climb ends
      at the multiple n·Q that the ladder computes. */
  lemma {:induction false} ClimbFollowsLadder(C: CG.Curve, Q: CG.Point, n: nat, R: CG.Point, i: int)
    requires CG.ValidCurve(C) && CG.Fits(C, Q) && CG.Fits(C, R) && i >= -1
    requires Shr(n, i + 1) >= 1 && Ladder(C, Q, Shr(n, i + 1)) == Ok(R)
    ensures Climb(C, Q, n, R, i).Ok? ==> Ladder(C, Q, n) == Climb(C, Q, n, R, i)
    decreases i + 1
  {
    if i < 0 {
      assert Shr(n, i + 1) == n;
    } else if Climb(C, Q, n, R, i).Ok? {
      var R' := ClimbStep(C, Q, n, R, i);
      ClimbFollowsLadder(C, Q, n, R', i - 1);
    }
  }

  /** One pass of the loop moves R as one step of the climb does; either
      both fail or both go on. */
  lemma RunStep(v: Variant, C: CG.Curve, Q: CG.Point, P: CG.Point, n: nat, a: Acc, i: nat) returns (a': Acc)
    requires Finite(C, Q, P) && CG.Fits(C, a.R) && |a.f| == 12 && i <= 63
    requires Run(v, C, Q, P, n, a, i).Ok? || Climb(C, Q, n, a.R, i).Ok?
    ensures CG.Fits(C, a'.R) && |a'.f| == 12
    ensures Run(v, C, Q, P, n, a, i) == Run(v, C, Q, P, n, a', i - 1)
    ensures Climb(C, Q, n, a.R, i) == Climb(C, Q, n, a'.R, i - 1)
  {
    var F := C.F;
    var f := Fld.Mul(F, Fld.Mul(F, a.f, a.f), LineFunc(v, C, a.R, a.R, P).value);
    var d := CG.Double(C, a.R).value;
    if Bit(n, i) {
      var l2 := LineFunc(v, C, d, Q, P).value;
      AddFits(C, d, Q);
      a' := Acc(Fld.Mul(F, f, l2), CG.Add(C, d, Q).value);
    } else {
      a' := Acc(f, d);
    }
  }

  /** The loop's R follows the climb: `Run` succeeds exactly when the climb
      does (`linefunc` at R fails exactly where `double` does, at infinity),
      and leaves R where the climb ends. */
  lemma {:induction false} RunClimbs(v: Variant, C: CG.Curve, Q: CG.Point, P: CG.Point, n: nat, a: Acc, i: int)
    requires Finite(C, Q, P) && CG.Fits(C, a.R) && |a.f| == 12 && -1 <= i <= 63
    ensures Run(v, C, Q, P, n, a, i).Ok? <==> Climb(C, Q, n, a.R, i).Ok?
    ensures Run(v, C, Q, P, n, a, i).Ok? ==> Climb(C, Q, n, a.R, i) == Ok(Run(v, C, Q, P, n, a, i).value.R)
    decreases i + 1
  {
    if i >= 0 && (Run(v, C, Q, P, n, a, i).Ok? || Climb(C, Q, n, a.R, i).Ok?) {
      var a' := RunStep(v, C, Q, P, n, a, i);
      RunClimbs(v, C, Q, P, n, a', i - 1);
    }
  }

  /** After the 64 passes R is ate_loop_count·Q as the ladder computes it. */
  lemma LoopPoint(v: Variant, C: CG.Curve, Q: CG.Point, P: CG.Point)
    requires Finite(C, Q, P)
    ensures var w := Run(v, C, Q, P, AteLoopCount, Acc(Fld.One(C.F), Q), LogAteLoopCount);
      w.Ok? ==> Ladder(C, Q, AteLoopCount) == Ok(w.value.R)
  {
    AteShift(64);
    AteTop();
    RunClimbs(v, C, Q, P, AteLoopCount, Acc(Fld.One(C.F), Q), LogAteLoopCount);
    ClimbFollowsLadder(C, Q, AteLoopCount, Q, LogAteLoopCount);
  }

  // ---------------------------------------------------------------------------
  // The entry points

  /** The G1 point (1, 2) of bn128 is on y² = x³ + 3, and its cast is on
      the FQ12 curve with b = 3. */
  lemma CastGenerator(v: Variant, C12: CG.Curve)
    requires PairingCurve(C12) && C12.b == PL.Constant(3, 12, C12.F.p)
    ensures var p := C12.F.p;
      Cv.Bn128IsWellDefined(C12, Cast(v, p, CG.Affine([1 % p], [2 % p])).value)
  {
    var p := C12.F.p;
    Cv.Bn128GeneratorOnCurve(p);
    CastOnCurve(v, C12, 3, CG.Affine([1 % p], [2 % p]));
  }

  /** The alt_bn128 `pairing(Q, P)`: `is_well_defined` runs on both inputs
      and its answer is dropped, so a point off its curve is not rejected;
      the twisted Q and the cast P enter the Miller loop. */
  method AltPairing(C12: CG.Curve, Q: CG.Point, P: CG.Point, order: int) returns (r: Result<seq<int>>)
    requires PairingCurve(C12) && Cv.Twistable(Q) && G1Point(P) && order != 0
    ensures P.Identity? ==> r == Err(MissingProperty)
    ensures P.Affine? && Q.Identity? ==> r == Ok(Fld.One(C12.F))
    ensures P.Affine? ==>
      r == MillerValue(AltBn128, C12, Cv.Twist(C12.F, Q), Cast(AltBn128, C12.F.p, P).value, order)
  {
    var c := Cast(AltBn128, C12.F.p, P);
    if c.Err? {
      return Err(c.error);
    }
    r := MillerLoop(AltBn128, C12, Cv.Twist(C12.F, Q), c.value, order);
  }

  /** The MNT4 `pairing(Q, P)`: asserts that Q is on the twist curve C2 and
      P on the curve C1 (`is_on_curve`, y² − x³ == b), then the twisted Q and
      the cast P enter the Miller loop. */
  method MntPairing(C2: CG.Curve, C1: CG.Curve, C12: CG.Curve, Q: CG.Point, P: CG.Point, order: int)
    returns (r: Result<seq<int>>)
    requires CG.ValidCurve(C2) && Fld.Dim(C2.F) >= 2 && CG.Fits(C2, Q)
    requires CG.ValidCurve(C1) && C1.F.Prime? && CG.Fits(C1, P)
    requires PairingCurve(C12) && order != 0
    ensures !Cv.Bn128IsWellDefined(C2, Q) || !Cv.Bn128IsWellDefined(C1, P) ==> r == Err(AssertionFailed)
    ensures Cv.Bn128IsWellDefined(C2, Q) && Cv.Bn128IsWellDefined(C1, P) && (Q.Identity? || P.Identity?) ==>
      r == Ok(Fld.One(C12.F))
    ensures Cv.Bn128IsWellDefined(C2, Q) && Cv.Bn128IsWellDefined(C1, P) ==>
      r == MillerValue(Mnt4, C12, Cv.Twist(C12.F, Q), Cast(Mnt4, C12.F.p, P).value, order)
  {
    if !Cv.Bn128IsWellDefined(C2, Q) || !Cv.Bn128IsWellDefined(C1, P) {
      return Err(AssertionFailed);
    }
    var c := Cast(Mnt4, C12.F.p, P);
    r := MillerLoop(Mnt4, C12, Cv.Twist(C12.F, Q), c.value, order);
  }
}
