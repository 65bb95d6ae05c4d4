/** The curve files: the field tower each one declares, the coefficients of
    its curves over the extension fields, its `is_well_defined` overrides and
    its `twist` into the degree-12 field. The field moduli and the large
    constants (b of the base curves, the modulus coefficients of the MNT6
    `FQ2`) are parameters. */
module Curves {
  import opened Wrappers
  import opened Arith
  import PF = PrimeField
  import EF = ExtensionField
  import PL = ProductLaws
  import K = Karatsuba
  import Fld = Fields
  import CG = CurveGroup

  // ---------------------------------------------------------------------------
  // Field towers

  /** modulus_coeffs [1, 0], X² + 1: u² = −1 (bn128, alt_bn128, BLS12-318). */
  const UnitCircle: seq<int> := [1, 0]

  /** modulus_coeffs of FQ12 in the BN and MNT files: X¹² − 18X⁶ + 82. */
  const BnTwelfth: seq<int> := [82, 0, 0, 0, 0, 0, -18, 0, 0, 0, 0, 0]

  /** modulus_coeffs of FQ12 in the BLS12-318 file: X¹² − 2X⁶ + 2. */
  const BlsTwelfth: seq<int> := [2, 0, 0, 0, 0, 0, -2, 0, 0, 0, 0, 0]

  /** FQ2 of bn128, alt_bn128 and BLS12-318: the generic `mul`. */
  function Fq2(p: int): (F: Fld.Field)
    ensures F.p == p && Fld.Dim(F) == 2 && (p > 1 ==> Fld.Valid(F))
  {
    Fld.Ext(p, UnitCircle, Fld.Generic)
  }

  /** A degree-12 field with the generic `mul`. */
  function Fq12(p: int, mc: seq<int>): (F: Fld.Field)
    ensures F.p == p && Fld.Dim(F) == |mc| && (p > 1 && |mc| > 0 ==> Fld.Valid(F))
  {
    Fld.Ext(p, mc, Fld.Generic)
  }

  /** The FQ2 of MNT4 (ν = 17) and MNT4-753 (ν = 13): modulus_coeffs [ν, 0]
      with the Karatsuba `mul` override. */
  function MntQuadratic(p: int, nr: int): (F: Fld.Field)
    ensures F.p == p && Fld.Dim(F) == 2 && (p > 1 ==> Fld.Valid(F))
  {
    Fld.Ext(p, [nr, 0], Fld.Quadratic)
  }

  /** The FQ3 of MNT6-753: modulus_coeffs [11, 0, 0] with the cubic override. */
  function Mnt6753Fq3(p: int): (F: Fld.Field)
    ensures F.p == p && Fld.Dim(F) == 3 && (p > 1 ==> Fld.Valid(F))
  {
    Fld.Ext(p, [11, 0, 0], Fld.Cubic)
  }

  /** The class named FQ2 in the MNT6 file: three modulus coefficients [m0, m1, 1],
      so its elements have three coefficients, with the generic `mul`. */
  function Mnt6Fq2(p: int, m0: int, m1: int): (F: Fld.Field)
    ensures F.p == p && Fld.Dim(F) == 3 && (p > 1 ==> Fld.Valid(F))
  {
    Fld.Ext(p, [m0, m1, 1], Fld.Generic)
  }

  /** `w = new FQ12([0, 1, 0, …])`. */
  function W(): (w: seq<int>)
    ensures |w| == 12 && forall i :: 0 <= i < 12 ==> w[i] == if i == 1 then 1 else 0
  {
    PL.Monomial(1, 12)
  }

  /** In FQ2 modulo X² + 1, u·u = −1. */
  lemma UnitSquare(p: int)
    requires p > 1
    ensures Fld.Mul(Fq2(p), [0, 1], [0, 1]) == Fld.Neg(Fq2(p), Fld.One(Fq2(p)))
  {
    K.GenericSquaresU(1, p);
    ModOfReduced(0, p);
    assert Fld.Neg(Fq2(p), Fld.One(Fq2(p))) == [(-1) % p, (-0) % p];
  }

  /** w² and w³ are X² and X³: nothing wraps round below X¹². */
  lemma WPowers(p: int, mc: seq<int>)
    requires p > 1 && |mc| == 12
    ensures Fld.Pow(Fq12(p, mc), W(), 2) == PL.Monomial(2, 12)
    ensures Fld.Pow(Fq12(p, mc), W(), 3) == PL.Monomial(3, 12)
  {
    var F := Fq12(p, mc);
    Fld.PowSmall(F, W());
    PL.MonomialProduct(1, 1, mc, p);
    PL.MonomialProduct(2, 1, mc, p);
  }

  /** The squares w·w, w²·w², w⁴·w⁴ and the product w⁸·w⁴, which wraps. */
  lemma WProducts(p: int, mc: seq<int>)
    requires p > 1 && |mc| == 12
    ensures var F := Fq12(p, mc);
      Fld.Mul(F, W(), W()) == PL.Monomial(2, 12) &&
      Fld.Mul(F, PL.Monomial(2, 12), PL.Monomial(2, 12)) == PL.Monomial(4, 12) &&
      Fld.Mul(F, PL.Monomial(4, 12), PL.Monomial(4, 12)) == PL.Monomial(8, 12) &&
      Fld.Mul(F, PL.Monomial(8, 12), PL.Monomial(4, 12)) == PL.NegatedModulus(mc, p)
  {
    PL.MonomialProduct(1, 1, mc, p);
    PL.MonomialProduct(2, 2, mc, p);
    PL.MonomialProduct(4, 4, mc, p);
    PL.MonomialWrap(8, 4, mc, p);
  }

  /** The reduction polynomial at work: w¹² is −mc, so in the BN and MNT
      FQ12 w¹² = 18·w⁶ − 82, and in the BLS12-318 FQ12 w¹² = 2·w⁶ − 2. */
  lemma WTwelfth(p: int, mc: seq<int>)
    requires p > 1 && |mc| == 12
    ensures Fld.Pow(Fq12(p, mc), W(), 12) == PL.NegatedModulus(mc, p)
  {
    var F := Fq12(p, mc);
    var m2 := PL.Monomial(2, 12);
    var m4 := PL.Monomial(4, 12);
    var m8 := PL.Monomial(8, 12);
    WProducts(p, mc);
    TruncOfNatural(12, 2);
    TruncOfNatural(6, 2);
    TruncOfNatural(3, 2);
    Fld.PowHalving(F, W(), 12);
    Fld.PowHalving(F, m2, 6);
    Fld.PowHalving(F, m4, 3);
    Fld.PowOne(F, m8);
  }

  /** The BN and MNT FQ12: w¹² = 18·w⁶ − 82. */
  lemma BnTwelfthReduction(p: int)
    requires p > 1
    ensures Fld.Pow(Fq12(p, BnTwelfth), W(), 12) == Sparse(-82, 18, p)
  {
    WTwelfth(p, BnTwelfth);
    NegatedSparse(BnTwelfth, 82, -18, p);
  }

  /** The BLS12-318 FQ12: w¹² = 2·w⁶ − 2. */
  lemma BlsTwelfthReduction(p: int)
    requires p > 1
    ensures Fld.Pow(Fq12(p, BlsTwelfth), W(), 12) == Sparse(-2, 2, p)
  {
    WTwelfth(p, BlsTwelfth);
    NegatedSparse(BlsTwelfth, 2, -2, p);
  }

  /** −mc for a modulus with nonzero coefficients at 0 and 6 only. */
  lemma NegatedSparse(mc: seq<int>, m0: int, m6: int, p: int)
    requires p > 1 && mc == [m0, 0, 0, 0, 0, 0, m6, 0, 0, 0, 0, 0]
    ensures PL.NegatedModulus(mc, p) == Sparse(-m0, -m6, p)
  {
    var n := PL.NegatedModulus(mc, p);
    var s := Sparse(-m0, -m6, p);
    forall i | 0 <= i < 12
      ensures n[i] == s[i]
    {
      if i != 0 && i != 6 {
        assert mc[i] == 0;
      }
    }
  }

  // ---------------------------------------------------------------------------
  // Curve coefficients

  /** BN128CurvePoint: y² = x³ + 3 over FQ. The bn128 classes define no `a`;
      their `is_well_defined` override never reads one, so zero stands there. */
  function Bn128G1(p: int): (C: CG.Curve)
    requires p > 1
    ensures CG.ValidCurve(C) && C.F == Fld.Prime(p) && C.b == [3 % p]
  {
    CG.Curve(Fld.Prime(p), [0], [3 % p])
  }

  /** The curve over an MNT quadratic field: a' = [a·ν, 0], b' = [0, b·ν]. */
  function QuadraticTwistCurve(p: int, nr: int, a: int, b: int): (C: CG.Curve)
    requires p > 0
    ensures C.F == MntQuadratic(p, nr) && (p > 1 ==> CG.ValidCurve(C))
  {
    CG.Curve(MntQuadratic(p, nr), [PF.Mul(a, nr, p), PF.Zero(p)], [PF.Zero(p), PF.Mul(b, nr, p)])
  }

  /** The curve over a cubic field: a' = [0, 0, a], b' = [b·ν, 0, 0]
      (MNT6-753 with ν = 11 over its FQ3; MNT6 with ν = 5 over its FQ2). */
  function CubicTwistCurve(F3: Fld.Field, nr: int, a: int, b: int): (C: CG.Curve)
    requires F3.p > 0
    ensures C.F == F3 && (Fld.Valid(F3) && Fld.Dim(F3) == 3 ==> CG.ValidCurve(C))
  {
    CG.Curve(F3, [0, 0, a % F3.p], [PF.Mul(b, nr, F3.p), 0, 0])
  }

  /** The MNT curves over FQ12 inherit `a` from the base class, an `FQ`; b is
      FQ12 [3, 0, …]. The scalar `a` stands here embedded as a constant. */
  function MntG12(p: int, a: int): (C: CG.Curve)
    requires p > 0
    ensures C.F == Fq12(p, BnTwelfth) && (p > 1 ==> CG.ValidCurve(C))
  {
    CG.Curve(Fq12(p, BnTwelfth), PL.Constant(a, 12, p), PL.Constant(3, 12, p))
  }

  /** The derived coefficients over a quadratic MNT field are the twist by
      ν·u: a' is a·ν and b' is u·(b·ν), with u = [0, 1]. */
  lemma QuadraticTwistCoefficients(p: int, nr: int, a: int, b: int)
    requires p > 1
    ensures var C := QuadraticTwistCurve(p, nr, a, b);
      CG.ValidCurve(C) &&
      C.a == Fld.MulInt(C.F, Fld.One(C.F), a * nr) &&
      C.b == Fld.Mul(C.F, [0, 1], [PF.Mul(b, nr, p), 0])
  {
    var F := MntQuadratic(p, nr);
    var c := PF.Mul(b, nr, p);
    K.QuadraticFormula([0, 1], [c, 0], nr, p);
    ModOfReduced(0, p);
    ModOfReduced(c, p);
    assert Fld.Mul(F, [0, 1], [c, 0]) == [(0 * c + nr * (1 * 0)) % p, (0 * 0 + 1 * c) % p];
  }

  /** The derived coefficients over a cubic field: a' is a·u² and b' is b·ν,
      with u = [0, 1, 0]; this holds for the MNT6-753 cubic override and for
      the generic `mul` of the MNT6 file alike. */
  lemma CubicTwistCoefficients(F3: Fld.Field, nr: int, a: int, b: int)
    requires Fld.Valid(F3) && Fld.Dim(F3) == 3 && F3.Ext?
    ensures var C := CubicTwistCurve(F3, nr, a, b);
      CG.ValidCurve(C) &&
      C.a == Fld.MulInt(F3, Fld.Mul(F3, [0, 1, 0], [0, 1, 0]), a) &&
      C.b == Fld.MulInt(F3, Fld.One(F3), b * nr)
  {
    var p := F3.p;
    var u: seq<int> := [0, 1, 0];
    ModOfReduced(0, p);
    ModOfReduced(1, p);
    if F3.rule.Cubic? {
      K.CubicFormula(u, u, F3.mc[0], p);
      assert Fld.Mul(F3, u, u) == [0, 0, 1];
    } else {
      PL.MonomialProduct(1, 1, F3.mc, p);
      assert u == PL.Monomial(1, 3);
      assert Fld.Mul(F3, u, u) == PL.Monomial(2, 3) == [0, 0, 1];
    }
  }

  /** Over the MNT FQ12 curves `x.mul(a)` takes the scalar branch of
      `_FQP.mul`; multiplying by the embedded constant gives the same value. */
  lemma MntScalarCoefficient(p: int, a: int, x: seq<int>)
    requires p > 1 && |x| == 12
    ensures Fld.Mul(MntG12(p, a).F, x, MntG12(p, a).a) == Fld.MulInt(MntG12(p, a).F, x, a)
  {
    PL.ProductByConstant(x, a, BnTwelfth, p);
  }

  // ---------------------------------------------------------------------------
  // is_well_defined overrides

  /** The bn128 override: the identity passes; otherwise y·y − x·x·x == b. */
  function Bn128IsWellDefined(C: CG.Curve, P: CG.Point): (r: bool)
    requires CG.ValidCurve(C) && CG.Fits(C, P)
    ensures P.Identity? ==> r
  {
    match P
    case Identity => true
    case Affine(x, y) =>
      var F := C.F;
      Fld.Eq(F, Fld.Sub(F, Fld.Mul(F, y, y), Fld.Mul(F, Fld.Mul(F, x, x), x)), C.b)
  }

  /** Over the prime field the override is the curve equation y² = x³ + b. */
  lemma Bn128WellDefinedPrime(C: CG.Curve, x: int, y: int)
    requires CG.ValidCurve(C) && C.F.Prime? && Fld.IsElem(C.F, C.b)
    requires 0 <= x < C.F.p && 0 <= y < C.F.p
    ensures Bn128IsWellDefined(C, CG.Affine([x], [y])) <==> (y * y - x * x * x - C.b[0]) % C.F.p == 0
  {
    var p := C.F.p;
    var yy := (y * y) % p;
    var xx := (x * x) % p;
    var xxx := (xx * x) % p;
    var d := (yy - xxx) % p;
    ModMulLeft(x * x, x, p);
    assert xxx == (x * x * x) % p;
    ModSub(y * y, x * x * x, p);
    assert d == (y * y - x * x * x) % p;
    ModOfReduced(C.b[0], p);
    EqOfResidues(d, C.b[0], y * y - x * x * x, p);
  }

  /** Two residues are equal exactly when their difference is divisible by p. */
  lemma EqOfResidues(d: int, c: int, v: int, p: int)
    requires p > 0 && 0 <= c < p && d == v % p
    ensures d == c <==> (v - c) % p == 0
  {
    ModSub(v, c, p);
    ModOfReduced(c, p);
    ModIdempotent(v, p);
    SmallMultiple(d - c, p);
  }

  /** Between −p and p only zero is a multiple of p. */
  lemma SmallMultiple(z: int, p: int)
    requires p > 0 && -p < z < p
    ensures z % p == 0 <==> z == 0
  {
    if z >= 0 {
      ModOfReduced(z, p);
    } else {
      ModShift(z, p, 1);
      ModOfReduced(p + z, p);
    }
  }

  /** The override agrees with the generic `CurvePoint.is_well_defined`
      when the curve's a is zero. */
  lemma Bn128AgreesWithGeneric(C: CG.Curve, P: CG.Point)
    requires CG.ValidCurve(C) && CG.Fits(C, P) && C.a == Fld.Zero(C.F)
    ensures Bn128IsWellDefined(C, P) == CG.IsWellDefined(C, P)
  {
    if P.Affine? {
      var F := C.F;
      Fld.PowSmall(F, P.y);
      Fld.PowSmall(F, P.x);
      Fld.MulByZero(F, P.x);
      var w := Fld.Sub(F, Fld.Pow(F, P.y, 2), Fld.Pow(F, P.x, 3));
      forall i | 0 <= i < |w|
        ensures Fld.Sub(F, w, Fld.Zero(F))[i] == w[i]
      {
        ModOfReduced(w[i], F.p);
      }
      assert Fld.Sub(F, w, Fld.Mul(F, P.x, C.a)) == w;
    }
  }

  /** The generator (1, 2) of bn128 satisfies y² = x³ + 3, whatever the modulus. */
  lemma Bn128GeneratorOnCurve(p: int)
    requires p > 1
    ensures Bn128IsWellDefined(Bn128G1(p), CG.Affine([1 % p], [2 % p]))
  {
    var C := Bn128G1(p);
    var x := 1 % p;
    var y := 2 % p;
    ModMul(2, 2, p);
    ModMul(1, 1, p);
    ModMulLeft(1, 1, p);
    assert (y * y) % p == 4 % p;
    assert (((x * x) % p) * x) % p == 1 % p;
    ModSub(4, 1, p);
    assert Fld.Sub(C.F, Fld.Mul(C.F, [y], [y]), Fld.Mul(C.F, Fld.Mul(C.F, [x], [x]), [x])) == [3 % p];
  }

  /** The alt_bn128 override tests `this.is_zero()` first, which no class
      defines, so every call throws. */
  function AltBn128IsWellDefined(C: CG.Curve, P: CG.Point): (r: Result<bool>)
    ensures r.Err? && r.error == MissingProperty
  {
    Err(MissingProperty)
  }

  /** A check that passes the identity and throws on every other point: the
      MNT4 `FQ2` override calls `y.squared()`, and the BLS12-318 classes read
      `a`, whose getter calls the missing `identity()` of the field class. */
  function FailsUnlessIdentity(P: CG.Point): (r: Result<bool>)
    ensures r.Ok? <==> P.Identity?
    ensures r.Ok? ==> r.value
    ensures r.Err? ==> r.error == MissingProperty
  {
    if P.Identity? then Ok(true) else Err(MissingProperty)
  }

  // ---------------------------------------------------------------------------
  // Twists

  /** `new FQ12([c0, 0, 0, 0, 0, 0, c6, 0, 0, 0, 0, 0])` */
  function Sparse(c0: int, c6: int, p: int): (e: seq<int>)
    requires p > 0
    ensures |e| == 12 && forall i :: 0 <= i < 12 ==> 0 <= e[i] < p
  {
    seq(12, i => if i == 0 then c0 % p else if i == 6 then c6 % p else 0)
  }

  /** The coordinate map of the BN and MNT twists: x0 − 9·x1 at 0 and x1 at 6. */
  function NineEmbed(c: seq<int>, p: int): (e: seq<int>)
    requires p > 0 && |c| >= 2
    ensures |e| == 12 && e[6] == c[1] % p && (e[0] + 9 * e[6]) % p == c[0] % p
    ensures forall i :: 0 <= i < 12 && i != 0 && i != 6 ==> e[i] == 0
  {
    var m := PF.Mul(c[1], 9, p);
    ModIdempotent(c[1] * 9, p);
    ModMulLeft(c[1], 9, p);
    assert 9 * (c[1] % p) == (c[1] % p) * 9;
    EmbedRecovers(c[0], c[1], m, 9, p);
    ModIdempotent(c[0] - m, p);
    Sparse(PF.Sub(c[0], m, p), c[1], p)
  }

  /** The coordinate map of the BLS12-318 twist: x0 − x1 at 0 and x1 at 6. */
  function UnitEmbed(c: seq<int>, p: int): (e: seq<int>)
    requires p > 0 && |c| >= 2
    ensures |e| == 12 && e[6] == c[1] % p && (e[0] + e[6]) % p == c[0] % p
    ensures forall i :: 0 <= i < 12 && i != 0 && i != 6 ==> e[i] == 0
  {
    ModIdempotent(c[1], p);
    EmbedRecovers(c[0], c[1], c[1], 1, p);
    ModIdempotent(c[0] - c[1], p);
    Sparse(PF.Sub(c[0], c[1], p), c[1], p)
  }

  /** The twists' map to coefficient 0 can be undone: adding k·c1 back to
      c0 − k·c1 gives c0 again. */
  lemma EmbedRecovers(c0: int, c1: int, m: int, k: int, p: int)
    requires p > 0 && m % p == (k * (c1 % p)) % p
    ensures ((c0 - m) % p + k * (c1 % p)) % p == c0 % p
  {
    var t := k * (c1 % p);
    ModAddLeft(c0 - m, t, p);
    assert t == p * (t / p) + t % p;
    assert m == p * (m / p) + m % p;
    assert c0 - m + t == p * (t / p - m / p) + c0;
    ModShift(c0, p, t / p - m / p);
  }

  predicate TwistField(F12: Fld.Field)
  {
    F12.Ext? && F12.rule.Generic? && |F12.mc| == 12 && F12.p > 1
  }

  /** A point of FQ2 or FQ3: the twists read coefficients 0 and 1 only. */
  predicate Twistable(Q: CG.Point)
  {
    Q.Affine? ==> |Q.x| >= 2 && |Q.y| >= 2
  }

  /** `twist` of bn128, MNT4, MNT4-753 and MNT6-753: the identity to the
      identity, otherwise (nx·w², ny·w³) of the embedded coordinates. */
  function Twist(F12: Fld.Field, Q: CG.Point): (r: CG.Point)
    requires TwistField(F12) && Twistable(Q)
    ensures r.Identity? <==> Q.Identity?
    ensures r.Affine? ==> |r.x| == 12 && |r.y| == 12
  {
    if Q.Identity? then CG.Identity
    else
      var p := F12.p;
      CG.Affine(Fld.Mul(F12, NineEmbed(Q.x, p), Fld.Pow(F12, W(), 2)),
                Fld.Mul(F12, NineEmbed(Q.y, p), Fld.Pow(F12, W(), 3)))
  }

  /** Multiplying the embedded coordinates by w² and w³ only moves them up,
      by two and by three places. */
  lemma TwistShifts(F12: Fld.Field, Q: CG.Point)
    requires TwistField(F12) && Twistable(Q) && Q.Affine?
    ensures Twist(F12, Q) == CG.Affine(PL.Shift(NineEmbed(Q.x, F12.p), 2), PL.Shift(NineEmbed(Q.y, F12.p), 3))
  {
    var p := F12.p;
    WPowers(p, F12.mc);
    ShiftEmbedded(NineEmbed(Q.x, p), PF.Sub(Q.x[0], PF.Mul(Q.x[1], 9, p), p), Q.x[1], 2, F12);
    ShiftEmbedded(NineEmbed(Q.y, p), PF.Sub(Q.y[0], PF.Mul(Q.y[1], 9, p), p), Q.y[1], 3, F12);
  }

  /** The twisted point coefficient by coefficient: x0 − 9·x1 at 2 and x1 at
      8, y0 − 9·y1 at 3 and y1 at 9, zero elsewhere; a third coefficient of
      an FQ3 point plays no part. */
  lemma TwistCoefficients(F12: Fld.Field, Q: CG.Point, i: int)
    requires TwistField(F12) && Twistable(Q) && Q.Affine? && 0 <= i < 12
    ensures var p := F12.p; var r := Twist(F12, Q);
      r.x[i] == (if i == 2 then PF.Sub(Q.x[0], PF.Mul(Q.x[1], 9, p), p) else if i == 8 then Q.x[1] % p else 0) &&
      r.y[i] == (if i == 3 then PF.Sub(Q.y[0], PF.Mul(Q.y[1], 9, p), p) else if i == 9 then Q.y[1] % p else 0)
  {
    var p := F12.p;
    TwistShifts(F12, Q);
    var c0 := PF.Sub(Q.x[0], PF.Mul(Q.x[1], 9, p), p);
    var d0 := PF.Sub(Q.y[0], PF.Mul(Q.y[1], 9, p), p);
    ModOfReduced(c0, p);
    ModOfReduced(d0, p);
  }

  /** A sparse element times X^k (0 < k ≤ 5) is the same element moved up k places. */
  lemma ShiftEmbedded(e: seq<int>, c0: int, c6: int, k: nat, F12: Fld.Field)
    requires TwistField(F12) && 0 < k <= 5 && e == Sparse(c0, c6, F12.p)
    ensures Fld.Mul(F12, e, PL.Monomial(k, 12)) == PL.Shift(e, k)
  {
    PL.ProductByMonomial(e, k, F12.mc, F12.p);
  }

  /** `twist` of BLS12-318: the BLS coordinate map, then nx and ny divided by
      w² and w³. */
  function BlsTwist(F12: Fld.Field, Q: CG.Point): (r: CG.Point)
    requires TwistField(F12) && Twistable(Q)
    ensures r.Identity? <==> Q.Identity?
    ensures r.Affine? ==> |r.x| == 12 && |r.y| == 12
  {
    if Q.Identity? then CG.Identity
    else
      var p := F12.p;
      CG.Affine(Fld.Div(F12, UnitEmbed(Q.x, p), Fld.Pow(F12, W(), 2)),
                Fld.Div(F12, UnitEmbed(Q.y, p), Fld.Pow(F12, W(), 3)))
  }

  /** The BLS twist multiplies the embedded coordinates by the inverses of X²
      and X³ that `_FQP.inv` computes. */
  lemma BlsTwistDivides(F12: Fld.Field, Q: CG.Point)
    requires TwistField(F12) && Twistable(Q) && Q.Affine?
    ensures var p := F12.p; var mc := F12.mc;
      BlsTwist(F12, Q) == CG.Affine(
        EF.Product(UnitEmbed(Q.x, p), EF.Inverse(PL.Monomial(2, 12), mc, p), mc, p),
        EF.Product(UnitEmbed(Q.y, p), EF.Inverse(PL.Monomial(3, 12), mc, p), mc, p))
  {
    WPowers(F12.p, F12.mc);
  }

  /** `twist` of alt_bn128 and MNT6: `pt.is_zero()` is not defined, so every
      call throws before the coordinate map is reached. */
  function IsZeroTwist(Q: CG.Point): (r: Result<CG.Point>)
    ensures r.Err? && r.error == MissingProperty
  {
    Err(MissingProperty)
  }
}
