/** The specialised `FQ2.mul` (degree 2) and `FQ3.mul` (degree 3) overrides of
    the MNT curve files. Both read the non-residue nr from modulus_coeffs[0]
    and implement u^d = +nr, whereas the generic `_FQP` reduction with the same
    modulus_coeffs = [nr, 0, ...] implements u^d = −nr. */
module Karatsuba {
  import opened Arith
  import PF = PrimeField
  import EF = ExtensionField
  import opened PolyAlgebra
  import PL = ProductLaws

  /** The degree-2 override: a = a1·a2, b = b1·b2,
      [a + b·nr, (a1 + b1)(a2 + b2) − a − b]. */
  function Quadratic(x: seq<int>, y: seq<int>, nr: int, p: int): (r: seq<int>)
    requires p > 0 && |x| == 2 && |y| == 2
    ensures |r| == 2
  {
    var a := PF.Mul(x[0], y[0], p);
    var b := PF.Mul(x[1], y[1], p);
    [PF.Add(a, PF.Mul(b, nr, p), p),
     PF.Sub(PF.Sub(PF.Mul(PF.Add(x[0], x[1], p), PF.Add(y[0], y[1], p), p), a, p), b, p)]
  }

  /** The degree-3 override: a = a1·a2, b = b1·b2, c = c1·c2,
      [a + ((b1 + c1)(b2 + c2) − b − c)·nr,
       (a1 + b1)(a2 + b2) − a − b + c·nr,
       (a1 + c1)(a2 + c2) − a + b − c]. */
  function Cubic(x: seq<int>, y: seq<int>, nr: int, p: int): (r: seq<int>)
    requires p > 0 && |x| == 3 && |y| == 3
    ensures |r| == 3
  {
    var a := PF.Mul(x[0], y[0], p);
    var b := PF.Mul(x[1], y[1], p);
    var c := PF.Mul(x[2], y[2], p);
    [PF.Add(a, PF.Mul(PF.Sub(PF.Sub(PF.Mul(PF.Add(x[1], x[2], p), PF.Add(y[1], y[2], p), p), b, p), c, p), nr, p), p),
     PF.Add(PF.Sub(PF.Sub(PF.Mul(PF.Add(x[0], x[1], p), PF.Add(y[0], y[1], p), p), a, p), b, p), PF.Mul(c, nr, p), p),
     PF.Sub(PF.Add(PF.Sub(PF.Mul(PF.Add(x[0], x[2], p), PF.Add(y[0], y[2], p), p), a, p), b, p), c, p)]
  }

  /** (A + B)(C + D) − A·C − B·D reduced, from the reduced partial products. */
  lemma CrossTerm(a0: int, a1: int, b0: int, b1: int, p: int)
    requires p > 0
    ensures PF.Sub(PF.Sub(PF.Mul(PF.Add(a0, a1, p), PF.Add(b0, b1, p), p), PF.Mul(a0, b0, p), p), PF.Mul(a1, b1, p), p)
      == (a0 * b1 + a1 * b0) % p
  {
    var s := (a0 + a1) * (b0 + b1);
    ModMul(a0 + a1, b0 + b1, p);
    ModSub(s, a0 * b0, p);
    ModSub(s - a0 * b0, a1 * b1, p);
    assert s - a0 * b0 - a1 * b1 == a0 * b1 + a1 * b0;
  }

  /** Adding nr times a reduced product. */
  lemma PlusScaled(u: int, v: int, nr: int, p: int)
    requires p > 0
    ensures PF.Add(u % p, PF.Mul(v % p, nr, p), p) == (u + nr * v) % p
  {
    ModMulLeft(v, nr, p);
    ModAdd(u, v * nr, p);
    assert v * nr == nr * v;
  }

  /** The degree-2 override computes (a1 + b1·u)(a2 + b2·u) with u² = nr. */
  lemma QuadraticFormula(x: seq<int>, y: seq<int>, nr: int, p: int)
    requires p > 0 && |x| == 2 && |y| == 2
    ensures Quadratic(x, y, nr, p) == [(x[0] * y[0] + nr * (x[1] * y[1])) % p, (x[0] * y[1] + x[1] * y[0]) % p]
  {
    PlusScaled(x[0] * y[0], x[1] * y[1], nr, p);
    CrossTerm(x[0], x[1], y[0], y[1], p);
  }

  /** The degree-3 override computes the product with u³ = nr. */
  lemma CubicFormula(x: seq<int>, y: seq<int>, nr: int, p: int)
    requires p > 0 && |x| == 3 && |y| == 3
    ensures Cubic(x, y, nr, p) ==
      [(x[0] * y[0] + nr * (x[1] * y[2] + x[2] * y[1])) % p,
       (x[0] * y[1] + x[1] * y[0] + nr * (x[2] * y[2])) % p,
       (x[0] * y[2] + x[1] * y[1] + x[2] * y[0]) % p]
  {
    var r := Cubic(x, y, nr, p);
    CubicOuter(x[0], x[1], x[2], y[0], y[1], y[2], nr, p);
    assert r[0] == (x[0] * y[0] + nr * (x[1] * y[2] + x[2] * y[1])) % p;
    assert r[1] == (x[0] * y[1] + x[1] * y[0] + nr * (x[2] * y[2])) % p;
    CubicMiddle(x[0], x[1], x[2], y[0], y[1], y[2], p);
    assert r[2] == (x[0] * y[2] + x[1] * y[1] + x[2] * y[0]) % p;
  }

  /** Coefficients 0 and 1 of the degree-3 override. */
  lemma CubicOuter(a1: int, b1: int, c1: int, a2: int, b2: int, c2: int, nr: int, p: int)
    requires p > 0
    ensures PF.Add(PF.Mul(a1, a2, p), PF.Mul(PF.Sub(PF.Sub(PF.Mul(PF.Add(b1, c1, p), PF.Add(b2, c2, p), p),
              PF.Mul(b1, b2, p), p), PF.Mul(c1, c2, p), p), nr, p), p)
      == (a1 * a2 + nr * (b1 * c2 + c1 * b2)) % p
    ensures PF.Add(PF.Sub(PF.Sub(PF.Mul(PF.Add(a1, b1, p), PF.Add(a2, b2, p), p), PF.Mul(a1, a2, p), p),
              PF.Mul(b1, b2, p), p), PF.Mul(PF.Mul(c1, c2, p), nr, p), p)
      == (a1 * b2 + b1 * a2 + nr * (c1 * c2)) % p
  {
    CrossTerm(b1, c1, b2, c2, p);
    PlusScaled(a1 * a2, b1 * c2 + c1 * b2, nr, p);
    CrossTerm(a1, b1, a2, b2, p);
    PlusScaled(a1 * b2 + b1 * a2, c1 * c2, nr, p);
  }

  /** Coefficient 2 of the degree-3 override. */
  lemma CubicMiddle(a1: int, b1: int, c1: int, a2: int, b2: int, c2: int, p: int)
    requires p > 0
    ensures PF.Sub(PF.Add(PF.Sub(PF.Mul(PF.Add(a1, c1, p), PF.Add(a2, c2, p), p), PF.Mul(a1, a2, p), p),
              PF.Mul(b1, b2, p), p), PF.Mul(c1, c2, p), p)
      == (a1 * c2 + b1 * b2 + c1 * a2) % p
  {
    var s := (a1 + c1) * (a2 + c2);
    ModMul(a1 + c1, a2 + c2, p);
    ModSub(s, a1 * a2, p);
    ModAdd(s - a1 * a2, b1 * b2, p);
    ModSub(s - a1 * a2 + b1 * b2, c1 * c2, p);
    assert s - a1 * a2 + b1 * b2 - c1 * c2 == a1 * c2 + b1 * b2 + c1 * a2;
  }

  /** The coefficients of a product of two degree-2 elements before reduction. */
  lemma MulCoef2(x: seq<int>, y: seq<int>, k: int)
    requires |x| == 2
    ensures MulCoef(x, y, k) == x[0] * Coef(y, k) + x[1] * Coef(y, k - 1)
  {
    assert MulCoef(x[1..][1..], y, k - 2) == 0;
    assert MulCoef(x[1..], y, k - 1) == x[1] * Coef(y, k - 1);
  }

  lemma MulCoef3(x: seq<int>, y: seq<int>, k: int)
    requires |x| == 3
    ensures MulCoef(x, y, k) == x[0] * Coef(y, k) + x[1] * Coef(y, k - 1) + x[2] * Coef(y, k - 2)
  {
    MulCoef2(x[1..], y, k - 1);
  }

  lemma Schoolbook2(x: seq<int>, y: seq<int>, p: int)
    requires p > 0 && |x| == 2 && |y| == 2
    ensures EF.Schoolbook(x, y, p) ==
      [(x[0] * y[0]) % p, (x[0] * y[1] + x[1] * y[0]) % p, (x[1] * y[1]) % p]
  {
    MulCoef2(x, y, 0);
    MulCoef2(x, y, 1);
    MulCoef2(x, y, 2);
  }

  lemma Schoolbook3(x: seq<int>, y: seq<int>, p: int)
    requires p > 0 && |x| == 3 && |y| == 3
    ensures EF.Schoolbook(x, y, p) ==
      [(x[0] * y[0]) % p, (x[0] * y[1] + x[1] * y[0]) % p, (x[0] * y[2] + x[1] * y[1] + x[2] * y[0]) % p,
       (x[1] * y[2] + x[2] * y[1]) % p, (x[2] * y[2]) % p]
  {
    MulCoef3(x, y, 0);
    MulCoef3(x, y, 1);
    MulCoef3(x, y, 2);
    MulCoef3(x, y, 3);
    MulCoef3(x, y, 4);
  }

  /** Folding the top coefficient t of a reduced product back with coefficient c. */
  lemma FoldTop(m: int, t: int, c: int, p: int)
    requires p > 0
    ensures PF.Sub(m % p, PF.Mul(t % p, c, p), p) == (m - t * c) % p
  {
    ModMulLeft(t, c, p);
    ModSub(m, t * c, p);
  }

  /** With c ≡ −nr, folding subtracts t·c, which is adding nr·t. */
  lemma FoldNegated(m: int, t: int, c: int, nr: int, p: int)
    requires p > 0 && (c + nr) % p == 0
    ensures (m - t * c) % p == (m + nr * t) % p
  {
    var q := (c + nr) / p;
    assert c == p * q - nr;
    assert m - t * c == p * (-t * q) + (m + nr * t);
    ModShift(m + nr * t, p, -t * q);
  }

  /** The generic `_FQP.mul` with modulus_coeffs [c0, c1] reduces by u² = −c0 − c1·u. */
  lemma GenericQuadratic(x: seq<int>, y: seq<int>, mc: seq<int>, p: int)
    requires p > 0 && |x| == 2 && |y| == 2 && |mc| == 2
    ensures var m0, m1, m2 := x[0] * y[0], x[0] * y[1] + x[1] * y[0], x[1] * y[1];
      EF.Product(x, y, mc, p) == [(m0 - m2 * mc[0]) % p, (m1 - m2 * mc[1]) % p]
  {
    var m0, m1, m2 := x[0] * y[0], x[0] * y[1] + x[1] * y[0], x[1] * y[1];
    var b := EF.Schoolbook(x, y, p);
    Schoolbook2(x, y, p);
    var c := EF.ReducePrefix(b, mc, 2, p);
    assert c == [PF.Sub(m0 % p, PF.Mul(m2 % p, mc[0], p), p), PF.Sub(m1 % p, PF.Mul(m2 % p, mc[1], p), p)];
    assert EF.ReduceTop(c, mc, p) == c;
    assert EF.ReduceTop(b, mc, p) == EF.ReduceTop(c, mc, p);
    FoldTop(m0, m2, mc[0], p);
    FoldTop(m1, m2, mc[1], p);
  }

  /** The degree-2 override equals the generic multiplication for
      modulus_coeffs ≡ [−nr, 0]: the override's u² = +nr. */
  lemma QuadraticIsGenericNegated(x: seq<int>, y: seq<int>, nr: int, mc: seq<int>, p: int)
    requires p > 0 && |x| == 2 && |y| == 2 && |mc| == 2
    requires (mc[0] + nr) % p == 0 && mc[1] % p == 0
    ensures Quadratic(x, y, nr, p) == EF.Product(x, y, mc, p)
  {
    var m0, m1, m2 := x[0] * y[0], x[0] * y[1] + x[1] * y[0], x[1] * y[1];
    QuadraticFormula(x, y, nr, p);
    GenericQuadratic(x, y, mc, p);
    FoldNegated(m0, m2, mc[0], nr, p);
    FoldNegated(m1, m2, mc[1], 0, p);
  }

  /** The sign mismatch: on u·u with the curve file's own modulus_coeffs
      [nr, 0], the override gives nr and the generic multiplication (which
      `_FQP.inv` and `_FQP.pow` rely on) gives −nr. They agree exactly when
      2·nr ≡ 0 (mod p). */
  lemma QuadraticSignMismatch(nr: int, p: int)
    requires p > 0
    ensures Quadratic([0, 1], [0, 1], nr, p) == [nr % p, 0]
    ensures EF.Product([0, 1], [0, 1], [nr, 0], p) == [(-nr) % p, 0]
    ensures Quadratic([0, 1], [0, 1], nr, p) == EF.Product([0, 1], [0, 1], [nr, 0], p) <==> (2 * nr) % p == 0
  {
    OverrideSquaresU(nr, p);
    GenericSquaresU(nr, p);
    SignsAgree(nr, p);
    assert [nr % p, 0] == [(-nr) % p, 0] <==> nr % p == (-nr) % p;
  }

  lemma OverrideSquaresU(nr: int, p: int)
    requires p > 0
    ensures Quadratic([0, 1], [0, 1], nr, p) == [nr % p, 0]
  {
    QuadraticFormula([0, 1], [0, 1], nr, p);
    assert 0 * 0 + nr * (1 * 1) == nr && 0 * 1 + 1 * 0 == 0;
  }

  lemma GenericSquaresU(nr: int, p: int)
    requires p > 0
    ensures EF.Product([0, 1], [0, 1], [nr, 0], p) == [(-nr) % p, 0]
  {
    var u: seq<int> := [0, 1];
    GenericQuadratic(u, u, [nr, 0], p);
    assert u[0] * u[0] - (u[1] * u[1]) * nr == -nr;
    assert u[0] * u[1] + u[1] * u[0] - (u[1] * u[1]) * 0 == 0;
    ModOfReduced(0, p);
  }

  /** nr ≡ −nr exactly when 2·nr ≡ 0. */
  lemma SignsAgree(nr: int, p: int)
    requires p > 0
    ensures nr % p == (-nr) % p <==> (2 * nr) % p == 0
  {
    if nr % p == (-nr) % p {
      assert nr == p * (nr / p) + nr % p;
      assert -nr == p * ((-nr) / p) + (-nr) % p;
      assert 2 * nr == p * (nr / p - (-nr) / p);
      ModOfMultiple(p, nr / p - (-nr) / p);
    }
    if (2 * nr) % p == 0 {
      assert 2 * nr == p * ((2 * nr) / p);
      CongruentOfMultiple(nr, -nr, p, (2 * nr) / p);
    }
  }

  /** The generic `_FQP.mul` with three modulus coefficients [c0, 0, 0]. */
  lemma GenericCubic(x: seq<int>, y: seq<int>, mc: seq<int>, p: int)
    requires p > 0 && |x| == 3 && |y| == 3 && |mc| == 3
    requires mc[1] % p == 0 && mc[2] % p == 0
    ensures var m0, m1, m2 := x[0] * y[0], x[0] * y[1] + x[1] * y[0], x[0] * y[2] + x[1] * y[1] + x[2] * y[0];
      var m3, m4 := x[1] * y[2] + x[2] * y[1], x[2] * y[2];
      EF.Product(x, y, mc, p) == [(m0 - m3 * mc[0]) % p, (m1 - m4 * mc[0]) % p, m2 % p]
  {
    var m0, m1, m2 := x[0] * y[0], x[0] * y[1] + x[1] * y[0], x[0] * y[2] + x[1] * y[1] + x[2] * y[0];
    var m3, m4 := x[1] * y[2] + x[2] * y[1], x[2] * y[2];
    var b := EF.Schoolbook(x, y, p);
    Schoolbook3(x, y, p);
    var c := EF.ReducePrefix(b, mc, 3, p);
    FirstCubicRound(m0, m1, m2, m3, m4, mc, p);
    var e := EF.ReducePrefix(c, mc, 3, p);
    SecondCubicRound(m0, m1 - m4 * mc[0], m2, m3, mc, p);
    assert EF.ReduceTop(e, mc, p) == e;
    assert EF.ReduceTop(c, mc, p) == EF.ReduceTop(e, mc, p);
    assert EF.ReduceTop(b, mc, p) == EF.ReduceTop(c, mc, p);
  }

  /** Folding X^4 of a degree-3 product: only X^1 changes when c1, c2 ≡ 0. */
  lemma FirstCubicRound(m0: int, m1: int, m2: int, m3: int, m4: int, mc: seq<int>, p: int)
    requires p > 0 && |mc| == 3 && mc[1] % p == 0 && mc[2] % p == 0
    ensures EF.ReducePrefix([m0 % p, m1 % p, m2 % p, m3 % p, m4 % p], mc, 3, p)
      == [m0 % p, (m1 - m4 * mc[0]) % p, m2 % p, m3 % p]
  {
    FoldTop(m1, m4, mc[0], p);
    FoldTop(m2, m4, mc[1], p);
    FoldTop(m3, m4, mc[2], p);
    FoldNegated(m2, m4, mc[1], 0, p);
    FoldNegated(m3, m4, mc[2], 0, p);
  }

  /** Folding X^3: only X^0 changes when c1, c2 ≡ 0. */
  lemma SecondCubicRound(m0: int, m1: int, m2: int, m3: int, mc: seq<int>, p: int)
    requires p > 0 && |mc| == 3 && mc[1] % p == 0 && mc[2] % p == 0
    ensures EF.ReducePrefix([m0 % p, m1 % p, m2 % p, m3 % p], mc, 3, p)
      == [(m0 - m3 * mc[0]) % p, m1 % p, m2 % p]
  {
    FoldTop(m0, m3, mc[0], p);
    FoldTop(m1, m3, mc[1], p);
    FoldTop(m2, m3, mc[2], p);
    FoldNegated(m1, m3, mc[1], 0, p);
    FoldNegated(m2, m3, mc[2], 0, p);
  }

  /** The degree-3 override equals the generic multiplication for
      modulus_coeffs ≡ [−nr, 0, 0]. */
  lemma CubicIsGenericNegated(x: seq<int>, y: seq<int>, nr: int, mc: seq<int>, p: int)
    requires p > 0 && |x| == 3 && |y| == 3 && |mc| == 3
    requires (mc[0] + nr) % p == 0 && mc[1] % p == 0 && mc[2] % p == 0
    ensures Cubic(x, y, nr, p) == EF.Product(x, y, mc, p)
  {
    var m0, m1 := x[0] * y[0], x[0] * y[1] + x[1] * y[0];
    var m3, m4 := x[1] * y[2] + x[2] * y[1], x[2] * y[2];
    CubicFormula(x, y, nr, p);
    GenericCubic(x, y, mc, p);
    FoldNegated(m0, m3, mc[0], nr, p);
    FoldNegated(m1, m4, mc[0], nr, p);
  }

  lemma QuadraticByZero(x: seq<int>, nr: int, p: int)
    requires p > 0 && |x| == 2
    ensures Quadratic(x, [0, 0], nr, p) == [0, 0]
  {
    var z: seq<int> := [0, 0];
    QuadraticFormula(x, z, nr, p);
    assert x[0] * z[0] + nr * (x[1] * z[1]) == 0 && x[0] * z[1] + x[1] * z[0] == 0;
    ModOfReduced(0, p);
  }

  lemma CubicByZero(x: seq<int>, nr: int, p: int)
    requires p > 0 && |x| == 3
    ensures Cubic(x, [0, 0, 0], nr, p) == [0, 0, 0]
  {
    var z: seq<int> := [0, 0, 0];
    CubicFormula(x, z, nr, p);
    assert x[0] * z[0] + nr * (x[1] * z[2] + x[2] * z[1]) == 0;
    assert x[0] * z[1] + x[1] * z[0] + nr * (x[2] * z[2]) == 0;
    assert x[0] * z[2] + x[1] * z[1] + x[2] * z[0] == 0;
    ModOfReduced(0, p);
  }

  lemma QuadraticZeroLeft(x: seq<int>, nr: int, p: int)
    requires p > 0 && |x| == 2
    ensures Quadratic([0, 0], x, nr, p) == [0, 0]
  {
    var z: seq<int> := [0, 0];
    QuadraticFormula(z, x, nr, p);
    assert z[0] * x[0] + nr * (z[1] * x[1]) == 0 && z[0] * x[1] + z[1] * x[0] == 0;
    ModOfReduced(0, p);
  }

  lemma CubicZeroLeft(x: seq<int>, nr: int, p: int)
    requires p > 0 && |x| == 3
    ensures Cubic([0, 0, 0], x, nr, p) == [0, 0, 0]
  {
    var z: seq<int> := [0, 0, 0];
    CubicFormula(z, x, nr, p);
    assert z[0] * x[0] + nr * (z[1] * x[2] + z[2] * x[1]) == 0;
    assert z[0] * x[1] + z[1] * x[0] + nr * (z[2] * x[2]) == 0;
    assert z[0] * x[2] + z[1] * x[1] + z[2] * x[0] == 0;
    ModOfReduced(0, p);
  }

  /** [1, 0] is a left identity of the degree-2 override on residues. */
  lemma QuadraticOneLeft(x: seq<int>, nr: int, p: int)
    requires p > 0 && |x| == 2 && 0 <= x[0] < p && 0 <= x[1] < p
    ensures Quadratic([1, 0], x, nr, p) == x
  {
    var o: seq<int> := [1, 0];
    QuadraticFormula(o, x, nr, p);
    assert o[0] * x[0] + nr * (o[1] * x[1]) == x[0] && o[0] * x[1] + o[1] * x[0] == x[1];
    ModOfReduced(x[0], p);
    ModOfReduced(x[1], p);
  }

  /** [1, 0, 0] is a left identity of the degree-3 override on residues. */
  lemma CubicOneLeft(x: seq<int>, nr: int, p: int)
    requires p > 0 && |x| == 3 && 0 <= x[0] < p && 0 <= x[1] < p && 0 <= x[2] < p
    ensures Cubic([1, 0, 0], x, nr, p) == x
  {
    CubicFormula([1, 0, 0], x, nr, p);
    OneLeftCoefficients(x[0], x[1], x[2], nr, p);
  }

  lemma OneLeftCoefficients(x0: int, x1: int, x2: int, nr: int, p: int)
    requires p > 0 && 0 <= x0 < p && 0 <= x1 < p && 0 <= x2 < p
    ensures (1 * x0 + nr * (0 * x2 + 0 * x1)) % p == x0
    ensures (1 * x1 + 0 * x0 + nr * (0 * x2)) % p == x1
    ensures (1 * x2 + 0 * x1 + 0 * x0) % p == x2
  {
    ModOfReduced(x0, p);
    ModOfReduced(x1, p);
    ModOfReduced(x2, p);
  }

  /** The FQ2 override distributes over `add`: it is the generic product for
      modulus_coeffs [−ν, 0], and that product does. */
  lemma QuadraticDistributes(a: seq<int>, b: seq<int>, c: seq<int>, nr: int, p: int)
    requires p > 0 && |a| == 2 && |b| == 2 && |c| == 2
    ensures Quadratic(EF.Add(a, b, p), c, nr, p) == EF.Add(Quadratic(a, c, nr, p), Quadratic(b, c, nr, p), p)
  {
    var g := [-nr, 0];
    QuadraticIsGenericNegated(EF.Add(a, b, p), c, nr, g, p);
    QuadraticIsGenericNegated(a, c, nr, g, p);
    QuadraticIsGenericNegated(b, c, nr, g, p);
    PL.ProductDistributes(a, b, c, g, p);
  }

  /** The FQ3 override distributes over `add`, through modulus_coeffs [−ν, 0, 0]. */
  lemma CubicDistributes(a: seq<int>, b: seq<int>, c: seq<int>, nr: int, p: int)
    requires p > 0 && |a| == 3 && |b| == 3 && |c| == 3
    ensures Cubic(EF.Add(a, b, p), c, nr, p) == EF.Add(Cubic(a, c, nr, p), Cubic(b, c, nr, p), p)
  {
    var g := [-nr, 0, 0];
    CubicIsGenericNegated(EF.Add(a, b, p), c, nr, g, p);
    CubicIsGenericNegated(a, c, nr, g, p);
    CubicIsGenericNegated(b, c, nr, g, p);
    PL.ProductDistributes(a, b, c, g, p);
  }
}
