/** Facts about the generic `_FQP.mul`: distributivity over `add` for all
    operands, and its values on special operands (zero, one and powers of the
    generator X, and products whose schoolbook part never reaches X^d, so
    that the reduction against modulus_coeffs does nothing). */
module ProductLaws {
  import opened Arith
  import PF = PrimeField
  import opened PolyAlgebra
  import opened ExtensionField

  /** X^k as an element of a degree-d extension. */
  function Monomial(k: nat, d: nat): (m: seq<int>)
    requires k < d
    ensures |m| == d && m[k] == 1 && forall i :: 0 <= i < d && i != k ==> m[i] == 0
  {
    seq(d, i => if i == k then 1 else 0)
  }

  /** x·X^k: the coefficients moved up k places, the lowest k zero. */
  function Shift(x: seq<int>, k: nat): (s: seq<int>)
    ensures |s| == |x| && forall j :: 0 <= j < |s| ==> s[j] == Coef(x, j - k)
  {
    seq(|x|, j requires 0 <= j < |x| => if j < k then 0 else x[j - k])
  }

  /** A sequence with one nonzero coefficient a[k], multiplied on the left. */
  lemma {:induction false} MulCoefSingleLeft(a: seq<int>, k: nat, b: seq<int>, j: int)
    requires k < |a| && forall i :: 0 <= i < |a| && i != k ==> a[i] == 0
    ensures MulCoef(a, b, j) == a[k] * Coef(b, j - k)
    decreases k
  {
    if k == 0 {
      MulCoefZeroLeft(a[1..], b, j - 1);
    } else {
      MulCoefSingleLeft(a[1..], k - 1, b, j - 1);
    }
  }

  /** A sequence with one nonzero coefficient b[k], multiplied on the right. */
  lemma {:induction false} MulCoefSingleRight(a: seq<int>, b: seq<int>, k: nat, j: int)
    requires k < |b| && forall i :: 0 <= i < |b| && i != k ==> b[i] == 0
    ensures MulCoef(a, b, j) == Coef(a, j - k) * b[k]
    decreases |a|
  {
    if |a| > 0 {
      MulCoefSingleRight(a[1..], b, k, j - 1);
      assert Coef(b, j) == if j == k then b[k] else 0;
      assert Coef(a, j - k) == if j - k == 0 then a[0] else Coef(a[1..], j - 1 - k);
    }
  }

  lemma {:induction false} MulCoefZeroLeft(a: seq<int>, b: seq<int>, j: int)
    requires forall i :: 0 <= i < |a| ==> a[i] == 0
    ensures MulCoef(a, b, j) == 0
    decreases |a|
  {
    if |a| > 0 {
      MulCoefZeroLeft(a[1..], b, j - 1);
    }
  }

  lemma {:induction false} MulCoefZeroRight(a: seq<int>, b: seq<int>, j: int)
    requires forall i :: 0 <= i < |b| ==> b[i] == 0
    ensures MulCoef(a, b, j) == 0
    decreases |a|
  {
    if |a| > 0 {
      MulCoefZeroRight(a[1..], b, j - 1);
      assert Coef(b, j) == 0;
    }
  }

  /** Reduction leaves a sequence alone (but for dropping its top) when
      every coefficient from X^d upward is zero. */
  lemma {:induction false} ReduceTopOfLowDegree(b: seq<int>, mc: seq<int>, p: int)
    requires p > 0 && |b| >= |mc|
    requires forall k :: 0 <= k < |b| ==> 0 <= b[k] < p
    requires forall k :: |mc| <= k < |b| ==> b[k] == 0
    ensures ReduceTop(b, mc, p) == b[..|mc|]
    decreases |b|
  {
    if |b| > |mc| {
      var c := ReducePrefix(b, mc, |mc|, p);
      forall k | 0 <= k < |c|
        ensures c[k] == b[k]
      {
        var e := |b| - |mc| - 1;
        if e <= k < e + |mc| {
          ModOfReduced(0, p);
          ModOfReduced(b[k], p);
          assert c[k] == (b[k] - (0 * mc[k - e]) % p) % p;
        }
      }
      ReduceTopOfLowDegree(c, mc, p);
      assert c[..|mc|] == b[..|mc|];
    }
  }

  /** A product whose schoolbook coefficients vanish from X^d upward is the
      schoolbook product itself. */
  lemma ProductWithoutWrap(x: seq<int>, y: seq<int>, mc: seq<int>, p: int)
    requires p > 0 && |x| == |y| == |mc|
    requires forall k :: |mc| <= k < ProductLength(|mc|) ==> Schoolbook(x, y, p)[k] == 0
    ensures Product(x, y, mc, p) == Schoolbook(x, y, p)[..|mc|]
  {
    ReduceTopOfLowDegree(Schoolbook(x, y, p), mc, p);
  }

  /** Multiplying by zero gives zero. */
  lemma ProductByZero(x: seq<int>, mc: seq<int>, p: int)
    requires p > 0 && |x| == |mc|
    ensures Product(x, Zero(|mc|), mc, p) == Zero(|mc|)
  {
    var s := Schoolbook(x, Zero(|mc|), p);
    forall k | 0 <= k < |s|
      ensures s[k] == 0
    {
      MulCoefZeroRight(x, Zero(|mc|), k);
    }
    ProductWithoutWrap(x, Zero(|mc|), mc, p);
    assert s[..|mc|] == Zero(|mc|);
  }

  /** Zero times anything is zero. */
  lemma ProductZeroLeft(x: seq<int>, mc: seq<int>, p: int)
    requires p > 0 && |x| == |mc|
    ensures Product(Zero(|mc|), x, mc, p) == Zero(|mc|)
  {
    var s := Schoolbook(Zero(|mc|), x, p);
    forall k | 0 <= k < |s|
      ensures s[k] == 0
    {
      MulCoefZeroLeft(Zero(|mc|), x, k);
    }
    ProductWithoutWrap(Zero(|mc|), x, mc, p);
    assert s[..|mc|] == Zero(|mc|);
  }

  /** One is a left identity on elements. */
  lemma ProductByOne(x: seq<int>, mc: seq<int>, p: int)
    requires p > 0 && |mc| > 0 && IsElement(x, |mc|, p)
    ensures Product(One(|mc|, p), x, mc, p) == x
  {
    var d := |mc|;
    var s := Schoolbook(One(d, p), x, p);
    forall k | 0 <= k < |s|
      ensures s[k] == Coef(x, k)
    {
      MulCoefSingleLeft(One(d, p), 0, x, k);
      ModMulLeft(1, Coef(x, k), p);
      ModOfReduced(Coef(x, k), p);
    }
    ProductWithoutWrap(One(d, p), x, mc, p);
    assert s[..d] == x;
  }

  /** Multiplying by X^k shifts the coefficients when nothing is pushed past X^(d−1). */
  lemma ProductByMonomial(x: seq<int>, k: nat, mc: seq<int>, p: int)
    requires p > 0 && k < |mc| && IsElement(x, |mc|, p)
    requires forall i :: |mc| - k <= i < |mc| ==> x[i] == 0
    ensures Product(x, Monomial(k, |mc|), mc, p) == Shift(x, k)
  {
    var d := |mc|;
    var s := Schoolbook(x, Monomial(k, d), p);
    forall j | 0 <= j < |s|
      ensures s[j] == Coef(x, j - k)
    {
      MulCoefSingleRight(x, Monomial(k, d), k, j);
      ModOfReduced(Coef(x, j - k), p);
    }
    ProductWithoutWrap(x, Monomial(k, d), mc, p);
    assert s[..d] == Shift(x, k);
  }

  /** X^i · X^j = X^(i+j) while i + j < d. */
  lemma MonomialProduct(i: nat, j: nat, mc: seq<int>, p: int)
    requires p > 1 && i + j < |mc|
    ensures Product(Monomial(i, |mc|), Monomial(j, |mc|), mc, p) == Monomial(i + j, |mc|)
  {
    ProductByMonomial(Monomial(i, |mc|), j, mc, p);
    assert Shift(Monomial(i, |mc|), j) == Monomial(i + j, |mc|);
  }

  /** The constant c as an element of a degree-d extension: c mod p, then zeros. */
  function Constant(c: int, d: nat, p: int): (k: seq<int>)
    requires d > 0 && p > 0
    ensures |k| == d && k[0] == c % p && forall i :: 0 < i < d ==> k[i] == 0
  {
    seq(d, i => if i == 0 then c % p else 0)
  }

  /** Multiplying by an embedded constant is the coefficient-wise scalar
      multiplication. */
  lemma ProductByConstant(x: seq<int>, c: int, mc: seq<int>, p: int)
    requires p > 0 && |x| == |mc| > 0
    ensures Product(x, Constant(c, |mc|, p), mc, p) == ScalarMul(x, c, p)
  {
    var d := |mc|;
    var k := Constant(c, d, p);
    var s := Schoolbook(x, k, p);
    forall j | 0 <= j < |s|
      ensures s[j] == (Coef(x, j) * (c % p)) % p
    {
      MulCoefSingleRight(x, k, 0, j);
    }
    ModOfReduced(0, p);
    ProductWithoutWrap(x, k, mc, p);
    forall j | 0 <= j < d
      ensures s[j] == ScalarMul(x, c, p)[j]
    {
      var v := x[j];
      assert s[j] == (v * (c % p)) % p;
      ModMulLeft(c, v, p);
      assert v * (c % p) == (c % p) * v && v * c == c * v;
    }
    assert s[..d] == ScalarMul(x, c, p);
  }

  /** Reduction ignores zero coefficients at the top. */
  lemma {:induction false} ReduceTopOfZeroTail(b: seq<int>, mc: seq<int>, n: nat, p: int)
    requires p > 0 && |mc| <= n <= |b|
    requires forall k :: 0 <= k < |b| ==> 0 <= b[k] < p
    requires forall k :: n <= k < |b| ==> b[k] == 0
    ensures ReduceTop(b, mc, p) == ReduceTop(b[..n], mc, p)
    decreases |b|
  {
    if |b| > n {
      var c := ReducePrefix(b, mc, |mc|, p);
      forall k | 0 <= k < |c|
        ensures c[k] == b[k]
      {
        var e := |b| - |mc| - 1;
        if e <= k < e + |mc| {
          ModOfReduced(0, p);
          ModOfReduced(b[k], p);
          assert c[k] == (b[k] - (0 * mc[k - e]) % p) % p;
        }
      }
      ReduceTopOfZeroTail(c, mc, n, p);
      assert c[..n] == b[..n];
    } else {
      assert b[..n] == b;
    }
  }

  /** The schoolbook product of X^i and X^j is X^(i+j), unreduced. */
  lemma MonomialSchoolbook(i: nat, j: nat, d: nat, p: int)
    requires p > 1 && i < d && j < d
    ensures forall k :: 0 <= k < ProductLength(d) ==> Schoolbook(Monomial(i, d), Monomial(j, d), p)[k] == if k == i + j then 1 else 0
  {
    var s := Schoolbook(Monomial(i, d), Monomial(j, d), p);
    forall k | 0 <= k < |s|
      ensures s[k] == if k == i + j then 1 else 0
    {
      MulCoefSingleLeft(Monomial(i, d), i, Monomial(j, d), k);
      ModOfReduced(0, p);
      ModOfReduced(1, p);
    }
  }

  /** −mc reduced: the value of X^d in the extension. */
  function NegatedModulus(mc: seq<int>, p: int): (w: seq<int>)
    requires p > 0
    ensures |w| == |mc| && forall k :: 0 <= k < |mc| ==> w[k] == (-mc[k]) % p
  {
    seq(|mc|, k requires 0 <= k < |mc| => (-mc[k]) % p)
  }

  /** One reduction round on X^d leaves −mc. */
  lemma ReduceLeading(t: seq<int>, mc: seq<int>, p: int)
    requires p > 0 && |t| == |mc| + 1 && t[|mc|] == 1
    requires forall k :: 0 <= k < |mc| ==> t[k] == 0
    ensures ReduceTop(t, mc, p) == NegatedModulus(mc, p)
  {
    var c := ReducePrefix(t, mc, |mc|, p);
    assert ReduceTop(t, mc, p) == c;
    forall k | 0 <= k < |mc|
      ensures c[k] == (-mc[k]) % p
    {
      assert c[k] == PF.Sub(0, PF.Mul(1, mc[k], p), p);
      ModNeg(mc[k], p);
    }
    assert c == NegatedModulus(mc, p);
  }

  /** Reducing X^d, possibly with zeros above it, leaves −mc. */
  lemma ReduceUnitTop(b: seq<int>, mc: seq<int>, p: int)
    requires p > 1 && |b| > |mc| && b[|mc|] == 1
    requires forall k :: 0 <= k < |b| && k != |mc| ==> b[k] == 0
    ensures ReduceTop(b, mc, p) == NegatedModulus(mc, p)
  {
    var d := |mc|;
    assert forall k :: 0 <= k < |b| ==> 0 <= b[k] < p;
    ReduceTopOfZeroTail(b, mc, d + 1, p);
    ReduceLeading(b[..d + 1], mc, p);
  }

  /** X^i · X^j with i + j = d wraps round once: X^d is replaced by
      −Σ mc[k]·X^k, which is what modulus_coeffs mean. */
  lemma MonomialWrap(i: nat, j: nat, mc: seq<int>, p: int)
    requires p > 1 && i < |mc| && j < |mc| && i + j == |mc|
    ensures Product(Monomial(i, |mc|), Monomial(j, |mc|), mc, p) == NegatedModulus(mc, p)
  {
    var d := |mc|;
    MonomialSchoolbook(i, j, d, p);
    ReduceUnitTop(Schoolbook(Monomial(i, d), Monomial(j, d), p), mc, p);
  }

  // ---------------------------------------------------------------------------
  // Distributivity over `add`

  /** A product coefficient is linear, modulo p, in its left operand. */
  lemma {:induction false} MulCoefAddLeft(a: seq<int>, b: seq<int>, c: seq<int>, k: int, p: int)
    requires p > 0 && |a| == |b|
    ensures MulCoef(Add(a, b, p), c, k) % p == (MulCoef(a, c, k) + MulCoef(b, c, k)) % p
    decreases |a|
  {
    if |a| > 0 {
      var s := Add(a, b, p);
      assert s[1..] == Add(a[1..], b[1..], p);
      MulCoefAddLeft(a[1..], b[1..], c, k - 1, p);
      var ra, rb := MulCoef(a[1..], c, k - 1), MulCoef(b[1..], c, k - 1);
      RowSum(a[0], b[0], Coef(c, k), MulCoef(s[1..], c, k - 1), ra, rb, p);
    }
  }

  /** One row of the expansion: s0·v + t against (a0·v + ra) + (b0·v + rb). */
  lemma RowSum(a0: int, b0: int, v: int, t: int, ra: int, rb: int, p: int)
    requires p > 0 && t % p == (ra + rb) % p
    ensures (((a0 + b0) % p) * v + t) % p == (a0 * v + ra + (b0 * v + rb)) % p
  {
    ModMulLeft(a0 + b0, v, p);
    ModAdd(((a0 + b0) % p) * v, t, p);
    ModAdd((a0 + b0) * v, ra + rb, p);
    assert (a0 + b0) * v + (ra + rb) == a0 * v + ra + (b0 * v + rb);
  }

  /** The schoolbook product distributes over `add`. */
  lemma SchoolbookAdd(a: seq<int>, b: seq<int>, c: seq<int>, p: int)
    requires p > 0 && |a| == |b| == |c|
    ensures Schoolbook(Add(a, b, p), c, p) == Add(Schoolbook(a, c, p), Schoolbook(b, c, p), p)
  {
    var l, r := Schoolbook(Add(a, b, p), c, p), Add(Schoolbook(a, c, p), Schoolbook(b, c, p), p);
    forall k | 0 <= k < |l|
      ensures l[k] == r[k]
    {
      MulCoefAddLeft(a, b, c, k, p);
      ModAdd(MulCoef(a, c, k), MulCoef(b, c, k), p);
    }
  }

  /** Dropping the top and subtracting top·m at one index is linear modulo p. */
  lemma FoldLinear(u: int, v: int, ut: int, vt: int, m: int, p: int)
    requires p > 0
    ensures PF.Sub(PF.Add(u, v, p), PF.Mul(PF.Add(ut, vt, p), m, p), p)
         == PF.Add(PF.Sub(u, PF.Mul(ut, m, p), p), PF.Sub(v, PF.Mul(vt, m, p), p), p)
  {
    ModMulLeft(ut + vt, m, p);
    ModSub(u + v, (ut + vt) * m, p);
    ModSub(u, ut * m, p);
    ModAddLeft(u, -((ut * m) % p), p);
    ModSub(v, vt * m, p);
    ModAddLeft(v, -((vt * m) % p), p);
    ModAdd(u - ut * m, v - vt * m, p);
    assert u + v - (ut + vt) * m == (u - ut * m) + (v - vt * m);
  }

  /** One reduction round distributes over `add`. */
  lemma ReducePrefixAdd(u: seq<int>, v: seq<int>, mc: seq<int>, p: int)
    requires p > 0 && |u| == |v| > |mc|
    ensures ReducePrefix(Add(u, v, p), mc, |mc|, p)
         == Add(ReducePrefix(u, mc, |mc|, p), ReducePrefix(v, mc, |mc|, p), p)
  {
    var l := ReducePrefix(Add(u, v, p), mc, |mc|, p);
    var r := Add(ReducePrefix(u, mc, |mc|, p), ReducePrefix(v, mc, |mc|, p), p);
    var e, t := |u| - |mc| - 1, |u| - 1;
    forall k | 0 <= k < |l|
      ensures l[k] == r[k]
    {
      if e <= k {
        FoldLinear(u[k], v[k], u[t], v[t], mc[k - e], p);
      }
    }
  }

  /** The whole reduction against modulus_coeffs distributes over `add`. */
  lemma {:induction false} ReduceTopAdd(u: seq<int>, v: seq<int>, mc: seq<int>, p: int)
    requires p > 0 && |u| == |v|
    ensures ReduceTop(Add(u, v, p), mc, p) == Add(ReduceTop(u, mc, p), ReduceTop(v, mc, p), p)
    decreases |u|
  {
    if |u| > |mc| {
      ReducePrefixAdd(u, v, mc, p);
      ReduceTopAdd(ReducePrefix(u, mc, |mc|, p), ReducePrefix(v, mc, |mc|, p), mc, p);
    }
  }

  /** `_FQP.mul` distributes over `add`, for all operands and every
      modulus_coeffs: (a + b)·c = a·c + b·c. */
  lemma ProductDistributes(a: seq<int>, b: seq<int>, c: seq<int>, mc: seq<int>, p: int)
    requires p > 0 && |a| == |b| == |c| == |mc|
    ensures Product(Add(a, b, p), c, mc, p) == Add(Product(a, c, mc, p), Product(b, c, mc, p), p)
  {
    SchoolbookAdd(a, b, c, p);
    ReduceTopAdd(Schoolbook(a, c, p), Schoolbook(b, c, p), mc, p);
  }
}
