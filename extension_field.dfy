/** The generic extension-field element `_FQP` of fields/field_elements.js.
    An element is a sequence of d = |mc| residues, the coefficients of a
    polynomial of degree below d; `mc` (`modulus_coeffs`) fixes the
    reduction X^d = −Σ mc[i]·X^i. */
module ExtensionField {
  import opened Arith
  import opened Wrappers
  import PF = PrimeField
  import opened Polynomials
  import opened PolyAlgebra

  /** A well-formed element: d coefficients, each a residue. */
  predicate IsElement(x: seq<int>, d: nat, p: int)
  {
    |x| == d && forall i :: 0 <= i < |x| ==> 0 <= x[i] < p
  }

  /** The `_FQP` constructor: asserts the length, then reduces every coefficient. */
  function FromCoeffs(c: seq<int>, d: nat, p: int): (r: Result<seq<int>>)
    requires p > 0
    ensures r.Ok? <==> |c| == d
    ensures r.Ok? ==> IsElement(r.value, d, p)
    ensures r.Ok? ==> forall i :: 0 <= i < d ==> r.value[i] == c[i] % p
  {
    if |c| != d then Err(AssertionFailed) else Ok(ReduceAll(c, p))
  }

  function Add(x: seq<int>, y: seq<int>, p: int): (r: seq<int>)
    requires p > 0 && |x| == |y|
    ensures |r| == |x| && forall i :: 0 <= i < |r| ==> r[i] == (x[i] + y[i]) % p
  {
    seq(|x|, i requires 0 <= i < |x| => PF.Add(x[i], y[i], p))
  }

  function Sub(x: seq<int>, y: seq<int>, p: int): (r: seq<int>)
    requires p > 0 && |x| == |y|
    ensures |r| == |x| && forall i :: 0 <= i < |r| ==> r[i] == (x[i] - y[i]) % p
  {
    seq(|x|, i requires 0 <= i < |x| => PF.Sub(x[i], y[i], p))
  }

  function Neg(x: seq<int>, p: int): (r: seq<int>)
    requires p > 0
    ensures |r| == |x| && forall i :: 0 <= i < |r| ==> r[i] == (-x[i]) % p
  {
    seq(|x|, i requires 0 <= i < |x| => PF.Neg(x[i], p))
  }

  /** `mul` by an `FQ`, a bigint or a number: every coefficient times k. */
  function ScalarMul(x: seq<int>, k: int, p: int): (r: seq<int>)
    requires p > 0
    ensures |r| == |x| && forall i :: 0 <= i < |r| ==> r[i] == (x[i] * k) % p
  {
    seq(|x|, i requires 0 <= i < |x| => PF.Mul(x[i], k, p))
  }

  /** `div` by an `FQ`: every coefficient divided with `_FQ.div`. */
  function ScalarDiv(x: seq<int>, k: int, p: int): (r: seq<int>)
    requires p > 0
    ensures |r| == |x| && forall i :: 0 <= i < |r| ==> 0 <= r[i] < p
    ensures k == 0 ==> forall i :: 0 <= i < |r| ==> r[i] == 0
    ensures IsPrime(p) && k >= 0 && k % p != 0 ==> forall i :: 0 <= i < |r| ==> (r[i] * k) % p == x[i] % p
  {
    seq(|x|, i requires 0 <= i < |x| => PF.Div(x[i], k, p))
  }

  /** `one()`: 1 followed by d − 1 zeros (d must be positive, else the
      constructor's length assertion fails). */
  function One(d: nat, p: int): (r: seq<int>)
    requires p > 0 && d > 0
    ensures IsElement(r, d, p) && r[0] == 1 % p && forall i :: 0 < i < d ==> r[i] == 0
  {
    seq(d, i => if i == 0 then PF.One(p) else 0)
  }

  function Zero(d: nat): (r: seq<int>)
    ensures |r| == d && forall i :: 0 <= i < d ==> r[i] == 0
  {
    seq(d, i => 0)
  }

  /** `eq`: scan the coefficients from index i on. */
  function EqFrom(x: seq<int>, y: seq<int>, i: nat): bool
    requires |x| == |y| && i <= |x|
    decreases |x| - i
  {
    i == |x| || (x[i] == y[i] && EqFrom(x, y, i + 1))
  }

  lemma {:induction false} EqFromSpec(x: seq<int>, y: seq<int>, i: nat)
    requires |x| == |y| && i <= |x|
    ensures EqFrom(x, y, i) <==> x[i..] == y[i..]
    decreases |x| - i
  {
    if i < |x| {
      EqFromSpec(x, y, i + 1);
      assert x[i..] == [x[i]] + x[i + 1..];
      assert y[i..] == [y[i]] + y[i + 1..];
    }
  }

  /** `eq`: equal exactly when every coefficient is equal. */
  function Eq(x: seq<int>, y: seq<int>): (r: bool)
    requires |x| == |y|
    ensures r <==> x == y
  {
    EqFromSpec(x, y, 0);
    EqFrom(x, y, 0)
  }

  // ---------------------------------------------------------------------------
  // Multiplication of two elements

  function ProductLength(d: nat): nat
  {
    if d == 0 then 0 else 2 * d - 1
  }

  /** The schoolbook product, each coefficient reduced. */
  function Schoolbook(x: seq<int>, y: seq<int>, p: int): (b: seq<int>)
    requires p > 0 && |x| == |y|
    ensures |b| == ProductLength(|x|)
  {
    seq(ProductLength(|x|), k => MulCoef(x, y, k) % p)
  }

  /** The first n updates of one reduction round: the top coefficient is
      dropped and top·mc[i] is subtracted at index e + i. */
  function ReducePrefix(b: seq<int>, mc: seq<int>, n: nat, p: int): (c: seq<int>)
    requires p > 0 && |b| > |mc| && n <= |mc|
    ensures |c| == |b| - 1
  {
    var e := |b| - |mc| - 1;
    var top := b[|b| - 1];
    seq(|b| - 1, k requires 0 <= k < |b| - 1 =>
      if e <= k < e + n then PF.Sub(b[k], PF.Mul(top, mc[k - e], p), p) else b[k])
  }

  lemma ReducePrefixStep(b: seq<int>, mc: seq<int>, n: nat, p: int)
    requires p > 0 && |b| > |mc| && n < |mc|
    ensures var e := |b| - |mc| - 1;
      ReducePrefix(b, mc, n + 1, p)
        == ReducePrefix(b, mc, n, p)[e + n := PF.Sub(ReducePrefix(b, mc, n, p)[e + n], PF.Mul(b[|b| - 1], mc[n], p), p)]
  {
  }

  /** Drop top coefficients until d remain. */
  function ReduceTop(b: seq<int>, mc: seq<int>, p: int): (c: seq<int>)
    requires p > 0
    ensures |c| == if |b| <= |mc| then |b| else |mc|
    decreases |b|
  {
    if |b| <= |mc| then b else ReduceTop(ReducePrefix(b, mc, |mc|, p), mc, p)
  }

  /** The value of `_FQP.mul` on two elements. */
  function Product(x: seq<int>, y: seq<int>, mc: seq<int>, p: int): (r: seq<int>)
    requires p > 0 && |x| == |y| == |mc|
    ensures |r| == |mc|
  {
    ReduceTop(Schoolbook(x, y, p), mc, p)
  }

  /** Reduction keeps every coefficient a residue. */
  lemma ReduceTopResidues(b: seq<int>, mc: seq<int>, p: int)
    requires p > 0 && forall k :: 0 <= k < |b| ==> 0 <= b[k] < p
    ensures forall k :: 0 <= k < |ReduceTop(b, mc, p)| ==> 0 <= ReduceTop(b, mc, p)[k] < p
    decreases |b|
  {
    if |b| > |mc| {
      ReduceTopResidues(ReducePrefix(b, mc, |mc|, p), mc, p);
    }
  }

  /** The product of two elements is an element. */
  lemma ProductIsElement(x: seq<int>, y: seq<int>, mc: seq<int>, p: int)
    requires p > 0 && |x| == |y| == |mc|
    ensures IsElement(Product(x, y, mc, p), |mc|, p)
  {
    ReduceTopResidues(Schoolbook(x, y, p), mc, p);
  }

  /** `_FQP.mul` on two elements: accumulate the schoolbook product into
      `b`, then pop the top coefficient and fold it back until d remain. */
  method Mul(x: seq<int>, y: seq<int>, mc: seq<int>, p: int) returns (b: seq<int>)
    requires p > 0 && |x| == |y| == |mc|
    ensures b == Product(x, y, mc, p)
  {
    var d := |mc|;
    b := Zeros(2 * d - 1);
    assert |b| == ProductLength(d);
    for i := 0 to d
      invariant |b| == ProductLength(d)
      invariant forall k :: 0 <= k < |b| ==> b[k] == MulCoef(x[..i], y, k) % p
    {
      for j := 0 to d
        invariant |b| == ProductLength(d)
        invariant forall k :: 0 <= k < |b| ==>
          b[k] == (MulCoef(x[..i], y, k) + (if i <= k < i + j then x[i] * y[k - i] else 0)) % p
      {
        ghost var b0 := b;
        b := b[i + j := PF.Add(b[i + j], PF.Mul(x[i], y[j], p), p)];
        ModAdd(MulCoef(x[..i], y, i + j), x[i] * y[j], p);
      }
      forall k | 0 <= k < |b|
        ensures b[k] == MulCoef(x[..i + 1], y, k) % p
      {
        MulCoefPrefix(x, i, y, k);
      }
    }
    assert x[..d] == x;
    assert b == Schoolbook(x, y, p);
    while |b| > d
      invariant ReduceTop(b, mc, p) == Product(x, y, mc, p)
      decreases |b|
    {
      var exp := |b| - d - 1;
      var top := b[|b| - 1];
      ghost var b0 := b;
      b := b[..|b| - 1];
      for i := 0 to d
        invariant b == ReducePrefix(b0, mc, i, p)
      {
        ReducePrefixStep(b0, mc, i, p);
        b := b[exp + i := PF.Sub(b[exp + i], PF.Mul(top, mc[i], p), p)];
      }
    }
  }

  // ---------------------------------------------------------------------------
  // The inverse: polynomial extended Euclid over poly_rounded_div

  /** The four sequences of `_FQP.inv`, each d + 1 coefficients long. */
  datatype Euclid = Euclid(lm: seq<int>, hm: seq<int>, low: seq<int>, high: seq<int>)

  predicate WellSized(s: Euclid, d: nat)
  {
    |s.lm| == d + 1 && |s.hm| == d + 1 && |s.low| == d + 1 && |s.high| == d + 1
  }

  /** `r.concat(zeros(n - r.length))`. */
  function Pad(r: seq<int>, n: nat): (s: seq<int>)
    requires |r| <= n
    ensures |s| == n && forall k :: 0 <= k < n ==> s[k] == Coef(r, k)
  {
    r + seq(n - |r|, k => 0)
  }

  /** h − l·r with the product cut off above X^(|h|−1), reduced. */
  function MulSubTrunc(h: seq<int>, l: seq<int>, r: seq<int>, p: int): (t: seq<int>)
    requires p > 0
    ensures |t| == |h|
  {
    seq(|h|, k requires 0 <= k < |h| => (h[k] - MulCoef(l, r, k)) % p)
  }

  /** One round of the `while (deg(low))` loop. */
  function Round(s: Euclid, d: nat, p: int): (s': Euclid)
    requires p > 0 && WellSized(s, d)
    ensures WellSized(s', d)
  {
    var r := Pad(RoundedDivision(s.high, s.low, p), d + 1);
    Euclid(MulSubTrunc(ReduceAll(s.hm, p), s.lm, r, p), s.lm,
           MulSubTrunc(ReduceAll(s.high, p), s.low, r, p), s.low)
  }

  /** More rounds than the loop can take when p is prime: every round lowers
      2·(deg high + deg low) + [deg high < deg low], which starts at most 4d − 2. */
  function MaxRounds(d: nat): nat
  {
    4 * d + 1
  }

  function EuclidLoop(s: Euclid, d: nat, p: int, fuel: nat): (s': Euclid)
    requires p > 0 && WellSized(s, d)
    ensures WellSized(s', d)
    decreases fuel
  {
    if Degree(s.low) == 0 || fuel == 0 then s else EuclidLoop(Round(s, d, p), d, p, fuel - 1)
  }

  /** lm = 1, hm = 0, low = the element, high = the modulus polynomial X^d + Σ mc[i]·X^i. */
  function EuclidStart(x: seq<int>, mc: seq<int>, p: int): (s: Euclid)
    requires p > 0 && |x| == |mc|
    ensures WellSized(s, |mc|)
  {
    Euclid([PF.One(p)] + Zero(|mc|), Zero(|mc| + 1), x + [0], mc + [PF.One(p)])
  }

  /** The value of `_FQP.inv`: lm cut to d coefficients, divided by the constant left in low. */
  function Inverse(x: seq<int>, mc: seq<int>, p: int): (r: seq<int>)
    requires p > 0 && |x| == |mc|
    ensures IsElement(r, |mc|, p)
  {
    var d := |mc|;
    var s := EuclidLoop(EuclidStart(x, mc, p), d, p, MaxRounds(d));
    ScalarDiv(ReduceAll(s.lm[..d], p), s.low[0], p)
  }

  /** h − l·r after rows 0 .. i − 1 of the product and the first j entries of row i. */
  ghost function Partial(h: seq<int>, l: seq<int>, r: seq<int>, i: nat, j: nat, p: int): (t: seq<int>)
    requires p > 0 && i <= |l|
    ensures |t| == |h|
  {
    seq(|h|, k requires 0 <= k < |h| =>
      (h[k] - MulCoef(l[..i], r, k) - (if i < |l| && i <= k < i + j then l[i] * Coef(r, k - i) else 0)) % p)
  }

  lemma PartialStep(h: seq<int>, l: seq<int>, r: seq<int>, i: nat, j: nat, p: int)
    requires p > 0 && i < |l| && i + j < |h| && j < |r|
    requires forall k :: 0 <= k < |h| ==> 0 <= h[k] < p
    ensures Partial(h, l, r, i, j + 1, p)
         == Partial(h, l, r, i, j, p)[i + j := PF.Sub(Partial(h, l, r, i, j, p)[i + j], PF.Mul(l[i], r[j], p), p)]
  {
    ModSub(h[i + j] - MulCoef(l[..i], r, i + j), l[i] * r[j], p);
  }

  lemma PartialRow(h: seq<int>, l: seq<int>, r: seq<int>, i: nat, p: int)
    requires p > 0 && i < |l| && i <= |h| && |h| <= |r| + i
    ensures Partial(h, l, r, i, |h| - i, p) == Partial(h, l, r, i + 1, 0, p)
  {
    var a, b := Partial(h, l, r, i, |h| - i, p), Partial(h, l, r, i + 1, 0, p);
    forall k | 0 <= k < |h|
      ensures a[k] == b[k]
    {
      MulCoefPrefix(l, i, r, k);
    }
  }

  lemma PartialStart(h: seq<int>, l: seq<int>, r: seq<int>, p: int)
    requires p > 0
    requires forall k :: 0 <= k < |h| ==> 0 <= h[k] < p
    ensures Partial(h, l, r, 0, 0, p) == h
  {
    forall k | 0 <= k < |h|
      ensures Partial(h, l, r, 0, 0, p)[k] == h[k]
    {
      ModOfReduced(h[k], p);
    }
  }

  lemma PartialEnd(h: seq<int>, l: seq<int>, r: seq<int>, p: int)
    requires p > 0
    ensures Partial(h, l, r, |l|, 0, p) == MulSubTrunc(h, l, r, p)
  {
    assert l[..|l|] == l;
  }

  /** The nested loop that forms nm and next: for i + j <= d,
      nm[i+j] -= lm[i]·r[j] and next[i+j] -= low[i]·r[j]. */
  method SubtractProducts(hm: seq<int>, high: seq<int>, lm: seq<int>, low: seq<int>, r: seq<int>, p: int)
    returns (nm: seq<int>, next: seq<int>)
    requires p > 0 && |hm| == |high| == |lm| == |low| == |r| > 0
    ensures nm == MulSubTrunc(ReduceAll(hm, p), lm, r, p)
    ensures next == MulSubTrunc(ReduceAll(high, p), low, r, p)
  {
    var n := |r|;
    var hm0, high0 := ReduceAll(hm, p), ReduceAll(high, p);
    nm, next := hm0, high0;
    PartialStart(hm0, lm, r, p);
    PartialStart(high0, low, r, p);
    for i := 0 to n
      invariant nm == Partial(hm0, lm, r, i, 0, p)
      invariant next == Partial(high0, low, r, i, 0, p)
    {
      for j := 0 to n - i
        invariant nm == Partial(hm0, lm, r, i, j, p)
        invariant next == Partial(high0, low, r, i, j, p)
      {
        PartialStep(hm0, lm, r, i, j, p);
        PartialStep(high0, low, r, i, j, p);
        nm := nm[i + j := PF.Sub(nm[i + j], PF.Mul(lm[i], r[j], p), p)];
        next := next[i + j := PF.Sub(next[i + j], PF.Mul(low[i], r[j], p), p)];
      }
      PartialRow(hm0, lm, r, i, p);
      PartialRow(high0, low, r, i, p);
    }
    PartialEnd(hm0, lm, r, p);
    PartialEnd(high0, low, r, p);
  }

  /** The body of the `while (deg(low))` loop. */
  method RoundMethod(lm: seq<int>, hm: seq<int>, low: seq<int>, high: seq<int>, d: nat, p: int)
    returns (lm': seq<int>, hm': seq<int>, low': seq<int>, high': seq<int>)
    requires p > 0 && WellSized(Euclid(lm, hm, low, high), d)
    ensures Euclid(lm', hm', low', high') == Round(Euclid(lm, hm, low, high), d, p)
  {
    var r := RoundedDiv(high, low, p);
    RoundedDivisionLeading(high, low, p);
    var pad := Zeros(d + 1 - |r|);
    r := r + pad;
    assert r == Pad(RoundedDivision(high, low, p), d + 1);
    var nm, next := SubtractProducts(hm, high, lm, low, r, p);
    lm', low', hm', high' := nm, next, lm, low;
  }

  /** One pass of the `while (deg(low))` loop, with the degree the next test reads. */
  method LoopBody(lm: seq<int>, hm: seq<int>, low: seq<int>, high: seq<int>, d: nat, p: int,
                  ghost fuel: nat, ghost target: Euclid)
    returns (lm': seq<int>, hm': seq<int>, low': seq<int>, high': seq<int>, dl: int)
    requires p > 0 && WellSized(Euclid(lm, hm, low, high), d)
    requires Degree(low) != 0 && fuel > 0
    requires EuclidLoop(Euclid(lm, hm, low, high), d, p, fuel) == target
    ensures WellSized(Euclid(lm', hm', low', high'), d)
    ensures dl == Degree(low')
    ensures EuclidLoop(Euclid(lm', hm', low', high'), d, p, fuel - 1) == target
  {
    EuclidLoopStep(Euclid(lm, hm, low, high), d, p, fuel);
    lm', hm', low', high' := RoundMethod(lm, hm, low, high, d, p);
    dl := Deg(low');
  }

  /** The `while (deg(low))` loop of `_FQP.inv`, cut off after `MaxRounds(d)`
      rounds. */
  method RunEuclid(lm0: seq<int>, hm0: seq<int>, low0: seq<int>, high0: seq<int>, d: nat, p: int)
    returns (lm: seq<int>, hm: seq<int>, low: seq<int>, high: seq<int>)
    requires p > 0 && WellSized(Euclid(lm0, hm0, low0, high0), d)
    ensures Euclid(lm, hm, low, high) == EuclidLoop(Euclid(lm0, hm0, low0, high0), d, p, MaxRounds(d))
  {
    lm, hm, low, high := lm0, hm0, low0, high0;
    ghost var target := EuclidLoop(Euclid(lm, hm, low, high), d, p, MaxRounds(d));
    var rounds := 0;
    var dl := Deg(low);
    while dl != 0 && rounds < MaxRounds(d)
      invariant 0 <= rounds <= MaxRounds(d)
      invariant WellSized(Euclid(lm, hm, low, high), d)
      invariant dl == Degree(low)
      invariant EuclidLoop(Euclid(lm, hm, low, high), d, p, MaxRounds(d) - rounds) == target
      decreases MaxRounds(d) - rounds
    {
      lm, hm, low, high, dl := LoopBody(lm, hm, low, high, d, p, MaxRounds(d) - rounds, target);
      rounds := rounds + 1;
    }
    EuclidLoopDone(Euclid(lm, hm, low, high), d, p, MaxRounds(d) - rounds);
  }

  /** `_FQP.inv`. */
  method Inv(x: seq<int>, mc: seq<int>, p: int) returns (inv: seq<int>)
    requires p > 0 && |x| == |mc|
    ensures inv == Inverse(x, mc, p)
  {
    var d := |mc|;
    var lm0, hm0, low0, high0 := StartMethod(x, mc, p);
    var lm, hm, low, high := RunEuclid(lm0, hm0, low0, high0, d, p);
    InverseOfLoop(x, mc, p, Euclid(lm, hm, low, high));
    inv := ScalarDiv(ReduceAll(lm[..d], p), low[0], p);
  }

  /** The four starting sequences of `_FQP.inv`. */
  method StartMethod(x: seq<int>, mc: seq<int>, p: int) returns (lm: seq<int>, hm: seq<int>, low: seq<int>, high: seq<int>)
    requires p > 0 && |x| == |mc|
    ensures Euclid(lm, hm, low, high) == EuclidStart(x, mc, p)
  {
    var d := |mc|;
    var z := Zeros(d);
    lm := [PF.One(p)] + z;
    hm := Zeros(d + 1);
    low := x + [0];
    high := mc + [PF.One(p)];
    assert z == Zero(d);
    assert hm == Zero(d + 1);
  }

  lemma EuclidLoopStep(s: Euclid, d: nat, p: int, fuel: nat)
    requires p > 0 && WellSized(s, d)
    requires Degree(s.low) != 0 && fuel > 0
    ensures EuclidLoop(s, d, p, fuel) == EuclidLoop(Round(s, d, p), d, p, fuel - 1)
  {
  }

  lemma EuclidLoopDone(s: Euclid, d: nat, p: int, fuel: nat)
    requires p > 0 && WellSized(s, d)
    requires Degree(s.low) == 0 || fuel == 0
    ensures EuclidLoop(s, d, p, fuel) == s
  {
  }

  lemma InverseOfLoop(x: seq<int>, mc: seq<int>, p: int, s: Euclid)
    requires p > 0 && |x| == |mc|
    requires s == EuclidLoop(EuclidStart(x, mc, p), |mc|, p, MaxRounds(|mc|))
    ensures Inverse(x, mc, p) == ScalarDiv(ReduceAll(s.lm[..|mc|], p), s.low[0], p)
  {
  }

  /** A zero element "inverts" to zero: the loop never runs and the final
      division is by zero. */
  lemma InverseOfZero(mc: seq<int>, p: int)
    requires p > 0
    ensures Inverse(Zero(|mc|), mc, p) == Zero(|mc|)
  {
    var d := |mc|;
    var s := EuclidStart(Zero(d), mc, p);
    assert forall k :: 0 <= k < d + 1 ==> s.low[k] == 0;
    DegreeUnique(s.low, 0);
  }
}
