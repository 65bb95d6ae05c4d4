/** What is proved about `_FQP.inv`: for a prime modulus the
    `while (deg(low))` loop stops by its own test within `MaxRounds(d)`
    rounds, so the cut-off is never what ends it, and on the constants of
    the base field it returns the true inverse. */
module InverseLaws {
  import opened Arith
  import PF = PrimeField
  import opened Polynomials
  import opened PolyAlgebra
  import opened ExtensionField
  import opened ProductLaws

  predicate Residues(a: seq<int>, p: int)
  {
    forall k :: 0 <= k < |a| ==> 0 <= a[k] < p
  }

  /** What the termination argument needs of a loop state: `low` holds
      residues, and reducing `high` keeps its degree (true of the starting
      modulus polynomial and of every later `high`, which was once `low`). */
  predicate Tame(s: Euclid, d: nat, p: int)
  {
    p > 0 && WellSized(s, d) && Residues(s.low, p) && Degree(ReduceAll(s.high, p)) == Degree(s.high)
  }

  /** 2·(deg high + deg low), plus one while deg high < deg low: every round
      lowers it. */
  function Measure(s: Euclid, d: nat): nat
    requires WellSized(s, d)
  {
    var dh, dl := Degree(s.high), Degree(s.low);
    2 * (dh + dl) + (if dh < dl then 1 else 0)
  }

  lemma ReduceResidues(a: seq<int>, p: int)
    requires p > 0 && Residues(a, p)
    ensures ReduceAll(a, p) == a
  {
    forall k | 0 <= k < |a|
      ensures ReduceAll(a, p)[k] == a[k]
    {
      ModOfReduced(a[k], p);
    }
  }

  /** The product of a polynomial of degree at most da and one of degree at
      most db vanishes above da + db and has a[da]·b[db] at da + db. */
  lemma {:induction false} MulCoefTop(a: seq<int>, b: seq<int>, da: nat, db: nat, k: int)
    requires da < |a| && forall i :: da < i < |a| ==> a[i] == 0
    requires forall j :: db < j < |b| ==> b[j] == 0
    requires k >= da + db
    ensures MulCoef(a, b, k) == if k == da + db then a[da] * Coef(b, db) else 0
    decreases |a|
  {
    if da == 0 {
      MulCoefZeroLeft(a[1..], b, k - 1);
    } else {
      MulCoefTop(a[1..], b, da - 1, db, k - 1);
    }
  }

  /** The leading coefficient of high cancels: h − l·(h / l) is 0 for a
      prime modulus and a nonzero residue l. */
  lemma LeadingCancels(h: int, l: int, p: int)
    requires IsPrime(p) && 0 <= h < p && 0 < l < p
    ensures (h - l * PF.Div(h, l, p)) % p == 0
  {
    ModOfReduced(l, p);
    ModOfReduced(h, p);
    CancelExact(h, l, PF.Div(h, l, p), p);
  }

  lemma CancelExact(h: int, l: int, q: int, p: int)
    requires p > 0 && 0 <= h < p && (q * l) % p == h
    ensures (h - l * q) % p == 0
  {
    ModSub(h, l * q, p);
    ModOfReduced(h, p);
    assert l * q == q * l;
  }

  /** With a zero quotient the new low is high itself. */
  lemma NextOfZeroQuotient(h: seq<int>, l: seq<int>, r: seq<int>, p: int)
    requires p > 0 && Residues(h, p)
    requires forall j :: 0 <= j < |r| ==> r[j] == 0
    ensures MulSubTrunc(h, l, r, p) == h
  {
    forall k | 0 <= k < |h|
      ensures MulSubTrunc(h, l, r, p)[k] == h[k]
    {
      MulCoefZeroRight(l, r, k);
      ModOfReduced(h[k], p);
    }
  }

  /** h − l·r vanishes from deg h upward when r has degree deg h − deg l and
      its leading coefficient is the quotient of the leading coefficients. */
  lemma NextBelowHigh(h: seq<int>, l: seq<int>, r: seq<int>, dh: nat, dl: nat, p: int)
    requires IsPrime(p) && Residues(h, p) && Residues(l, p) && |l| == |h|
    requires dh < |h| && forall k :: dh < k < |h| ==> h[k] == 0
    requires 0 < dl <= dh && l[dl] != 0 && forall k :: dl < k < |l| ==> l[k] == 0
    requires dh - dl < |r| && forall j :: dh - dl < j < |r| ==> r[j] == 0
    requires r[dh - dl] == PF.Div(h[dh], l[dl], p)
    ensures forall k :: dh <= k < |h| ==> MulSubTrunc(h, l, r, p)[k] == 0
  {
    forall k | dh <= k < |h|
      ensures MulSubTrunc(h, l, r, p)[k] == 0
    {
      MulCoefTop(l, r, dl, dh - dl, k);
      if k == dh {
        LeadingCancels(h[dh], l[dl], p);
      } else {
        ModOfReduced(0, p);
      }
    }
  }

  /** One round keeps the state tame and lowers the measure. When
      deg high < deg low the rounded quotient is [0] and the round swaps the
      pairs; otherwise the leading quotient coefficient cancels the top of
      high, so the new low has a smaller degree than high. */
  lemma RoundDescends(s: Euclid, d: nat, p: int)
    requires IsPrime(p) && Tame(s, d, p) && Degree(s.low) > 0
    ensures Tame(Round(s, d, p), d, p)
    ensures Measure(Round(s, d, p), d) < Measure(s, d)
  {
    var H := ReduceAll(s.high, p);
    var r0 := RoundedDivision(s.high, s.low, p);
    RoundedDivisionLeading(s.high, s.low, p);
    var r := Pad(r0, d + 1);
    var next := MulSubTrunc(H, s.low, r, p);
    assert Round(s, d, p).low == next && Round(s, d, p).high == s.low;
    ReduceResidues(s.low, p);
    var dh, dl := Degree(s.high), Degree(s.low);
    if dh < dl {
      NextOfZeroQuotient(H, s.low, r, p);
    } else {
      NextBelowHigh(H, s.low, r, dh, dl, p);
      assert Degree(next) < dh;
    }
  }

  /** One round from a tame state whose low is not constant: a tame state
      of smaller measure from which the loop, with one round less of fuel,
      ends where it would have. */
  lemma TameStep(s: Euclid, d: nat, p: int, fuel: nat) returns (s': Euclid)
    requires IsPrime(p) && Tame(s, d, p) && Degree(s.low) != 0 && fuel > 0
    ensures Tame(s', d, p) && Measure(s', d) < Measure(s, d)
    ensures EuclidLoop(s, d, p, fuel) == EuclidLoop(s', d, p, fuel - 1)
  {
    RoundDescends(s, d, p);
    EuclidLoopStep(s, d, p, fuel);
    s' := Round(s, d, p);
  }

  /** Run from a tame state with at least Measure rounds of fuel, the loop
      ends with deg(low) = 0. */
  lemma {:induction false} LoopEnds(s: Euclid, d: nat, p: int, fuel: nat)
    requires IsPrime(p) && Tame(s, d, p) && fuel >= Measure(s, d)
    ensures Degree(EuclidLoop(s, d, p, fuel).low) == 0
    decreases fuel
  {
    if Degree(s.low) != 0 {
      var s' := TameStep(s, d, p, fuel);
      LoopEnds(s', d, p, fuel - 1);
    } else {
      EuclidLoopDone(s, d, p, fuel);
    }
  }

  /** The starting state is tame, and its measure is at most 4d − 2. */
  lemma StartTame(x: seq<int>, mc: seq<int>, p: int)
    requires p > 1 && |mc| > 0 && IsElement(x, |mc|, p)
    ensures Tame(EuclidStart(x, mc, p), |mc|, p)
    ensures Measure(EuclidStart(x, mc, p), |mc|) <= MaxRounds(|mc|)
  {
    var d := |mc|;
    var s := EuclidStart(x, mc, p);
    ModOfReduced(1, p);
    assert s.high[d] == 1;
    assert ReduceAll(s.high, p)[d] == 1;
    assert Degree(s.high) == d;
    assert s.low[d] == 0;
    assert Degree(s.low) < d;
  }

  /** For a prime modulus the `while (deg(low))` loop of `_FQP.inv` stops by
      itself: run with `MaxRounds(d)` rounds of fuel, or any more, it ends
      with deg(low) = 0, so the cut-off in `Inverse` is never what ends it. */
  lemma InverseLoopTerminates(x: seq<int>, mc: seq<int>, p: int, fuel: nat)
    requires IsPrime(p) && |mc| > 0 && IsElement(x, |mc|, p) && fuel >= MaxRounds(|mc|)
    ensures Degree(EuclidLoop(EuclidStart(x, mc, p), |mc|, p, fuel).low) == 0
  {
    StartTame(x, mc, p);
    LoopEnds(EuclidStart(x, mc, p), |mc|, p, fuel);
  }

  /** A constant of the base field inverts to the constant of its `_FQ`
      inverse: low starts with degree 0, so the loop never runs. */
  lemma InverseOfConstant(c: int, mc: seq<int>, p: int)
    requires p > 1 && |mc| > 0
    ensures Inverse(Constant(c, |mc|, p), mc, p) == Constant(PF.Inverse(c % p, p), |mc|, p)
  {
    var d := |mc|;
    var k := Constant(c, d, p);
    var s := EuclidStart(k, mc, p);
    assert forall i :: 0 < i < d + 1 ==> s.low[i] == 0;
    DegreeUnique(s.low, 0);
    EuclidLoopDone(s, d, p, MaxRounds(d));
    var lm := ReduceAll(s.lm[..d], p);
    ModOfReduced(1, p);
    ModOfReduced(0, p);
    var r := Inverse(k, mc, p);
    var i := PF.Inverse(c % p, p);
    forall j | 0 <= j < d
      ensures r[j] == Constant(i, d, p)[j]
    {
      assert r[j] == PF.Mul(lm[j], i, p);
    }
  }

  /** Multiplying a constant by the constant of its `_FQ` inverse gives one,
      for a prime modulus and a constant that is not a multiple of it. */
  lemma ConstantTimesInverse(c: int, mc: seq<int>, p: int)
    requires IsPrime(p) && |mc| > 0 && c % p != 0
    ensures Product(Constant(c, |mc|, p), Constant(PF.Inverse(c % p, p), |mc|, p), mc, p) == One(|mc|, p)
  {
    var d := |mc|;
    var i := PF.Inverse(c % p, p);
    ProductByConstant(Constant(c, d, p), i, mc, p);
    var m := ScalarMul(Constant(c, d, p), i, p);
    forall j | 0 <= j < d
      ensures m[j] == One(d, p)[j]
    {
      if j == 0 {
        ResidueTimesInverse(c % p, p);
      } else {
        ModOfReduced(0, p);
      }
    }
  }

  lemma ResidueTimesInverse(a: int, p: int)
    requires IsPrime(p) && 0 < a < p
    ensures (a * PF.Inverse(a, p)) % p == 1 % p
  {
    ModOfReduced(a, p);
    ModOfReduced(1, p);
    PF.InverseCorrect(a, p);
    assert a * PF.Inverse(a, p) == PF.Inverse(a, p) * a;
  }

  /** `_FQP.inv` is a true inverse on the constants of the base field. */
  lemma InverseCorrectOnConstants(c: int, mc: seq<int>, p: int)
    requires IsPrime(p) && |mc| > 0 && c % p != 0
    ensures Product(Constant(c, |mc|, p), Inverse(Constant(c, |mc|, p), mc, p), mc, p) == One(|mc|, p)
  {
    InverseOfConstant(c, mc, p);
    ConstantTimesInverse(c, mc, p);
  }
}
