/** The polynomial helpers of fields/field_elements.js: `deg`, `zip`, `zeros`
    and `poly_rounded_div`. Coefficients are residues modulo p. */
module Polynomials {
  import opened Arith
  import opened PrimeField
  import opened PolyAlgebra

  /** The value `deg` computes: the highest index holding a nonzero
      coefficient, or 0 when there is none. */
  function Degree(a: seq<int>): (d: nat)
    requires |a| > 0
    ensures d < |a|
    ensures forall k :: d < k < |a| ==> a[k] == 0
    ensures d > 0 ==> a[d] != 0
  {
    if |a| == 1 || a[|a| - 1] != 0 then |a| - 1 else Degree(a[..|a| - 1])
  }

  /** The three properties above pin the degree down. */
  lemma DegreeUnique(a: seq<int>, d: nat)
    requires d < |a|
    requires forall k :: d < k < |a| ==> a[k] == 0
    requires d > 0 ==> a[d] != 0
    ensures d == Degree(a)
  {
  }

  /** `deg(p)`: step down from the last index while the coefficient is zero
      and the index is not 0. An empty sequence would be read at index -1. */
  method Deg(a: seq<int>) returns (d: int)
    requires |a| > 0
    ensures 0 <= d < |a|
    ensures forall k :: d < k < |a| ==> a[k] == 0
    ensures d > 0 ==> a[d] != 0
    ensures d == Degree(a)
  {
    d := |a| - 1;
    while a[d] == 0 && d != 0
      invariant 0 <= d < |a|
      invariant forall k :: d < k < |a| ==> a[k] == 0
    {
      d := d - 1;
    }
    DegreeUnique(a, d);
  }

  /** `zip(a, b)`: the pairs of equal index, as many as the shorter input has. */
  method Zip(a: seq<int>, b: seq<int>) returns (r: seq<(int, int)>)
    ensures |r| == if |a| < |b| then |a| else |b|
    ensures forall i :: 0 <= i < |r| ==> r[i] == (a[i], b[i])
  {
    r := [];
    var len := if |a| < |b| then |a| else |b|;
    for i := 0 to len
      invariant |r| == i
      invariant forall k :: 0 <= k < i ==> r[k] == (a[k], b[k])
    {
      r := r + [(a[i], b[i])];
    }
  }

  /** `zeros(n)`: n zero coefficients (none for n <= 0). */
  method Zeros(n: int) returns (v: seq<int>)
    ensures |v| == if n < 0 then 0 else n
    ensures forall i :: 0 <= i < |v| ==> v[i] == 0
  {
    v := [];
    var i := 0;
    while i < n
      invariant 0 <= i && |v| == i
      invariant n >= 0 ==> i <= n
      invariant n < 0 ==> i == 0
      invariant forall k :: 0 <= k < i ==> v[k] == 0
    {
      v := v + [0];
      i := i + 1;
    }
  }

  // ---------------------------------------------------------------------------
  // poly_rounded_div

  /** The inner loop of one round: temp[i + c] := temp[i + c] - o[c] for
      c < n. (Long division would subtract o[i]·b[c].) */
  function SubtractShifted(temp: seq<int>, o: seq<int>, i: nat, n: nat, p: int): (t: seq<int>)
    requires p > 0 && i + n <= |temp| && n <= |o|
    ensures |t| == |temp|
  {
    seq(|temp|, k requires 0 <= k < |temp| =>
      if i <= k < i + n then Sub(temp[k], o[k - i], p) else temp[k])
  }

  /** The outer loop, from round i down to round 0. */
  function RoundedDivLoop(i: int, degb: nat, bTop: int, temp: seq<int>, o: seq<int>, p: int): (q: seq<int>)
    requires p > 0 && |o| == |temp|
    requires i >= 0 ==> i + degb < |temp|
    ensures |q| == |o|
    decreases i + 1
  {
    if i < 0 then o
    else
      var o' := o[i := Add(o[i], Div(temp[degb + i], bTop, p), p)];
      RoundedDivLoop(i - 1, degb, bTop, SubtractShifted(temp, o', i, degb + 1, p), o', p)
  }

  function ZerosLike(a: seq<int>): (z: seq<int>)
    ensures |z| == |a| && forall k :: 0 <= k < |z| ==> z[k] == 0
  {
    seq(|a|, k => 0)
  }

  function ReduceAll(a: seq<int>, p: int): (r: seq<int>)
    requires p > 0
    ensures |r| == |a| && forall k :: 0 <= k < |a| ==> r[k] == a[k] % p
  {
    seq(|a|, k requires 0 <= k < |a| => Reduce(a[k], p))
  }

  /** What the outer loop leaves in `o`, rounds deg a − deg b down to 0. */
  function DivisionLoop(a: seq<int>, b: seq<int>, p: int): (o: seq<int>)
    requires p > 0 && |a| > 0 && |b| > 0
    ensures |o| == |a|
  {
    var degb := Degree(b);
    RoundedDivLoop(Degree(a) - degb, degb, b[degb], ReduceAll(a, p), ZerosLike(a), p)
  }

  /** The value `poly_rounded_div(a, b)` returns. */
  function RoundedDivision(a: seq<int>, b: seq<int>, p: int): (r: seq<int>)
    requires p > 0 && |a| > 0 && |b| > 0
    ensures 1 <= |r| <= |a|
  {
    var o := DivisionLoop(a, b, p);
    o[..Degree(o) + 1]
  }

  /** `poly_rounded_div(a, b, FQ)`, with `temp` and `o` updated in place. */
  method RoundedDiv(a: seq<int>, b: seq<int>, p: int) returns (r: seq<int>)
    requires p > 0 && |a| > 0 && |b| > 0
    ensures r == RoundedDivision(a, b, p)
  {
    var dega := Deg(a);
    var degb := Deg(b);
    var temp := ReduceAll(a, p);
    var o := ZerosLike(a);
    ghost var quotient := DivisionLoop(a, b, p);
    var i := dega - degb;
    while i > -1
      invariant |o| == |temp| == |a|
      invariant i >= 0 ==> i + degb < |temp|
      invariant RoundedDivLoop(i, degb, b[degb], temp, o, p) == quotient
      decreases i + 1
    {
      ghost var o0, before := o, temp;
      o := o[i := Add(o[i], Div(temp[degb + i], b[degb], p), p)];
      for c := 0 to degb + 1
        invariant temp == SubtractShifted(before, o, i, c, p)
      {
        SubtractShiftedStep(before, o, i, c, p);
        temp := temp[c + i := Sub(temp[c + i], o[c], p)];
      }
      RoundStep(i, degb, b[degb], before, o0, p);
      i := i - 1;
    }
    var d := Deg(o);
    r := o[..d + 1];
  }

  /** One round of the outer loop, unfolded. */
  lemma RoundStep(i: nat, degb: nat, bTop: int, temp: seq<int>, o: seq<int>, p: int)
    requires p > 0 && |o| == |temp| && i + degb < |temp|
    ensures var o' := o[i := Add(o[i], Div(temp[degb + i], bTop, p), p)];
      RoundedDivLoop(i, degb, bTop, temp, o, p)
      == RoundedDivLoop(i - 1, degb, bTop, SubtractShifted(temp, o', i, degb + 1, p), o', p)
  {
  }

  /** The inner loop's next round changes index i + c only. */
  lemma SubtractShiftedStep(temp: seq<int>, o: seq<int>, i: nat, c: nat, p: int)
    requires p > 0 && i + c < |temp| && c < |o|
    ensures SubtractShifted(temp, o, i, c + 1, p)
         == SubtractShifted(temp, o, i, c, p)[i + c := Sub(SubtractShifted(temp, o, i, c, p)[i + c], o[c], p)]
  {
  }

  // ---------------------------------------------------------------------------
  // What poly_rounded_div gets right: the degree and the leading coefficient

  /** Round i and the rounds below it leave every index above i alone and
      keep the coefficients reduced. */
  lemma {:induction false} LoopKeepsAbove(i: int, degb: nat, bTop: int, temp: seq<int>, o: seq<int>, p: int)
    requires p > 0 && |o| == |temp|
    requires i >= 0 ==> i + degb < |temp|
    requires forall k :: 0 <= k < |o| ==> 0 <= o[k] < p
    ensures forall k :: i < k < |o| && 0 <= k ==> RoundedDivLoop(i, degb, bTop, temp, o, p)[k] == o[k]
    ensures forall k :: 0 <= k < |o| ==> 0 <= RoundedDivLoop(i, degb, bTop, temp, o, p)[k] < p
    decreases i + 1
  {
    if i >= 0 {
      var o' := o[i := Add(o[i], Div(temp[degb + i], bTop, p), p)];
      LoopKeepsAbove(i - 1, degb, bTop, SubtractShifted(temp, o', i, degb + 1, p), o', p);
    }
  }

  /** The loop result: zero above deg a − deg b, the leading-coefficient
      quotient at deg a − deg b, residues everywhere. */
  lemma DivisionLoopLeading(a: seq<int>, b: seq<int>, p: int)
    requires p > 0 && |a| > 0 && |b| > 0
    ensures forall k :: 0 <= k < |a| ==> 0 <= DivisionLoop(a, b, p)[k] < p
    ensures forall k :: Degree(a) - Degree(b) < k < |a| && 0 <= k ==> DivisionLoop(a, b, p)[k] == 0
    ensures Degree(a) >= Degree(b) ==>
      DivisionLoop(a, b, p)[Degree(a) - Degree(b)] == Div(a[Degree(a)] % p, b[Degree(b)], p)
  {
    var degb := Degree(b);
    LoopFromZero(Degree(a) - degb, degb, b[degb], ReduceAll(a, p), ZerosLike(a), p);
  }

  /** The outer loop started on all-zero `o`. */
  lemma LoopFromZero(i: int, degb: nat, bTop: int, temp: seq<int>, z: seq<int>, p: int)
    requires p > 0 && |z| == |temp|
    requires i >= 0 ==> i + degb < |temp|
    requires forall k :: 0 <= k < |z| ==> z[k] == 0
    ensures forall k :: 0 <= k < |z| ==> 0 <= RoundedDivLoop(i, degb, bTop, temp, z, p)[k] < p
    ensures forall k :: i < k < |z| && 0 <= k ==> RoundedDivLoop(i, degb, bTop, temp, z, p)[k] == 0
    ensures i >= 0 ==> RoundedDivLoop(i, degb, bTop, temp, z, p)[i] == Div(temp[degb + i], bTop, p)
  {
    LoopKeepsAbove(i, degb, bTop, temp, z, p);
    if i >= 0 {
      LoopTop(i, degb, bTop, temp, z, p);
      ModOfReduced(Div(temp[degb + i], bTop, p), p);
    }
  }

  /** Round i sets o[i] once and the rounds below it leave it alone. */
  lemma LoopTop(i: nat, degb: nat, bTop: int, temp: seq<int>, o: seq<int>, p: int)
    requires p > 0 && |o| == |temp| && i + degb < |temp|
    requires forall k :: 0 <= k < |o| ==> 0 <= o[k] < p
    ensures RoundedDivLoop(i, degb, bTop, temp, o, p)[i] == Add(o[i], Div(temp[degb + i], bTop, p), p)
  {
    var o' := o[i := Add(o[i], Div(temp[degb + i], bTop, p), p)];
    LoopKeepsAbove(i - 1, degb, bTop, SubtractShifted(temp, o', i, degb + 1, p), o', p);
  }

  /** Cutting a sequence after its degree keeps every coefficient. */
  lemma CutAtDegree(o: seq<int>, k: nat)
    requires |o| > 0
    ensures Coef(o[..Degree(o) + 1], k) == Coef(o, k)
  {
  }

  /** Cutting the loop result after its degree, given what the loop leaves. */
  lemma CutQuotient(o: seq<int>, i0: int, top: int, p: int)
    requires |o| > 0 && i0 < |o|
    requires forall k :: 0 <= k < |o| ==> 0 <= o[k] < p
    requires forall k :: i0 < k < |o| && 0 <= k ==> o[k] == 0
    requires i0 >= 0 ==> o[i0] == top
    ensures var r := o[..Degree(o) + 1];
      && (forall k :: 0 <= k < |r| ==> 0 <= r[k] < p)
      && (i0 < 0 ==> r == [0])
      && (i0 >= 0 ==> |r| <= i0 + 1 && Coef(r, i0) == top)
  {
    if i0 < 0 {
      DegreeUnique(o, 0);
    } else {
      CutAtDegree(o, i0);
    }
  }

  /** The quotient has degree at most deg a − deg b and its coefficient there
      is the quotient of the leading coefficients; when deg a < deg b the
      quotient is [0]. Every coefficient is a residue. */
  lemma RoundedDivisionLeading(a: seq<int>, b: seq<int>, p: int)
    requires p > 0 && |a| > 0 && |b| > 0
    ensures var r := RoundedDivision(a, b, p);
      && 1 <= |r| <= |a|
      && (forall k :: 0 <= k < |r| ==> 0 <= r[k] < p)
      && (Degree(a) < Degree(b) ==> r == [0])
      && (Degree(a) >= Degree(b) ==>
            |r| <= Degree(a) - Degree(b) + 1
            && Coef(r, Degree(a) - Degree(b)) == Div(a[Degree(a)] % p, b[Degree(b)], p))
  {
    DivisionLoopLeading(a, b, p);
    CutQuotient(DivisionLoop(a, b, p), Degree(a) - Degree(b), Div(a[Degree(a)] % p, b[Degree(b)], p), p);
  }
}
