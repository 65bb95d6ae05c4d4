/** The field classes the curve code is written against. A field is `_FQ`
    with a modulus, or an `_FQP` subclass given by the modulus of its
    coefficients, its modulus_coeffs and the `mul` it uses for two elements.
    An element is its coefficient sequence: one residue for `_FQ`, d
    residues for a degree-d extension. The scalar and element cases of `mul`
    and `div`, which the source tells apart at run time, are separate
    operations here. */
module Fields {
  import opened Arith
  import PF = PrimeField
  import EF = ExtensionField
  import opened Polynomials
  import K = Karatsuba
  import PL = ProductLaws

  /** Which `mul` an extension class uses for two elements: the generic
      schoolbook-and-reduce, or the degree-2 or degree-3 override. */
  datatype MulRule = Generic | Quadratic | Cubic

  datatype Field = Prime(p: int) | Ext(p: int, mc: seq<int>, rule: MulRule)

  predicate Valid(F: Field)
  {
    F.p > 1 &&
    (F.Ext? ==> |F.mc| > 0 && (F.rule.Quadratic? ==> |F.mc| == 2) && (F.rule.Cubic? ==> |F.mc| == 3))
  }

  /** The number of coefficients of an element. */
  function Dim(F: Field): nat
  {
    if F.Prime? then 1 else |F.mc|
  }

  predicate IsElem(F: Field, a: seq<int>)
  {
    |a| == Dim(F) && forall i :: 0 <= i < |a| ==> 0 <= a[i] < F.p
  }

  /** `one()`: 1 followed by zeros. */
  function One(F: Field): (r: seq<int>)
    requires Valid(F)
    ensures IsElem(F, r) && r[0] == 1 && forall i :: 0 < i < |r| ==> r[i] == 0
  {
    ModOfReduced(1, F.p);
    if F.Prime? then [PF.One(F.p)] else EF.One(|F.mc|, F.p)
  }

  /** `zero()` */
  function Zero(F: Field): (r: seq<int>)
    requires Valid(F)
    ensures IsElem(F, r) && forall i :: 0 <= i < |r| ==> r[i] == 0
  {
    if F.Prime? then [PF.Zero(F.p)] else EF.Zero(|F.mc|)
  }

  /** `new FQ(n)` embedded as an element of the prime field. */
  function FromInt(F: Field, n: int): (r: seq<int>)
    requires Valid(F) && F.Prime?
    ensures IsElem(F, r) && r[0] == n % F.p
  {
    [PF.Reduce(n, F.p)]
  }

  function Add(F: Field, a: seq<int>, b: seq<int>): (r: seq<int>)
    requires Valid(F) && |a| == Dim(F) && |b| == Dim(F)
    ensures IsElem(F, r) && forall i :: 0 <= i < |r| ==> r[i] == (a[i] + b[i]) % F.p
  {
    if F.Prime? then [PF.Add(a[0], b[0], F.p)] else EF.Add(a, b, F.p)
  }

  function Sub(F: Field, a: seq<int>, b: seq<int>): (r: seq<int>)
    requires Valid(F) && |a| == Dim(F) && |b| == Dim(F)
    ensures IsElem(F, r) && forall i :: 0 <= i < |r| ==> r[i] == (a[i] - b[i]) % F.p
  {
    if F.Prime? then [PF.Sub(a[0], b[0], F.p)] else EF.Sub(a, b, F.p)
  }

  function Neg(F: Field, a: seq<int>): (r: seq<int>)
    requires Valid(F) && |a| == Dim(F)
    ensures IsElem(F, r) && forall i :: 0 <= i < |r| ==> r[i] == (-a[i]) % F.p
  {
    if F.Prime? then [PF.Neg(a[0], F.p)] else EF.Neg(a, F.p)
  }

  /** `mul` by a number (or by the residue of an `FQ`): every coefficient scaled. */
  function MulInt(F: Field, a: seq<int>, k: int): (r: seq<int>)
    requires Valid(F) && |a| == Dim(F)
    ensures IsElem(F, r) && forall i :: 0 <= i < |r| ==> r[i] == (a[i] * k) % F.p
  {
    if F.Prime? then [PF.Mul(a[0], k, F.p)] else EF.ScalarMul(a, k, F.p)
  }

  /** `mul` of two elements, dispatched to the class's own `mul`. */
  function Mul(F: Field, a: seq<int>, b: seq<int>): (r: seq<int>)
    requires Valid(F) && |a| == Dim(F) && |b| == Dim(F)
    ensures |r| == Dim(F)
    ensures F.Prime? ==> r == [(a[0] * b[0]) % F.p]
  {
    match F
    case Prime(p) => [PF.Mul(a[0], b[0], p)]
    case Ext(p, mc, rule) =>
      match rule
      case Generic => EF.Product(a, b, mc, p)
      case Quadratic => K.Quadratic(a, b, mc[0], p)
      case Cubic => K.Cubic(a, b, mc[0], p)
  }

  /** `div` of two elements: `_FQ.div` multiplies by `inv` of the residue;
      `_FQP.div` multiplies by the polynomial inverse with the class's `mul`. */
  function Div(F: Field, a: seq<int>, b: seq<int>): (r: seq<int>)
    requires Valid(F) && |a| == Dim(F) && |b| == Dim(F)
    ensures |r| == Dim(F)
    ensures F.Prime? ==> IsElem(F, r) && (b[0] == 0 ==> r[0] == 0)
    ensures F.Prime? && IsPrime(F.p) && b[0] >= 0 && b[0] % F.p != 0 ==> (r[0] * b[0]) % F.p == a[0] % F.p
  {
    if F.Prime? then [PF.Div(a[0], b[0], F.p)] else Mul(F, a, EF.Inverse(b, F.mc, F.p))
  }

  /** `pow`: `_FQ.pow` for the prime field; `_FQP.pow` has the same halving
      recursion with truncating `/` and `%`, built on the class's `mul`. */
  function Pow(F: Field, a: seq<int>, e: int): (r: seq<int>)
    requires Valid(F) && |a| == Dim(F)
    ensures |r| == Dim(F)
    ensures e == 0 ==> r == One(F)
    ensures F.Prime? ==> r == [Power(a[0], Abs(e)) % F.p]
    decreases Abs(e)
  {
    if F.Prime? then [PF.Pow(a[0], e, F.p)]
    else if e == 0 then One(F)
    else if e == 1 then ReduceAll(a, F.p)
    else
      var half := Pow(F, Mul(F, a, a), TruncDiv(e, 2));
      if TruncRem(e, 2) == 0 then half else Mul(F, half, a)
  }

  /** `eq`: coefficient by coefficient. */
  function Eq(F: Field, a: seq<int>, b: seq<int>): (r: bool)
    requires |a| == Dim(F) && |b| == Dim(F)
    ensures r <==> a == b
  {
    if F.Prime? then PF.Eq(a[0], b[0]) else EF.Eq(a, b)
  }

  // ---------------------------------------------------------------------------
  // Properties

  /** Every `mul` returns an element. */
  lemma MulIsElem(F: Field, a: seq<int>, b: seq<int>)
    requires Valid(F) && |a| == Dim(F) && |b| == Dim(F)
    ensures IsElem(F, Mul(F, a, b))
  {
    if F.Ext? && F.rule.Generic? {
      EF.ProductIsElement(a, b, F.mc, F.p);
    }
  }

  /** The quirk of `inv(0, p) == 0`: dividing by zero yields zero, in the
      prime field and in every extension. */
  lemma DivByZero(F: Field, a: seq<int>)
    requires Valid(F) && |a| == Dim(F)
    ensures Div(F, a, Zero(F)) == Zero(F)
  {
    if F.Ext? {
      EF.InverseOfZero(F.mc, F.p);
      MulByZero(F, a);
    }
  }

  /** Multiplying by zero gives zero, whichever `mul` the class uses. */
  lemma MulByZero(F: Field, a: seq<int>)
    requires Valid(F) && |a| == Dim(F)
    ensures Mul(F, a, Zero(F)) == Zero(F)
  {
    match F
    case Prime(p) =>
    case Ext(p, mc, rule) =>
      match rule
      case Generic => PL.ProductByZero(a, mc, p);
      case Quadratic => K.QuadraticByZero(a, mc[0], p);
      case Cubic => K.CubicByZero(a, mc[0], p);
  }

  /** Zero times anything is zero, whichever `mul` the class uses. */
  lemma MulZeroLeft(F: Field, a: seq<int>)
    requires Valid(F) && |a| == Dim(F)
    ensures Mul(F, Zero(F), a) == Zero(F)
  {
    match F
    case Prime(p) =>
    case Ext(p, mc, rule) =>
      match rule
      case Generic => PL.ProductZeroLeft(a, mc, p);
      case Quadratic => K.QuadraticZeroLeft(a, mc[0], p);
      case Cubic => K.CubicZeroLeft(a, mc[0], p);
  }

  /** One is a left identity, whichever `mul` the class uses. */
  lemma MulOneLeft(F: Field, a: seq<int>)
    requires Valid(F) && IsElem(F, a)
    ensures Mul(F, One(F), a) == a
  {
    match F
    case Prime(p) => ModOfReduced(a[0], p);
    case Ext(p, mc, rule) =>
      match rule
      case Generic => PL.ProductByOne(a, mc, p);
      case Quadratic => K.QuadraticOneLeft(a, mc[0], p);
      case Cubic => K.CubicOneLeft(a, mc[0], p);
  }

  /** `mul` distributes over `add` in every class, whichever `mul` it uses
      (the `one.mul(f).add(x.mul(f)).eq(one.add(x).mul(f))` checks). The
      degree-2 and degree-3 overrides are the generic product for the negated
      non-residue, so they inherit the law. */
  lemma MulDistributes(F: Field, a: seq<int>, b: seq<int>, c: seq<int>)
    requires Valid(F) && |a| == Dim(F) && |b| == Dim(F) && |c| == Dim(F)
    ensures Mul(F, Add(F, a, b), c) == Add(F, Mul(F, a, c), Mul(F, b, c))
  {
    match F
    case Prime(p) => PF.MulDistributes(a[0], b[0], c[0], p);
    case Ext(p, mc, rule) =>
      match rule
      case Generic => PL.ProductDistributes(a, b, c, mc, p);
      case Quadratic => K.QuadraticDistributes(a, b, c, mc[0], p);
      case Cubic => K.CubicDistributes(a, b, c, mc[0], p);
  }

  /** `div` by a fixed divisor distributes over `add` in every class, whatever
      the divisor (the `one.div(f).add(x.div(f)).eq(one.add(x).div(f))`
      checks): the extension `div` multiplies by one and the same inverse. */
  lemma DivDistributes(F: Field, a: seq<int>, b: seq<int>, f: seq<int>)
    requires Valid(F) && |a| == Dim(F) && |b| == Dim(F) && |f| == Dim(F)
    ensures Div(F, Add(F, a, b), f) == Add(F, Div(F, a, f), Div(F, b, f))
  {
    if F.Prime? {
      PF.DivDistributes(a[0], b[0], f[0], F.p);
    } else {
      MulDistributes(F, a, b, EF.Inverse(f, F.mc, F.p));
    }
  }

  /** In a prime field of prime order a nonzero element divided by itself
      is one (the `f / f == one` check for `FQ`). */
  lemma DivSelf(F: Field, a: seq<int>)
    requires Valid(F) && F.Prime? && IsPrime(F.p) && IsElem(F, a) && a[0] != 0
    ensures Div(F, a, a) == One(F)
  {
    ModOfReduced(a[0], F.p);
    PF.InverseCorrect(a[0], F.p);
    assert a[0] * PF.Inverse(a[0], F.p) == PF.Inverse(a[0], F.p) * a[0];
  }

  /** `pow(1)` copies the element. */
  lemma PowOne(F: Field, a: seq<int>)
    requires Valid(F) && IsElem(F, a)
    ensures Pow(F, a, 1) == a
  {
    if F.Prime? {
      assert Power(a[0], 1) == a[0] * Power(a[0], 0);
      ModOfReduced(a[0], F.p);
    } else {
      forall i | 0 <= i < |a|
        ensures ReduceAll(a, F.p)[i] == a[i]
      {
        ModOfReduced(a[i], F.p);
      }
    }
  }

  /** `pow(2)` is a square and `pow(3)` is (a·a)·a, in the class's own `mul`. */
  lemma PowSmall(F: Field, a: seq<int>)
    requires Valid(F) && |a| == Dim(F)
    ensures Pow(F, a, 2) == Mul(F, a, a)
    ensures Pow(F, a, 3) == Mul(F, Mul(F, a, a), a)
  {
    if F.Prime? {
      PowSmallPrime(a[0], F.p);
    } else {
      MulIsElem(F, a, a);
      PowOne(F, Mul(F, a, a));
      TruncOfNatural(2, 2);
      TruncOfNatural(3, 2);
    }
  }

  /** One step of the halving recursion of `_FQP.pow`. */
  lemma PowHalving(F: Field, a: seq<int>, e: int)
    requires Valid(F) && F.Ext? && |a| == Dim(F) && e > 1
    ensures Pow(F, a, e) == if TruncRem(e, 2) == 0 then Pow(F, Mul(F, a, a), TruncDiv(e, 2))
      else Mul(F, Pow(F, Mul(F, a, a), TruncDiv(e, 2)), a)
  {
  }

  lemma PowSmallPrime(x: int, p: int)
    requires p > 1
    ensures Power(x, 2) % p == (x * x) % p
    ensures Power(x, 3) % p == (((x * x) % p) * x) % p
  {
    assert Power(x, 1) == x * Power(x, 0) == x;
    assert Power(x, 2) == x * Power(x, 1) == x * x;
    assert Power(x, 3) == x * Power(x, 2) == x * (x * x);
    ModMulLeft(x * x, x, p);
    assert (x * x) * x == x * (x * x);
  }

  /** Because BigInt `/` and `%` truncate, `pow` ignores the sign of the
      exponent: pow(−e) equals pow(e). */
  lemma {:induction false} PowSign(F: Field, a: seq<int>, e: int)
    requires Valid(F) && IsElem(F, a)
    ensures Pow(F, a, -e) == Pow(F, a, e)
    decreases Abs(e)
  {
    if F.Ext? && e != 0 {
      if e == 1 || e == -1 {
        var sq := Mul(F, a, a);
        assert TruncDiv(-1, 2) == 0 && TruncRem(-1, 2) == -1;
        assert Pow(F, a, -1) == Mul(F, One(F), a);
        MulOneLeft(F, a);
        PowOne(F, a);
      } else {
        var sq := Mul(F, a, a);
        MulIsElem(F, a, a);
        var h := TruncDiv(e, 2);
        assert TruncDiv(-e, 2) == -h;
        assert TruncRem(-e, 2) == 0 <==> TruncRem(e, 2) == 0;
        PowSign(F, sq, h);
        assert Pow(F, a, -e) == if TruncRem(e, 2) == 0 then Pow(F, sq, -h) else Mul(F, Pow(F, sq, -h), a);
      }
    }
  }
}
