/** The residue type `_FQ` of fields/field_elements.js and the extended-Euclid
    `inv` it divides with. A residue is an `int`; the modulus p is a parameter. */
module PrimeField {
  import opened Arith

  /** The `_FQ` constructor: BigInt `%` (which keeps the sign of n) and then
      + p on a negative remainder. */
  function Reduce(n: int, p: int): (r: int)
    requires p > 0
    ensures 0 <= r < p
    ensures r == n % p
  {
    TruncDivRem(n, p);
    TruncRemCongruent(n, p);
    var t := TruncRem(n, p);
    if t < 0 then
      CongruentOfMultiple(t + p, t, p, 1);
      ModOfReduced(t + p, p);
      t + p
    else
      ModOfReduced(t, p);
      t
  }

  function Add(a: int, b: int, p: int): (r: int)
    requires p > 0
    ensures r == (a + b) % p
  {
    Reduce(a + b, p)
  }

  function Sub(a: int, b: int, p: int): (r: int)
    requires p > 0
    ensures r == (a - b) % p
  {
    Reduce(a - b, p)
  }

  function Mul(a: int, b: int, p: int): (r: int)
    requires p > 0
    ensures r == (a * b) % p
  {
    Reduce(a * b, p)
  }

  function Neg(a: int, p: int): (r: int)
    requires p > 0
    ensures r == (-a) % p
  {
    Reduce(-a, p)
  }

  function One(p: int): (r: int)
    requires p > 0
    ensures r == 1 % p
  {
    Reduce(1, p)
  }

  function Zero(p: int): (r: int)
    requires p > 0
    ensures r == 0
  {
    Reduce(0, p)
  }

  /** `eq` compares the stored residues. */
  function Eq(a: int, b: int): bool
  {
    a == b
  }

  // ---------------------------------------------------------------------------
  // The extended Euclidean algorithm `inv(a, n)`

  /** The loop of `inv` as a recursion over its four variables; every
      quotient and remainder is the BigInt one, truncated toward zero. */
  function InvLoop(t: int, newT: int, r: int, newR: int, n: int): int
    requires n > 0
    decreases Abs(newR)
  {
    if newR == 0 then t
    else
      var q := TruncDiv(r, newR);
      TruncDivRem(r, newR);
      InvLoop(newT, TruncRem(t - q * newT, n), newR, r - q * newR, n)
  }

  function Inverse(a: int, n: int): int
    requires n > 0
  {
    InvLoop(0, 1, n, a, n)
  }

  /** `inv(a, n)`. */
  method Inv(a: int, n: int) returns (t: int)
    requires n > 0
    ensures t == Inverse(a, n)
    ensures a >= 0 ==> (t * a) % n == Gcd(n, a) % n
    ensures a == 0 ==> t == 0
  {
    t := 0;
    var newT := 1;
    var r := n;
    var newR := a;
    while newR != 0
      invariant InvLoop(t, newT, r, newR, n) == Inverse(a, n)
      decreases Abs(newR)
    {
      var q := TruncDiv(r, newR);
      TruncDivRem(r, newR);
      t, newT := newT, TruncRem(t - q * newT, n);
      r, newR := newR, r - q * newR;
    }
    if a >= 0 {
      InverseBezout(a, n);
    }
  }

  lemma ModLinear(u: int, r: int, v: int, w: int, q: int, n: int)
    requires n > 0 && u % n == r % n && v % n == w % n
    ensures (u - q * v) % n == (r - q * w) % n
  {
    ModMul(q, v, n);
    ModMul(q, w, n);
    ModSub(u, q * v, n);
    ModSub(r, q * w, n);
  }

  /** The Bézout invariant of `inv`: t·a ≡ r and newT·a ≡ newR (mod n) hold
      on entry to every round, so the result times a is the last nonzero
      remainder, which is the gcd. */
  lemma {:induction false} InvLoopBezout(a: int, t: int, newT: int, r: nat, newR: nat, n: int)
    requires n > 0
    requires (t * a) % n == r % n && (newT * a) % n == newR % n
    ensures (InvLoop(t, newT, r, newR, n) * a) % n == Gcd(r, newR) % n
    decreases newR
  {
    if newR != 0 {
      var q := TruncDiv(r, newR);
      TruncDivRem(r, newR);
      TruncOfNatural(r, newR);
      var t' := TruncRem(t - q * newT, n);
      BezoutStep(a, t, newT, r, newR, q, n);
      assert r - q * newR == r % newR;
      InvLoopBezout(a, newT, t', newR, r % newR, n);
      assert Gcd(r, newR) == Gcd(newR, r % newR);
    }
  }

  /** One round keeps the invariant: t' = t − q·newT pairs with r − q·newR. */
  lemma BezoutStep(a: int, t: int, newT: int, r: int, newR: int, q: int, n: int)
    requires n > 0
    requires (t * a) % n == r % n && (newT * a) % n == newR % n
    ensures (TruncRem(t - q * newT, n) * a) % n == (r - q * newR) % n
  {
    var t' := TruncRem(t - q * newT, n);
    calc {
      (t' * a) % n;
      { ModMulLeft(t', a, n); }
      ((t' % n) * a) % n;
      { TruncRemCongruent(t - q * newT, n); }
      (((t - q * newT) % n) * a) % n;
      { ModMulLeft(t - q * newT, a, n); }
      ((t - q * newT) * a) % n;
      { assert (t - q * newT) * a == t * a - q * (newT * a); }
      (t * a - q * (newT * a)) % n;
      { ModLinear(t * a, r, newT * a, newR, q, n); }
      (r - q * newR) % n;
    }
  }

  lemma InverseBezout(a: nat, n: int)
    requires n > 0
    ensures (Inverse(a, n) * a) % n == Gcd(n, a) % n
  {
    assert (1 * a) % n == a % n;
    InvLoopBezout(a, 0, 1, n, a, n);
  }

  /** For a prime modulus and a divisor that is not a multiple of it, `inv`
      returns a true inverse. */
  lemma InverseCorrect(a: nat, n: int)
    requires IsPrime(n) && a % n != 0
    ensures (Inverse(a, n) * a) % n == 1
  {
    InverseBezout(a, n);
    GcdDivides(n, a);
    GcdPositive(n, a);
    var g := Gcd(n, a);
    PrimeDivisor(n, g);
    if g == n {
      var k :| a == n * k;
      ModOfMultiple(n, k);
      assert false;
    }
    ModOfReduced(1, n);
  }

  /** `_FQ.div`: multiply by `inv` of the divisor. Dividing by zero yields
      zero; a prime modulus makes the quotient exact. */
  function Div(a: int, b: int, p: int): (r: int)
    requires p > 0
    ensures 0 <= r < p
    ensures b == 0 ==> r == 0
    ensures IsPrime(p) && b >= 0 && b % p != 0 ==> (r * b) % p == a % p
  {
    DivExact(a, b, p);
    Mul(a, Inverse(b, p), p)
  }

  lemma DivExact(a: int, b: int, p: int)
    requires p > 0
    ensures IsPrime(p) && b >= 0 && b % p != 0 ==> (Mul(a, Inverse(b, p), p) * b) % p == a % p
  {
    if IsPrime(p) && b >= 0 && b % p != 0 {
      InverseCorrect(b, p);
      var i := Inverse(b, p);
      calc {
        (Mul(a, i, p) * b) % p;
        { ModMulLeft(a * i, b, p); }
        ((a * i) * b) % p;
        { assert (a * i) * b == a * (i * b); }
        (a * (i * b)) % p;
        { ModMul(a, i * b, p); }
        ((a % p) * ((i * b) % p)) % p;
        ((a % p) * 1) % p;
        { ModIdempotent(a, p); }
        a % p;
      }
    }
  }

  /** `_FQ.pow`: recursion on the exponent with BigInt halving. A negative
      exponent behaves as its absolute value. */
  function Pow(a: int, e: int, p: int): (r: int)
    requires p > 0
    ensures r == Power(a, Abs(e)) % p
    decreases Abs(e)
  {
    if e == 0 then
      One(p)
    else if e == 1 then
      Reduce(a, p)
    else
      var h := TruncDiv(e, 2);
      PowHalving(a, e, p);
      var half := Pow(Mul(a, a, p), h, p);
      if TruncRem(e, 2) == 0 then
        half
      else
        PowTimesBase(a, 2 * Abs(h), p);
        Mul(half, a, p)
  }

  /** One halving step of `pow`: squaring the base and halving the exponent
      with BigInt `/` and `%` keeps the power, with one factor left over when
      the exponent is odd. */
  lemma PowHalving(a: int, e: int, p: int)
    requires p > 0
    ensures Power(Mul(a, a, p), Abs(TruncDiv(e, 2))) % p == Power(a, 2 * Abs(TruncDiv(e, 2))) % p
    ensures TruncRem(e, 2) == 0 ==> Abs(e) == 2 * Abs(TruncDiv(e, 2))
    ensures TruncRem(e, 2) != 0 ==> Abs(e) == 2 * Abs(TruncDiv(e, 2)) + 1
  {
    var h := TruncDiv(e, 2);
    TruncDivRem(e, 2);
    ModIdempotent(a * a, p);
    PowerCongruent(Mul(a, a, p), a * a, Abs(h), p);
    PowerOfSquare(a, Abs(h));
  }

  lemma PowTimesBase(a: int, k: nat, p: int)
    requires p > 0
    ensures ((Power(a, k) % p) * a) % p == Power(a, k + 1) % p
  {
    ModMulLeft(Power(a, k), a, p);
    PowerAdd(a, k, 1);
    assert Power(a, 1) == a * Power(a, 0);
  }

  // ---------------------------------------------------------------------------
  // Properties of the residue operations

  /** Two residues built by the constructor are `eq` exactly when the
      integers they were built from are congruent. */
  lemma EqOfReduced(x: int, y: int, p: int)
    requires p > 0
    ensures Eq(Reduce(x, p), Reduce(y, p)) <==> x % p == y % p
  {
  }

  /** Multiplication distributes over addition (the 2·7 + 9·7 == 11·7 check). */
  lemma MulDistributes(a: int, b: int, c: int, p: int)
    requires p > 0
    ensures Add(Mul(a, c, p), Mul(b, c, p), p) == Mul(Add(a, b, p), c, p)
  {
    ModAdd(a * c, b * c, p);
    ModMulLeft(a + b, c, p);
    assert (a + b) * c == a * c + b * c;
  }

  /** Division by a fixed divisor distributes over addition
      (the 2/7 + 9/7 == 11/7 check), whatever the divisor. */
  lemma DivDistributes(a: int, b: int, c: int, p: int)
    requires p > 0
    ensures Add(Div(a, c, p), Div(b, c, p), p) == Div(Add(a, b, p), c, p)
  {
    MulDistributes(a, b, Inverse(c, p), p);
  }

  /** Negation is an additive inverse, and applying it twice gives back the residue. */
  lemma NegInverse(a: int, p: int)
    requires p > 0
    ensures Add(a, Neg(a, p), p) == Zero(p)
    ensures Neg(Neg(a, p), p) == Reduce(a, p)
    ensures Sub(a, a, p) == Zero(p)
  {
    ModAddLeft(-a, a, p);
    assert Neg(a, p) + a == (-a) % p + a;
    ModNeg(-a, p);
  }

  lemma OneIsNeutral(a: int, p: int)
    requires p > 0
    ensures Mul(One(p), a, p) == Reduce(a, p)
    ensures Add(Zero(p), a, p) == Reduce(a, p)
  {
    ModMulLeft(1, a, p);
  }
}
