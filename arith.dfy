/** Integer facts the model needs: the truncating division of JavaScript BigInt,
    powers, divisibility, greatest common divisors, primes and congruences. */
module Arith {

  function Abs(a: int): nat { if a < 0 then -a else a }

  /** BigInt `a / b`: the quotient rounded toward zero. */
  function TruncDiv(a: int, b: int): int
    requires b != 0
  {
    if (a < 0) == (b < 0) then Abs(a) / Abs(b) else -(Abs(a) / Abs(b))
  }

  /** BigInt `a % b`: the remainder takes the sign of the dividend. */
  function TruncRem(a: int, b: int): int
    requires b != 0
  {
    if a < 0 then -(Abs(a) % Abs(b)) else Abs(a) % Abs(b)
  }

  lemma TruncDivRem(a: int, b: int)
    requires b != 0
    ensures a == b * TruncDiv(a, b) + TruncRem(a, b)
    ensures Abs(TruncRem(a, b)) < Abs(b)
    ensures a >= 0 ==> TruncRem(a, b) >= 0
    ensures a <= 0 ==> TruncRem(a, b) <= 0
  {
    var q, r := Abs(a) / Abs(b), Abs(a) % Abs(b);
    assert Abs(a) == Abs(b) * q + r;
  }

  /** Truncating division commutes with negating the dividend. */
  lemma TruncOfNegated(a: int, b: int)
    requires b != 0
    ensures TruncDiv(-a, b) == -TruncDiv(a, b) && TruncRem(-a, b) == -TruncRem(a, b)
  {
  }

  lemma TruncOfNatural(a: int, b: int)
    requires a >= 0 && b > 0
    ensures TruncDiv(a, b) == a / b && TruncRem(a, b) == a % b
  {
  }

  function Power(a: int, n: nat): int
  {
    if n == 0 then 1 else a * Power(a, n - 1)
  }

  lemma {:induction false} PowerAdd(a: int, m: nat, n: nat)
    ensures Power(a, m + n) == Power(a, m) * Power(a, n)
    decreases m
  {
    if m > 0 {
      PowerAdd(a, m - 1, n);
      calc {
        Power(a, m + n);
        a * Power(a, m - 1 + n);
        a * (Power(a, m - 1) * Power(a, n));
        (a * Power(a, m - 1)) * Power(a, n);
      }
    }
  }

  lemma {:induction false} PowerOfSquare(a: int, n: nat)
    ensures Power(a * a, n) == Power(a, 2 * n)
    decreases n
  {
    if n > 0 {
      calc {
        Power(a * a, n);
        (a * a) * Power(a * a, n - 1);
        { PowerOfSquare(a, n - 1); }
        (a * a) * Power(a, 2 * (n - 1));
        { assert Power(a, 1) == a; assert Power(a, 2) == a * a; }
        Power(a, 2) * Power(a, 2 * (n - 1));
        { PowerAdd(a, 2, 2 * (n - 1)); }
        Power(a, 2 * n);
      }
    }
  }

  lemma {:induction false} PowerOfPower(a: int, m: nat, n: nat)
    ensures Power(Power(a, m), n) == Power(a, m * n)
    decreases n
  {
    if n > 0 {
      PowerOfPower(a, m, n - 1);
      PowerAdd(a, m, m * (n - 1));
      assert m + m * (n - 1) == m * n;
    }
  }

  lemma PowerNonNegative(a: int, n: nat)
    requires a >= 0
    ensures Power(a, n) >= 0
  {
    if n > 0 {
      PowerNonNegative(a, n - 1);
      MulNonNegative(a, Power(a, n - 1));
    }
  }

  lemma MulNonNegative(a: int, b: int)
    requires a >= 0 && b >= 0
    ensures a * b >= 0
  {
  }

  // ---------------------------------------------------------------------------
  // Euclidean `%` facts (Dafny's `%` on int never returns a negative number)

  lemma ModUnique(a: int, p: int, q: int, r: int)
    requires p > 0 && 0 <= r < p && a == p * q + r
    ensures a % p == r && a / p == q
  {
    var q0, r0 := a / p, a % p;
    assert a == p * q0 + r0;
    assert p * (q - q0) == r0 - r;
    if q > q0 {
      MulAtLeast(p, q - q0);
    } else if q < q0 {
      MulAtLeast(p, q0 - q);
    }
  }

  lemma MulAtLeast(p: int, k: int)
    requires p > 0 && k >= 1
    ensures p * k >= p
  {
    assert p * k == p + p * (k - 1);
    MulNonNegative(p, k - 1);
  }

  /** Adding a multiple of the modulus does not change the remainder. */
  lemma ModShift(x: int, p: int, k: int)
    requires p > 0
    ensures (p * k + x) % p == x % p
  {
    assert x == p * (x / p) + x % p;
    assert p * k + x == p * (k + x / p) + x % p;
    ModUnique(p * k + x, p, k + x / p, x % p);
  }

  lemma ModOfMultiple(p: int, k: int)
    requires p > 0
    ensures (p * k) % p == 0
  {
    ModShift(0, p, k);
  }

  lemma ModOfReduced(x: int, p: int)
    requires 0 <= x < p
    ensures x % p == x
  {
    ModUnique(x, p, 0, x);
  }

  lemma ModIdempotent(x: int, p: int)
    requires p > 0
    ensures (x % p) % p == x % p
  {
    ModOfReduced(x % p, p);
  }

  lemma ModAddLeft(a: int, b: int, p: int)
    requires p > 0
    ensures (a % p + b) % p == (a + b) % p
  {
    assert a == p * (a / p) + a % p;
    ModShift(a % p + b, p, a / p);
  }

  lemma ModAdd(a: int, b: int, p: int)
    requires p > 0
    ensures (a % p + b % p) % p == (a + b) % p
  {
    ModAddLeft(a, b % p, p);
    ModAddLeft(b, a, p);
  }

  lemma ModSub(a: int, b: int, p: int)
    requires p > 0
    ensures (a % p - b % p) % p == (a - b) % p
  {
    ModAddLeft(a, -(b % p), p);
    assert b == p * (b / p) + b % p;
    ModShift(a - b, p, b / p);
    assert a - b % p == p * (b / p) + (a - b);
  }

  lemma ModMulLeft(a: int, b: int, p: int)
    requires p > 0
    ensures ((a % p) * b) % p == (a * b) % p
  {
    assert a == p * (a / p) + a % p;
    assert a * b == p * ((a / p) * b) + (a % p) * b;
    ModShift((a % p) * b, p, (a / p) * b);
  }

  lemma ModMul(a: int, b: int, p: int)
    requires p > 0
    ensures ((a % p) * (b % p)) % p == (a * b) % p
  {
    ModMulLeft(a, b % p, p);
    ModMulLeft(b, a, p);
  }

  lemma ModNeg(a: int, p: int)
    requires p > 0
    ensures (-(a % p)) % p == (-a) % p
  {
    ModSub(0, a, p);
    ModOfReduced(0, p);
  }

  /** For a positive modulus, the BigInt remainder is congruent to its dividend. */
  lemma TruncRemCongruent(a: int, n: int)
    requires n > 0
    ensures TruncRem(a, n) % n == a % n
  {
    TruncDivRem(a, n);
    ModShift(TruncRem(a, n), n, TruncDiv(a, n));
  }

  lemma {:induction false} PowerCongruent(a: int, b: int, n: nat, p: int)
    requires p > 0 && a % p == b % p
    ensures Power(a, n) % p == Power(b, n) % p
    decreases n
  {
    if n > 0 {
      PowerCongruent(a, b, n - 1, p);
      calc {
        Power(a, n) % p;
        (a * Power(a, n - 1)) % p;
        { ModMul(a, Power(a, n - 1), p); }
        ((a % p) * (Power(a, n - 1) % p)) % p;
        ((b % p) * (Power(b, n - 1) % p)) % p;
        { ModMul(b, Power(b, n - 1), p); }
        (b * Power(b, n - 1)) % p;
      }
    }
  }

  // ---------------------------------------------------------------------------
  // Divisibility, gcd and primes

  ghost predicate Divides(d: int, a: int)
  {
    exists k :: a == d * k
  }

  ghost predicate IsPrime(n: int)
  {
    n > 1 && forall d :: 1 < d < n ==> n % d != 0
  }

  function Gcd(a: nat, b: nat): nat
    decreases b
  {
    if b == 0 then a else Gcd(b, a % b)
  }

  lemma {:induction false} GcdDivides(a: nat, b: nat)
    ensures Divides(Gcd(a, b), a) && Divides(Gcd(a, b), b)
    decreases b
  {
    if b == 0 {
      assert a == a * 1 && b == a * 0;
    } else {
      GcdDivides(b, a % b);
      var g := Gcd(b, a % b);
      var kb :| b == g * kb;
      var kr :| a % b == g * kr;
      assert a == b * (a / b) + a % b;
      assert a == g * (kb * (a / b) + kr);
    }
  }

  lemma GcdPositive(a: nat, b: nat)
    requires a > 0 || b > 0
    ensures Gcd(a, b) > 0
    decreases b
  {
    if b > 0 {
      GcdPositive(b, a % b);
    }
  }

  /** A positive divisor of a prime is 1 or the prime itself. */
  lemma PrimeDivisor(n: int, d: int)
    requires IsPrime(n) && d > 0 && Divides(d, n)
    ensures d == 1 || d == n
  {
    var k :| n == d * k;
    if 1 < d < n {
      assert k >= 1 by {
        if k <= 0 { MulNonPositive(d, k); }
      }
      ModUnique(n, d, k, 0);
      assert false;
    } else if d > n {
      assert k >= 1 by {
        if k <= 0 { MulNonPositive(d, k); }
      }
      MulAtLeast(d, k);
      assert false;
    }
  }

  lemma MulNonPositive(d: int, k: int)
    requires d > 0 && k <= 0
    ensures d * k <= 0
  {
    MulNonNegative(d, -k);
  }

  lemma DividesBounded(d: int, a: int)
    requires d > 0 && a > 0 && Divides(d, a)
    ensures d <= a
  {
    var k :| a == d * k;
    if k <= 0 {
      MulNonPositive(d, k);
    } else {
      MulAtLeast(d, k);
    }
  }

  /** Two numbers whose difference is a multiple of p have the same remainder. */
  lemma CongruentOfMultiple(a: int, b: int, p: int, k: int)
    requires p > 0 && a == b + p * k
    ensures a % p == b % p
  {
    ModShift(b, p, k);
  }
}
