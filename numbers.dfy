/** The integer helpers of numbers/numbers.js: modular exponentiation, the
    extended Euclidean algorithm and the modular inverse built on it. */
module Numbers {
  import opened Arith
  import opened Wrappers

  /** `pow(a, b, n)`: right-to-left square-and-multiply. The base is first
      reduced with BigInt `%`, and every product is reduced again. With b <= 0
      the loop does not run and the result is 1, even when n == 1. */
  method Pow(a: int, b: int, n: int) returns (result: int)
    requires n > 0
    ensures b <= 0 ==> result == 1
    ensures b >= 0 ==> result % n == Power(a, b) % n
    ensures a >= 0 && b > 0 ==> result == Power(a, b) % n
  {
    var x := TruncRem(a, n);
    result := 1;
    var e := b;
    TruncRemCongruent(a, n);
    if b >= 0 { PowerCongruent(x, a, b, n); }
    while e > 0
      invariant b <= 0 ==> e == b && result == 1
      invariant b > 0 ==> 0 <= e
      invariant b >= 0 ==> (result * Power(x, e)) % n == Power(a, b) % n
      invariant a >= 0 ==> 0 <= x < n && 0 <= result
      invariant a >= 0 && b > 0 && e == 0 ==> result < n
      decreases e
    {
      var leastSignificantBit := TruncRem(e, 2);
      TruncOfNatural(e, 2);
      ghost var e0, x0, result0 := e, x, result;
      e := TruncDiv(e, 2);
      if leastSignificantBit == 1 {
        result := TruncRem(result * x, n);
        TruncRemCongruent(result0 * x0, n);
        if a >= 0 { MulNonNegative(result0, x0); TruncOfNatural(result0 * x0, n); }
      }
      x := TruncRem(x * x, n);
      TruncRemCongruent(x0 * x0, n);
      if a >= 0 { MulNonNegative(x0, x0); TruncOfNatural(x0 * x0, n); }
      if b >= 0 {
        PowStep(result0, x0, e0, n, result, x);
      }
    }
    if a >= 0 && b > 0 {
      ModOfReduced(result, n);
      assert Power(x, 0) == 1;
    }
  }

  lemma PowStep(r: int, x: int, e: int, n: int, r': int, x': int)
    requires n > 0 && e > 0
    requires r' % n == (if e % 2 == 1 then r * x else r) % n
    requires x' % n == (x * x) % n
    ensures (r' * Power(x', e / 2)) % n == (r * Power(x, e)) % n
  {
    var h, bit := e / 2, e % 2;
    var rb := if bit == 1 then r * x else r;
    var q, pb, ph := Power(x', h), Power(x, bit), Power(x, 2 * h);
    if bit == 1 {
      assert pb == x * Power(x, 0);
    } else {
      assert bit == 0 && pb == 1;
    }
    assert rb == r * pb;
    var sq := Power(x * x, h);
    ModMul(r', q, n);
    assert r' % n == rb % n;
    PowerCongruent(x', x * x, h, n);
    assert q % n == sq % n;
    assert (r' * q) % n == ((rb % n) * (sq % n)) % n;
    ModMul(rb, sq, n);
    PowerOfSquare(x, h);
    assert sq == ph;
    PowerAdd(x, bit, 2 * h);
    assert bit + 2 * h == e;
    assert rb * ph == r * (pb * ph);
  }

  /** `egcd(m, n)`: returns [a, b, d] with a*m + b*n == d. For m >= 0 the loop
      is Euclid's algorithm and d is the greatest common divisor; for m < 0 the
      first BigInt remainder is not positive, the loop does not run and d == n.
      n == 0 would divide by zero at the first quotient. */
  method Egcd(m: int, n: int) returns (a: int, b: int, d: int)
    requires n > 0
    ensures a * m + b * n == d
    ensures m >= 0 ==> d == Gcd(m, n) && Divides(d, m) && Divides(d, n)
    ensures m < 0 ==> a == 0 && b == 1 && d == n
  {
    var a1 := 1;
    var b1 := 0;
    a, b := 0, 1;
    var c := m;
    d := n;
    var q := TruncDiv(c, d);
    var r := TruncRem(c, d);
    while r > 0
      invariant d > 0
      invariant a1 * m + b1 * n == c
      invariant a * m + b * n == d
      invariant q == TruncDiv(c, d) && r == TruncRem(c, d)
      invariant m >= 0 ==> c >= 0 && Gcd(c, d) == Gcd(m, n)
      invariant m < 0 ==> c == m && d == n && a == 0 && b == 1
      decreases d
    {
      TruncDivRem(c, d);
      TruncOfNatural(c, d);
      BezoutStep(m, n, a1, b1, a, b, c, d, q, r);
      a1, a := a, a1 - q * a;
      b1, b := b, b1 - q * b;
      c := d;
      d := r;
      q := TruncDiv(c, d);
      r := TruncRem(c, d);
    }
    if m >= 0 {
      TruncDivRem(c, d);
      TruncOfNatural(c, d);
      assert Gcd(c, d) == Gcd(d, 0) == d;
      GcdDivides(m, n);
    } else {
      TruncDivRem(c, d);
    }
  }

  /** One step of the Bézout bookkeeping: the new coefficients describe the remainder. */
  lemma BezoutStep(m: int, n: int, a1: int, b1: int, a: int, b: int, c: int, d: int, q: int, r: int)
    requires a1 * m + b1 * n == c && a * m + b * n == d && c == d * q + r
    ensures (a1 - q * a) * m + (b1 - q * b) * n == r
  {
    calc {
      (a1 - q * a) * m + (b1 - q * b) * n;
      a1 * m + b1 * n - q * (a * m + b * n);
      c - q * d;
    }
  }

  /** `mod_inv(x, n)`: throws exactly when the d of `egcd` is not 1; otherwise
      returns the Bézout coefficient a, which need not lie in [0, n). */
  method ModInv(x: int, n: int) returns (r: Result<int>)
    requires n > 0
    ensures r.Err? ==> r.error == InverseMissing
    ensures x >= 0 ==> (r.Ok? <==> Gcd(x, n) == 1)
    ensures x < 0 ==> (r.Ok? <==> n == 1)
    ensures r.Ok? ==> (r.value * x) % n == 1 % n
  {
    var a, b, g := Egcd(x, n);
    if g != 1 {
      return Err(InverseMissing);
    }
    CongruentOfMultiple(a * x, 1, n, -b);
    return Ok(a);
  }
}
