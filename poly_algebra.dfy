/** Polynomials over the integers as coefficient sequences, lowest degree
    first. This is the reference algebra the field code is proved against:
    nothing is reduced here. */
module PolyAlgebra {

  /** The coefficient of X^k; zero outside the sequence. */
  function Coef(a: seq<int>, k: int): int
  {
    if 0 <= k < |a| then a[k] else 0
  }

  /** The coefficient of X^k in the product a·b, expanded along a:
      a·b = a[0]·b + X·(a[1..]·b). */
  function MulCoef(a: seq<int>, b: seq<int>, k: int): int
    decreases |a|
  {
    if |a| == 0 then 0 else a[0] * Coef(b, k) + MulCoef(a[1..], b, k - 1)
  }

  /** Appending a coefficient c at X^|a| adds the row c·X^|a|·b. */
  lemma {:induction false} MulCoefAppend(a: seq<int>, c: int, b: seq<int>, k: int)
    ensures MulCoef(a + [c], b, k) == MulCoef(a, b, k) + c * Coef(b, k - |a|)
    decreases |a|
  {
    if |a| == 0 {
      assert (a + [c])[1..] == [];
    } else {
      assert (a + [c])[1..] == a[1..] + [c];
      MulCoefAppend(a[1..], c, b, k - 1);
    }
  }

  /** A prefix of length i + 1 extends the prefix of length i by one row. */
  lemma MulCoefPrefix(a: seq<int>, i: nat, b: seq<int>, k: int)
    requires i < |a|
    ensures MulCoef(a[..i + 1], b, k) == MulCoef(a[..i], b, k) + a[i] * Coef(b, k - i)
  {
    assert a[..i + 1] == a[..i] + [a[i]];
    MulCoefAppend(a[..i], a[i], b, k);
  }
}
