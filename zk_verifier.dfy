/** The Groth16 check of zokrates-verifier/verifier.js: the verification key
    read from a list of hexadecimal tokens, the proof read from its JSON
    object, the linear combination vk_x of the key's `gammaABC` points with
    the public inputs, and the test that the product of four pairings is one.
    The pairing is a parameter `pair(Q, P)`: only its result matters here. */
module ZkVerifier {
  import opened Wrappers
  import opened Arith
  import Fld = Fields
  import CG = CurveGroup
  import Cv = Curves

  /** `FQ.modulus` of alt_bn128. The functions below take the modulus as a
      parameter p; the verifier is meant to run with this value. */
  const AltBn128Modulus: int := 21888242871839275222246405745257275088696311157297823662689037894645226208583

  /** `AltBn128CurvePoint`: y² = x³ + 3 over FQ. Its `add`, `double`, `neg`
      and `multiply` come from the generic curve and never read `a`. */
  function G1Curve(p: int): (C: CG.Curve)
    requires p > 1
    ensures CG.ValidCurve(C) && C.F == Fld.Prime(p)
  {
    Cv.Bn128G1(p)
  }

  /** alt_bn128's FQ12, in which the pairing takes its values. */
  function Gt(p: int): (F: Fld.Field)
    requires p > 1
    ensures Fld.Valid(F) && Fld.Dim(F) == 12
  {
    Cv.Fq12(p, Cv.BnTwelfth)
  }

  /** The coordinates of a G1 point are `FQ` residues. */
  predicate OnG1(p: int, P: CG.Point)
    requires p > 1
  {
    CG.OnField(G1Curve(p), P)
  }

  /** `new G1Point(x, y)`: `new FQ(x)` and `new FQ(y)`. */
  function G1(p: int, x: int, y: int): (P: CG.Point)
    requires p > 1
    ensures OnG1(p, P)
  {
    CG.Affine(Fld.FromInt(Fld.Prime(p), x), Fld.FromInt(Fld.Prime(p), y))
  }

  /** The coordinates of a G2 point are reduced `FQ2` elements. */
  predicate OnG2(p: int, P: CG.Point)
  {
    P.Affine? ==> Fld.IsElem(Cv.Fq2(p), P.x) && Fld.IsElem(Cv.Fq2(p), P.y)
  }

  /** `new G2Point([x0, x1], [y0, y1])`: two `FQ2` elements. */
  function G2(p: int, x0: int, x1: int, y0: int, y1: int): (P: CG.Point)
    requires p > 1
    ensures P.Affine? && OnG2(p, P)
  {
    CG.Affine([x0 % p, x1 % p], [y0 % p, y1 % p])
  }

  // ---------------------------------------------------------------------------
  // The verification key

  datatype Key = Key(a: CG.Point, b: CG.Point, gamma: CG.Point, delta: CG.Point, gammaABC: seq<CG.Point>)

  /** The points the constructor's loop pushes from token i on: one per pair
      of tokens. A lone last token is `undefined`, and `new FQ(undefined)`
      throws when `_n` reads its `n`. */
  function Pairs(p: int, t: seq<int>, i: nat): (r: Result<seq<CG.Point>>)
    requires p > 1 && i <= |t|
    ensures r.Err? ==> r.error == MissingProperty
    ensures r.Ok? ==> forall k :: 0 <= k < |r.value| ==> OnG1(p, r.value[k])
    decreases |t| - i
  {
    if i == |t| then Ok([])
    else if i + 1 == |t| then Err(MissingProperty)
    else
      var rest := Pairs(p, t, i + 2);
      if rest.Err? then rest else Ok([G1(p, t[i], t[i + 1])] + rest.value)
  }

  /** The points pushed so far followed by those still to come. */
  function Glue(done: seq<CG.Point>, rest: Result<seq<CG.Point>>): Result<seq<CG.Point>>
  {
    if rest.Err? then rest else Ok(done + rest.value)
  }

  /** One pass of the constructor's loop moves a point from the rest to the
      points pushed. */
  lemma PairsStep(p: int, t: seq<int>, done: seq<CG.Point>, i: nat)
    requires p > 1 && i + 1 < |t|
    ensures Glue(done, Pairs(p, t, i)) == Glue(done + [G1(p, t[i], t[i + 1])], Pairs(p, t, i + 2))
  {
    var rest := Pairs(p, t, i + 2);
    if rest.Ok? {
      assert done + ([G1(p, t[i], t[i + 1])] + rest.value) == (done + [G1(p, t[i], t[i + 1])]) + rest.value;
    }
  }

  /** `new VerificationKey(text)` on the tokens of the text: a from tokens 0
      and 1, b, gamma and delta from tokens 2 to 13 with the two coefficients
      of each `FQ2` coordinate swapped, and one `gammaABC` point per pair of
      tokens from 14 on. A missing token is `undefined` and throws. */
  function KeyLayout(p: int, t: seq<int>): Result<Key>
    requires p > 1
  {
    if |t| < 14 then Err(MissingProperty)
    else
      var g := Pairs(p, t, 14);
      if g.Err? then Err(g.error)
      else
        Ok(Key(G1(p, t[0], t[1]),
               G2(p, t[3], t[2], t[5], t[4]),
               G2(p, t[7], t[6], t[9], t[8]),
               G2(p, t[11], t[10], t[13], t[12]),
               g.value))
  }

  /** From token i on, the pairs are read exactly when an even number of
      tokens is left, and point k comes from tokens i + 2k and i + 2k + 1. */
  lemma {:induction false} PairsLayout(p: int, t: seq<int>, i: nat)
    requires p > 1 && i <= |t|
    ensures Pairs(p, t, i).Ok? <==> (|t| - i) % 2 == 0
    ensures Pairs(p, t, i).Err? ==> Pairs(p, t, i).error == MissingProperty
    ensures Pairs(p, t, i).Ok? ==>
      var g := Pairs(p, t, i).value;
      |g| == (|t| - i) / 2 &&
      forall k :: 0 <= k < |g| ==> g[k] == CG.Affine([t[i + 2 * k] % p], [t[i + 2 * k + 1] % p])
    decreases |t| - i
  {
    if i < |t| && i + 1 < |t| {
      PairsLayout(p, t, i + 2);
      var rest := Pairs(p, t, i + 2);
      if rest.Ok? {
        var g := Pairs(p, t, i).value;
        assert g == [G1(p, t[i], t[i + 1])] + rest.value;
        forall k | 0 < k < |g|
          ensures g[k] == CG.Affine([t[i + 2 * k] % p], [t[i + 2 * k + 1] % p])
        {
          assert g[k] == rest.value[k - 1];
          assert i + 2 + 2 * (k - 1) == i + 2 * k;
        }
      }
    }
  }

  /** The key is read exactly when there are at least 14 tokens and an even
      number of them; its points are the ones the layout promises, all with
      reduced coordinates. */
  lemma KeyLayoutMeaning(p: int, t: seq<int>)
    requires p > 1
    ensures KeyLayout(p, t).Ok? <==> |t| >= 14 && |t| % 2 == 0
    ensures KeyLayout(p, t).Err? ==> KeyLayout(p, t).error == MissingProperty
    ensures KeyLayout(p, t).Ok? ==>
      var k := KeyLayout(p, t).value;
      k.a == CG.Affine([t[0] % p], [t[1] % p]) &&
      k.b == CG.Affine([t[3] % p, t[2] % p], [t[5] % p, t[4] % p]) &&
      k.gamma == CG.Affine([t[7] % p, t[6] % p], [t[9] % p, t[8] % p]) &&
      k.delta == CG.Affine([t[11] % p, t[10] % p], [t[13] % p, t[12] % p]) &&
      |k.gammaABC| == (|t| - 14) / 2 &&
      (forall j :: 0 <= j < |k.gammaABC| ==>
        k.gammaABC[j] == CG.Affine([t[14 + 2 * j] % p], [t[15 + 2 * j] % p])) &&
      OnG1(p, k.a) && AllOnField(G1Curve(p), k.gammaABC)
  {
    if |t| >= 14 {
      PairsLayout(p, t, 14);
      var g := Pairs(p, t, 14);
      if g.Ok? {
        forall j | 0 <= j < |g.value|
          ensures OnG1(p, g.value[j])
        {
          assert g.value[j] == G1(p, t[14 + 2 * j], t[14 + 2 * j + 1]);
        }
      }
    }
  }

  /** The `VerificationKey` constructor, with its loop over the token pairs. */
  method BuildKey(p: int, t: seq<int>) returns (r: Result<Key>)
    requires p > 1
    ensures r == KeyLayout(p, t)
  {
    if |t| < 14 {
      return Err(MissingProperty);
    }
    var a := G1(p, t[0], t[1]);
    var b := G2(p, t[3], t[2], t[5], t[4]);
    var gamma := G2(p, t[7], t[6], t[9], t[8]);
    var delta := G2(p, t[11], t[10], t[13], t[12]);
    var gammaABC: seq<CG.Point> := [];
    var i := 14;
    assert Pairs(p, t, 14).Ok? ==> gammaABC + Pairs(p, t, 14).value == Pairs(p, t, 14).value;
    while i < |t|
      invariant 14 <= i <= |t|
      invariant Pairs(p, t, 14) == Glue(gammaABC, Pairs(p, t, i))
      decreases |t| - i
    {
      if i + 1 == |t| {
        return Err(MissingProperty);
      }
      PairsStep(p, t, gammaABC, i);
      gammaABC := gammaABC + [G1(p, t[i], t[i + 1])];
      i := i + 2;
    }
    assert gammaABC + [] == gammaABC;
    return Ok(Key(a, b, gamma, delta, gammaABC));
  }

  // ---------------------------------------------------------------------------
  // The proof

  /** The JSON object of a proof: `proof.a`, `proof.b`, `proof.c` and `inputs`. */
  datatype ProofJson = ProofJson(a: seq<int>, b: seq<seq<int>>, c: seq<int>, inputs: seq<int>)

  datatype Proof = Proof(A: CG.Point, B: CG.Point, C: CG.Point)

  /** What `new Proof(json)` holds: the three points and the inputs. */
  datatype Submission = Submission(proof: Proof, inputs: seq<int>)

  /** `Array.prototype.reverse`. */
  function Reverse(s: seq<int>): (r: seq<int>)
    ensures |r| == |s| && forall i :: 0 <= i < |s| ==> r[i] == s[|s| - 1 - i]
  {
    if s == [] then [] else Reverse(s[1..]) + [s[0]]
  }

  /** `new G2Point(x, y)`: `new FQ2(x)` and `new FQ2(y)` assert two coefficients. */
  function G2Of(p: int, x: seq<int>, y: seq<int>): (r: Result<CG.Point>)
    requires p > 1
    ensures r.Ok? <==> |x| == 2 && |y| == 2
    ensures r.Err? ==> r.error == AssertionFailed
    ensures r.Ok? ==> r.value.Affine? && OnG2(p, r.value)
  {
    if |x| != 2 || |y| != 2 then Err(AssertionFailed) else Ok(G2(p, x[0], x[1], y[0], y[1]))
  }

  /** `new Proof(json)`: A and C from the first two numbers of `a` and `c`, B
      from the two pairs of `b`, each reversed. A missing number or pair is
      `undefined` and throws; a pair of another length fails `FQ2`'s
      assertion. The inputs are kept as they are. */
  function ProofFromJson(p: int, json: ProofJson): (r: Result<Submission>)
    requires p > 1
    ensures r.Ok? <==> |json.a| >= 2 && |json.b| >= 2 && |json.b[0]| == 2 && |json.b[1]| == 2 && |json.c| >= 2
    ensures r.Err? ==> r.error == (if |json.a| >= 2 && |json.b| >= 2 then AssertionFailed else MissingProperty) ||
                       (|json.b| >= 2 && |json.b[0]| == 2 && |json.b[1]| == 2 && r.error == MissingProperty)
    ensures r.Ok? ==>
      var b0, b1 := json.b[0], json.b[1];
      r.value.proof.A == CG.Affine([json.a[0] % p], [json.a[1] % p]) &&
      r.value.proof.B == CG.Affine([b0[1] % p, b0[0] % p], [b1[1] % p, b1[0] % p]) &&
      r.value.proof.C == CG.Affine([json.c[0] % p], [json.c[1] % p]) &&
      OnG1(p, r.value.proof.A) && OnG1(p, r.value.proof.C) &&
      r.value.inputs == json.inputs
  {
    if |json.a| < 2 || |json.b| < 2 then Err(MissingProperty)
    else
      var B := G2Of(p, Reverse(json.b[0]), Reverse(json.b[1]));
      if B.Err? then Err(B.error)
      else if |json.c| < 2 then Err(MissingProperty)
      else Ok(Submission(Proof(G1(p, json.a[0], json.a[1]), B.value, G1(p, json.c[0], json.c[1])), json.inputs))
  }

  // ---------------------------------------------------------------------------
  // The linear combination vk_x

  /** Every point has reduced coordinates. */
  predicate AllOnField(C: CG.Curve, g: seq<CG.Point>)
  {
    forall j :: 0 <= j < |g| ==> CG.OnField(C, g[j])
  }

  /** The loop of `verify` from index i with vk_x = acc:
      vk_x := vk_x + gammaABC[i + 1]·inputs[i] for each remaining i. */
  function Combine(C: CG.Curve, g: seq<CG.Point>, inputs: seq<int>, i: nat, acc: CG.Point): (r: Result<CG.Point>)
    requires CG.ValidCurve(C) && |inputs| < |g| && AllOnField(C, g) && CG.OnField(C, acc) && i <= |inputs|
    ensures r.Ok? ==> CG.OnField(C, r.value)
    decreases |inputs| - i
  {
    if i == |inputs| then Ok(acc)
    else
      var m := CG.Multiply(C, g[i + 1], inputs[i]);
      if m.Err? then m
      else
        var s := CG.Add(C, acc, m.value);
        if s.Err? then s else Combine(C, g, inputs, i + 1, s.value)
  }

  /** vk_x: the combination from the identity, plus gammaABC[0]. */
  function VkX(C: CG.Curve, g: seq<CG.Point>, inputs: seq<int>): (r: Result<CG.Point>)
    requires CG.ValidCurve(C) && |inputs| + 1 == |g| && AllOnField(C, g)
    ensures r.Ok? ==> CG.OnField(C, r.value)
  {
    var s := Combine(C, g, inputs, 0, CG.Identity);
    if s.Err? then s else CG.Add(C, s.value, g[0])
  }

  /** Over a prime field the combination never fails. */
  lemma {:induction false} CombineNeverFails(C: CG.Curve, g: seq<CG.Point>, inputs: seq<int>, i: nat, acc: CG.Point)
    requires CG.ValidCurve(C) && C.F.Prime? && IsPrime(C.F.p)
    requires |inputs| < |g| && AllOnField(C, g) && CG.OnField(C, acc) && i <= |inputs|
    ensures Combine(C, g, inputs, i, acc).Ok?
    decreases |inputs| - i
  {
    if i < |inputs| {
      assert CG.OnField(C, g[i + 1]);
      CG.MultiplyNeverFails(C, g[i + 1], inputs[i]);
      var m := CG.Multiply(C, g[i + 1], inputs[i]);
      CG.AddNeverFails(C, acc, m.value);
      CombineNeverFails(C, g, inputs, i + 1, CG.Add(C, acc, m.value).value);
    }
  }

  /** Inputs that are all zero leave vk_x where it started. */
  lemma {:induction false} CombineOfZeros(C: CG.Curve, g: seq<CG.Point>, inputs: seq<int>, i: nat, acc: CG.Point)
    requires CG.ValidCurve(C) && |inputs| < |g| && AllOnField(C, g) && CG.OnField(C, acc) && i <= |inputs|
    requires forall j :: i <= j < |inputs| ==> inputs[j] == 0
    ensures Combine(C, g, inputs, i, acc) == Ok(acc)
    decreases |inputs| - i
  {
    if i < |inputs| {
      assert CG.OnField(C, g[i + 1]);
      assert CG.Multiply(C, g[i + 1], inputs[i]) == Ok(CG.Identity);
      CombineOfZeros(C, g, inputs, i + 1, acc);
    }
  }

  /** With all inputs zero, vk_x is gammaABC[0]. */
  lemma VkXOfZeros(C: CG.Curve, g: seq<CG.Point>, inputs: seq<int>)
    requires CG.ValidCurve(C) && |inputs| + 1 == |g| && AllOnField(C, g)
    requires forall j :: 0 <= j < |inputs| ==> inputs[j] == 0
    ensures VkX(C, g, inputs) == Ok(g[0])
  {
    CombineOfZeros(C, g, inputs, 0, CG.Identity);
  }

  // ---------------------------------------------------------------------------
  // The accept test

  /** The pairing returns elements of FQ12 when it returns. */
  ghost predicate PairingSized(pair: (CG.Point, CG.Point) -> Result<seq<int>>)
  {
    forall Q, P :: pair(Q, P).Ok? ==> |pair(Q, P).value| == 12
  }

  predicate KeyOnG1(p: int, vk: Key)
    requires p > 1
  {
    OnG1(p, vk.a) && AllOnField(G1Curve(p), vk.gammaABC)
  }

  /** `Verifier.verify(vk, inputs, proof)`: the length assertion, vk_x, and
      e(B, A)·e(gamma, −vk_x)·e(delta, −C)·e(b, −a) compared with one. The
      pairings are evaluated left to right and the first failure propagates. */
  function Accepts(p: int, pair: (CG.Point, CG.Point) -> Result<seq<int>>, vk: Key, inputs: seq<int>, proof: Proof): Result<bool>
    requires p > 1 && PairingSized(pair) && KeyOnG1(p, vk) && OnG1(p, proof.C)
  {
    if |inputs| + 1 != |vk.gammaABC| then Err(AssertionFailed)
    else
      var C := G1Curve(p);
      var F := Gt(p);
      var x := VkX(C, vk.gammaABC, inputs);
      if x.Err? then Err(x.error)
      else
        var e1 := pair(proof.B, proof.A);
        if e1.Err? then Err(e1.error)
        else
          var e2 := pair(vk.gamma, CG.Neg(C, x.value));
          if e2.Err? then Err(e2.error)
          else
            var e3 := pair(vk.delta, CG.Neg(C, proof.C));
            if e3.Err? then Err(e3.error)
            else
              var e4 := pair(vk.b, CG.Neg(C, vk.a));
              if e4.Err? then Err(e4.error)
              else
                Ok(Fld.Eq(F, Fld.Mul(F, Fld.Mul(F, Fld.Mul(F, e1.value, e2.value), e3.value), e4.value), Fld.One(F)))
  }

  /** Over a prime field and with a pairing that never fails, `verify`
      answers exactly when there is one input fewer than `gammaABC` points,
      and otherwise fails its assertion. */
  lemma AcceptsAnswers(p: int, pair: (CG.Point, CG.Point) -> Result<seq<int>>, vk: Key, inputs: seq<int>, proof: Proof)
    requires p > 1 && IsPrime(p) && PairingSized(pair) && KeyOnG1(p, vk) && OnG1(p, proof.C)
    requires forall Q, P :: pair(Q, P).Ok?
    ensures Accepts(p, pair, vk, inputs, proof).Ok? <==> |inputs| + 1 == |vk.gammaABC|
    ensures Accepts(p, pair, vk, inputs, proof).Err? ==> Accepts(p, pair, vk, inputs, proof).error == AssertionFailed
  {
    if |inputs| + 1 == |vk.gammaABC| {
      var C, g := G1Curve(p), vk.gammaABC;
      CombineNeverFails(C, g, inputs, 0, CG.Identity);
      assert CG.OnField(C, g[0]);
      CG.AddNeverFails(C, Combine(C, g, inputs, 0, CG.Identity).value, g[0]);
    }
  }

  /** `Verifier.verify`, with vk_x started at the identity. */
  method Verify(p: int, pair: (CG.Point, CG.Point) -> Result<seq<int>>, vk: Key, inputs: seq<int>, proof: Proof)
    returns (r: Result<bool>)
    requires p > 1 && PairingSized(pair) && KeyOnG1(p, vk) && OnG1(p, proof.C)
    ensures r == Accepts(p, pair, vk, inputs, proof)
  {
    if |inputs| + 1 != |vk.gammaABC| {
      return Err(AssertionFailed);
    }
    var C := G1Curve(p);
    var g := vk.gammaABC;
    var vkx := CG.Identity;
    var i := 0;
    while i < |inputs|
      invariant 0 <= i <= |inputs| && CG.OnField(C, vkx)
      invariant Combine(C, g, inputs, i, vkx) == Combine(C, g, inputs, 0, CG.Identity)
    {
      assert CG.OnField(C, g[i + 1]);
      var m := CG.Multiply(C, g[i + 1], inputs[i]);
      if m.Err? {
        return Err(m.error);
      }
      var s := CG.Add(C, vkx, m.value);
      if s.Err? {
        return Err(s.error);
      }
      vkx := s.value;
      i := i + 1;
    }
    assert CG.OnField(C, g[0]);
    var x := CG.Add(C, vkx, g[0]);
    if x.Err? {
      return Err(x.error);
    }
    var F := Gt(p);
    var e1 := pair(proof.B, proof.A);
    if e1.Err? {
      return Err(e1.error);
    }
    var e2 := pair(vk.gamma, CG.Neg(C, x.value));
    if e2.Err? {
      return Err(e2.error);
    }
    var f := Fld.Mul(F, e1.value, e2.value);
    var e3 := pair(vk.delta, CG.Neg(C, proof.C));
    if e3.Err? {
      return Err(e3.error);
    }
    f := Fld.Mul(F, f, e3.value);
    var e4 := pair(vk.b, CG.Neg(C, vk.a));
    if e4.Err? {
      return Err(e4.error);
    }
    f := Fld.Mul(F, f, e4.value);
    return Ok(Fld.Eq(F, f, Fld.One(F)));
  }

  // ---------------------------------------------------------------------------
  // As written

  /** `verify` as written: once the length assertion passes,
      `AltBn128CurvePointFQ2.zero()` is called, and no curve class defines
      `zero`, so the call throws. */
  function VerifyAsWritten(vk: Key, inputs: seq<int>): (r: Result<bool>)
    ensures r.Err?
    ensures |inputs| + 1 == |vk.gammaABC| ==> r.error == MissingProperty
  {
    if |inputs| + 1 != |vk.gammaABC| then Err(AssertionFailed) else Err(MissingProperty)
  }

  /** Where the corrected `verify` answers, the one as written throws instead. */
  lemma AsWrittenNeverAnswers(p: int, pair: (CG.Point, CG.Point) -> Result<seq<int>>, vk: Key, inputs: seq<int>, proof: Proof)
    requires p > 1 && IsPrime(p) && PairingSized(pair) && KeyOnG1(p, vk) && OnG1(p, proof.C)
    requires forall Q, P :: pair(Q, P).Ok?
    requires |inputs| + 1 == |vk.gammaABC|
    ensures Accepts(p, pair, vk, inputs, proof).Ok?
    ensures VerifyAsWritten(vk, inputs) == Err(MissingProperty)
  {
    AcceptsAnswers(p, pair, vk, inputs, proof);
  }
}
