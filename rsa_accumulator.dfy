/** The RSA accumulator of rsa-accumulator/rsa-accumulator.js. The state is a
    residue of `FQ`, the field of unknown order modulo the RSA-2048 number;
    adding x raises the state to x, and an inclusion proof for x is the state
    before x was added, so that root^x is the state again. `remove` is kept
    as written: it throws on a proof that verifies and otherwise stores the
    proof object itself as the state, after which `add` and `verify` fail. */
module RsaAccumulator {
  import opened Wrappers
  import opened Arith
  import PF = PrimeField

  /** `FQ.modulus`: the RSA-2048 challenge number. */
  const N: int := 25195908475657893494027183240048398571429282126204032027777137836043662020707595556264018525880784406918290641249515082189298559149176184502808489120072844992687392807287776735971418347270261896375014971824691165077613379859095700097330459748808428401797429100642458691817195118746121515172654632282216869987549182422433637259085141865462043576798423387184774447920739934236584823824281198163815010674810451660377306056201619676256133844143603833904414952634432190114657544454178424020924616515723350778707749817125772467962926386356373289912154831438167899885040445364023527381951378636564391212010397122822120720357

  /** What `_state` holds: a residue of `FQ`, or the proof object that
      `remove` stored. */
  datatype Value = Residue(n: int) | Stored(proof: InclusionProof)

  /** `Accumulator.G`: `new FQ(2n)`. */
  function G(): (r: int)
    ensures 0 <= r < N && r == 2 % N
  {
    PF.Reduce(2, N)
  }

  /** `x.pow(e)` for a residue x: the residue of x^|e| modulo N. */
  function Raise(x: int, e: int): (r: int)
    ensures 0 <= r < N && r == Power(x, Abs(e)) % N
  {
    PF.Pow(x, e, N)
  }

  class InclusionProof {
    /** `_root`: the state of the accumulator before the element was added. */
    var root: int

    constructor(root: int)
      ensures this.root == root
    {
      this.root := root;
    }

    /** `verify(x, A)`: `root.pow(x).eq(A.state)`. `eq` reads `n` of its
        argument; a stored proof has none, and `BigInt` of the object throws. */
    function Verify(x: int, A: Accumulator): (r: Result<bool>)
      reads this, A
      ensures A.state.Residue? ==> r.Ok? && (r.value <==> Power(root, Abs(x)) % N == A.state.n)
      ensures A.state.Stored? ==> r == Err(NotANumber)
    {
      match A.state
      case Stored(_) => Err(NotANumber)
      case Residue(s) => Ok(PF.Eq(Raise(root, x), s))
    }

    /** `update(y)`: the root is raised to y. */
    method Update(y: int)
      modifies this
      ensures root == Raise(old(root), y)
    {
      root := Raise(root, y);
    }
  }

  class Accumulator {
    /** `_state`, which the `state` getter returns. */
    var state: Value

    /** `new Accumulator()`: the state is G. */
    constructor()
      ensures state == Residue(G()) && state.n == 2
    {
      state := Residue(G());
    }

    /** `add(x)`: the state is raised to x, and the proof returned holds the
        state from before. A stored proof has no `pow`, so `add` then fails
        and changes nothing. */
    method Add(x: int) returns (r: Result<InclusionProof>)
      modifies this
      ensures old(state).Residue? ==>
        r.Ok? && fresh(r.value) && r.value.root == old(state).n &&
        state == Residue(Raise(old(state).n, x))
      ensures old(state).Stored? ==> r == Err(MissingProperty) && state == old(state)
      ensures r.Ok? ==> r.value.Verify(x, this) == Ok(true)
    {
      match state
      case Stored(_) =>
        return Err(MissingProperty);
      case Residue(s) =>
        state := Residue(Raise(s, x));
        var proof := new InclusionProof(s);
        return Ok(proof);
    }

    /** `remove(x, proof)`: throws 'Invalid proof' when the proof verifies,
        and otherwise stores the proof object itself as the state. A failing
        `verify` propagates and changes nothing. */
    method Remove(x: int, proof: InclusionProof) returns (r: Result<()>)
      modifies this
      ensures old(proof.Verify(x, this)) == Ok(true) ==> r == Err(InvalidProof) && state == old(state)
      ensures old(proof.Verify(x, this)).Err? ==> r == Err(NotANumber) && state == old(state)
      ensures old(proof.Verify(x, this)) == Ok(false) ==> r == Ok(()) && state == Stored(proof)
    {
      var valid := proof.Verify(x, this);
      if valid.Err? {
        return Err(valid.error);
      }
      if valid.value {
        return Err(InvalidProof);
      }
      state := Stored(proof);
      return Ok(());
    }
  }

  // ---------------------------------------------------------------------------
  // What the accumulator promises

  /** Adding x and then y leaves the state that adding y and then x does:
      raising to x and then to y is raising to y and then to x. */
  lemma AddsCommute(s: int, x: int, y: int)
    ensures Raise(Raise(s, x), y) == Raise(Raise(s, y), x)
  {
    var m, n := Abs(x), Abs(y);
    ModIdempotent(Power(s, m), N);
    ModIdempotent(Power(s, n), N);
    PowerCongruent(Power(s, m) % N, Power(s, m), n, N);
    PowerCongruent(Power(s, n) % N, Power(s, n), m, N);
    PowerOfPower(s, m, n);
    PowerOfPower(s, n, m);
    assert m * n == n * m;
  }

  /** A proof for x that verifies keeps verifying when y is added to the
      accumulator and `update(y)` is applied to the proof: with root^x = s,
      (root^y)^x = s^y. */
  lemma WitnessUpdate(root: int, x: int, s: int, y: int)
    requires Raise(root, x) == s
    ensures Raise(Raise(root, y), x) == Raise(s, y)
  {
    AddsCommute(root, x, y);
  }
}
