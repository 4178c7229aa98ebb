/** The timelock KEM (crates/vdf/src/tlk.rs) and the batched solving of
    maturity waves (crates/vdf/src/batch_solve.rs). The AEAD is ideal: a sealed
    body opens under exactly its own key, nonce and associated data. */
module Timelock {
  import opened Wrappers
  import opened ModArith
  import opened Vdf
  import opened Digests

  const SOLVE_DOMAIN: string := "posq-tlk-solve-v1"
  const SETUP_DOMAIN: string := "posq-tlk-setup-v1"

  datatype DelayClass = DelayClass(squarings: nat, h: nat, proof: SequentialProof)

  datatype TlkParams = TlkParams(n: Modulus, g: nat, classes: seq<DelayClass>)

  /** The session key is a hash of the witness and the nonce a hash of u, so an
      ideal body is labelled with the witness and u themselves. */
  datatype Body = Sealed(keyWitness: nat, nonceU: nat, aad: Bytes, plaintext: Bytes) | Mauled(bytes: Bytes)

  datatype Ciphertext = Ciphertext(delayClass: nat, u: nat, body: Body)

  // ----- setup

  function Setup(n: Modulus, h: Oracle, generator: nat, delays: seq<nat>): TlkParams {
    TlkParams(n, generator, seq(|delays|, i requires 0 <= i < |delays| =>
      var proof := HonestProof(n, h, SETUP_DOMAIN, generator, delays[i]);
      DelayClass(delays[i], proof.y, proof)))
  }

  function VerifySetup(params: TlkParams, h: Oracle, expectedGenerator: nat): Verdict {
    if params.g != expectedGenerator then Checked(false)
    else VerifyClasses(params.n, h, params.g, params.classes)
  }

  function VerifyClasses(n: Modulus, h: Oracle, g: nat, classes: seq<DelayClass>): Verdict {
    if classes == [] then Checked(true)
    else
      var c := classes[0];
      if c.proof.y != c.h || c.proof.iterations != c.squarings then Checked(false)
      else
        var verdict := VerifySequential(n, h, SETUP_DOMAIN, g, c.proof);
        if verdict != Checked(true) then verdict
        else VerifyClasses(n, h, g, classes[1..])
  }

  /** A published setup is accepted whatever its delay menu. */
  lemma SetupVerifies(n: Modulus, h: Oracle, generator: nat, delays: seq<nat>)
    requires generator < n
    ensures VerifySetup(Setup(n, h, generator, delays), h, generator) == Checked(true)
  {
    ClassesVerify(n, h, generator, Setup(n, h, generator, delays).classes);
  }

  lemma {:induction false} ClassesVerify(n: Modulus, h: Oracle, g: nat, classes: seq<DelayClass>)
    requires g < n
    requires forall c | c in classes ::
      c.proof == HonestProof(n, h, SETUP_DOMAIN, g, c.squarings) && c.h == c.proof.y
    ensures VerifyClasses(n, h, g, classes) == Checked(true)
  {
    if classes != [] {
      assert classes[0] in classes;
      HonestProofAccepted(n, h, SETUP_DOMAIN, g, classes[0].squarings);
      ClassesVerify(n, h, g, classes[1..]);
    }
  }

  // ----- encryption, solving and opening

  function Encrypt(params: TlkParams, delayClass: nat, plaintext: Bytes, aad: Bytes, r: nat): Option<Ciphertext> {
    if delayClass >= |params.classes| then None
    else
      var u := ModPow(params.g, r, params.n);
      var w := ModPow(params.classes[delayClass].h, r, params.n);
      Some(Ciphertext(delayClass, u, Sealed(w, u, aad, plaintext)))
  }

  function Open(ct: Ciphertext, w: nat, aad: Bytes): Option<Bytes> {
    if ct.body.Sealed? && ct.body.keyWitness == w && ct.body.nonceU == ct.u && ct.body.aad == aad
    then Some(ct.body.plaintext)
    else None
  }

  /** The sequential solve and the encryptor's shortcut meet: u^(2^T) = h^r. */
  lemma KemAgreement(n: Modulus, g: nat, r: nat, t: nat)
    ensures Sequential(n, ModPow(g, r, n), t) == ModPow(Sequential(n, g, t), r, n)
  {
    if t > 0 {
      var e := Pow(2, t);
      ModPowPow(g, r, e, n);
      ModPowPow(g, e, r, n);
      assert r * e == e * r;
    }
  }

  datatype Opening = Opening(w: nat, proof: SequentialProof)

  /** Solvers refuse an element outside [1, N). */
  method Solve(params: TlkParams, h: Oracle, ct: Ciphertext) returns (opening: Option<Opening>)
    ensures opening.Some? <==> ct.delayClass < |params.classes| && 0 < ct.u < params.n
    ensures opening.Some? ==>
              && opening.value.w == Sequential(params.n, ct.u, params.classes[ct.delayClass].squarings)
              && VerifyOpening(params, h, ct, opening.value) == Some(Checked(true))
  {
    if ct.delayClass >= |params.classes| {
      return None;
    }
    var t := params.classes[ct.delayClass].squarings;
    if ct.u >= params.n || ct.u == 0 {
      return None;
    }
    var proof := ProveSequential(params.n, h, SOLVE_DOMAIN, ct.u, t);
    HonestProofAccepted(params.n, h, SOLVE_DOMAIN, ct.u, t);
    opening := Some(Opening(proof.y, proof));
  }

  function VerifyOpening(params: TlkParams, h: Oracle, ct: Ciphertext, opening: Opening): Option<Verdict> {
    if ct.delayClass >= |params.classes| then None
    else if opening.proof.iterations != params.classes[ct.delayClass].squarings || opening.proof.y != opening.w
    then Some(Checked(false))
    else Some(VerifySequential(params.n, h, SOLVE_DOMAIN, ct.u, opening.proof))
  }

  /** An honest ciphertext opens to its plaintext under the solved witness with its
      own associated data, and to nothing under any other witness or with any other
      data. */
  lemma HonestCiphertextOpens(n: Modulus, h: Oracle, generator: nat, delays: seq<nat>, delayClass: nat,
                              plaintext: Bytes, aad: Bytes, r: nat, w: nat, aad': Bytes)
    requires delayClass < |delays|
    ensures var ct := Encrypt(Setup(n, h, generator, delays), delayClass, plaintext, aad, r);
            && ct.Some?
            && Open(ct.value, w, aad')
               == if w == Sequential(n, ct.value.u, delays[delayClass]) && aad' == aad then Some(plaintext) else None
  {
    KemAgreement(n, generator, r, delays[delayClass]);
  }

  // ----- waves

  /** The 128-bit Fiat-Shamir weight of a position, left uninterpreted. */
  type Weights = (Bytes, nat, nat, nat) -> nat

  datatype WaveSolution = WaveSolution(delayClass: nat, squarings: nat, witnesses: seq<nat>, proof: SequentialProof)

  /** Weighted product of the first k bases. */
  function AggregateU(n: Modulus, rho: Weights, binding: Bytes, us: seq<nat>, ws: seq<nat>, k: nat): nat
    requires k <= |us| && k <= |ws|
  {
    if k == 0 then 1
    else AggregateU(n, rho, binding, us, ws, k - 1) * ModPow(us[k - 1], rho(binding, k - 1, us[k - 1], ws[k - 1]),
                                                             n) % n
  }

  function AggregateW(n: Modulus, rho: Weights, binding: Bytes, us: seq<nat>, ws: seq<nat>, k: nat): nat
    requires k <= |us| && k <= |ws|
  {
    if k == 0 then 1
    else AggregateW(n, rho, binding, us, ws, k - 1) * ModPow(ws[k - 1], rho(binding, k - 1, us[k - 1], ws[k - 1]),
                                                             n) % n
  }

  method Aggregate(n: Modulus, rho: Weights, binding: Bytes, us: seq<nat>, ws: seq<nat>) returns (capU: nat, capW: nat)
    requires |us| == |ws|
    ensures capU == AggregateU(n, rho, binding, us, ws, |us|)
    ensures capW == AggregateW(n, rho, binding, us, ws, |us|)
  {
    capU, capW := 1, 1;
    for i := 0 to |us|
      invariant capU == AggregateU(n, rho, binding, us, ws, i)
      invariant capW == AggregateW(n, rho, binding, us, ws, i)
    {
      var e := rho(binding, i, us[i], ws[i]);
      capU := capU * ModPow(us[i], e, n) % n;
      capW := capW * ModPow(ws[i], e, n) % n;
    }
  }

  lemma {:induction false} PowOfOne(e: nat)
    ensures Pow(1, e) == 1
  {
    if e > 0 {
      PowOfOne(e - 1);
    }
  }

  /** Raising to 2^t distributes over one weighted factor. */
  lemma WeightedFactor(n: Modulus, capU: nat, u: nat, e: nat, t: nat)
    requires t > 0
    ensures Sequential(n, capU, t) * ModPow(Sequential(n, u, t), e, n) % n
         == Sequential(n, capU * ModPow(u, e, n) % n, t)
  {
    var p := Pow(2, t);
    ModPowPow(u, p, e, n);
    ModPowPow(u, e, p, n);
    assert p * e == e * p;
    PowersOfProduct(n, capU, ModPow(u, e, n), p);
  }

  lemma PowersOfProduct(n: Modulus, a: nat, b: nat, p: nat)
    ensures ModPow(a, p, n) * ModPow(b, p, n) % n == ModPow(a * b % n, p, n)
  {
    ModMul(Pow(a, p), Pow(b, p), n);
    PowOfProduct(a, b, p);
    PowModBase(a * b, p, n);
  }

  /** Conservation of the sequential relation under aggregation: W = U^(2^t) for
      any number of positions and any weights. */
  lemma {:induction false} AggregateRelation(n: Modulus, rho: Weights, binding: Bytes, us: seq<nat>, ws: seq<nat>,
                                             t: nat, k: nat)
    requires |us| == |ws| && k <= |us|
    requires forall i | 0 <= i < |us| :: ws[i] == Sequential(n, us[i], t)
    ensures AggregateW(n, rho, binding, us, ws, k) == Sequential(n, AggregateU(n, rho, binding, us, ws, k), t)
    ensures AggregateU(n, rho, binding, us, ws, k) < n
  {
    if k == 0 {
      PowOfOne(Pow(2, t));
      ModSmall(1, n);
    } else {
      AggregateRelation(n, rho, binding, us, ws, t, k - 1);
      if t > 0 {
        WeightedFactor(n, AggregateU(n, rho, binding, us, ws, k - 1), us[k - 1],
                       rho(binding, k - 1, us[k - 1], ws[k - 1]), t);
      }
    }
  }

  function Bases(cts: seq<Ciphertext>): (us: seq<nat>)
    ensures |us| == |cts| && forall i | 0 <= i < |cts| :: us[i] == cts[i].u
  {
    seq(|cts|, i requires 0 <= i < |cts| => cts[i].u)
  }

  /** What a wave of ciphertexts must satisfy to be solved. */
  predicate SolvableWave(params: TlkParams, delayClass: nat, cts: seq<Ciphertext>) {
    && delayClass < |params.classes|
    && forall i | 0 <= i < |cts| :: cts[i].delayClass == delayClass && 0 < cts[i].u < params.n
  }

  /** `solve_wave`: it succeeds exactly on solvable waves, every witness is its
      own sequential power, and `verify_wave` accepts the result. */
  method SolveWave(params: TlkParams, h: Oracle, rho: Weights, delayClass: nat, binding: Bytes, cts: seq<Ciphertext>)
    returns (solution: Option<WaveSolution>)
    ensures solution.Some? <==> SolvableWave(params, delayClass, cts)
    ensures solution.Some? ==>
              && |solution.value.witnesses| == |cts|
              && (forall i | 0 <= i < |cts| ::
                    solution.value.witnesses[i] == Sequential(params.n, cts[i].u, params.classes[delayClass].squarings))
              && VerifyWave(params, h, rho, binding, cts, solution.value) == Some(Checked(true))
  {
    if delayClass >= |params.classes| {
      return None;
    }
    var t := params.classes[delayClass].squarings;
    for i := 0 to |cts|
      invariant forall j | 0 <= j < i :: cts[j].delayClass == delayClass && 0 < cts[j].u < params.n
    {
      if cts[i].delayClass != delayClass || cts[i].u >= params.n || cts[i].u == 0 {
        return None;
      }
    }
    var witnesses: seq<nat> := [];
    for i := 0 to |cts|
      invariant |witnesses| == i
      invariant forall j | 0 <= j < i :: witnesses[j] == Sequential(params.n, cts[j].u, t)
    {
      var w := TickAdvance(params.n, cts[i].u, t);
      witnesses := witnesses + [w];
    }
    var us := Bases(cts);
    var capU, capW := Aggregate(params.n, rho, binding, us, witnesses);
    var pi := ProveWithOutput(params.n, h, SOLVE_DOMAIN, capU, capW, t);
    var wave := WaveSolution(delayClass, t, witnesses, SequentialProof(capW, pi, t));
    AggregateRelation(params.n, rho, binding, us, witnesses, t, |us|);
    assert wave.proof == HonestProof(params.n, h, SOLVE_DOMAIN, capU, t);
    HonestProofAccepted(params.n, h, SOLVE_DOMAIN, capU, t);
    SolvedWitnessesReduced(params, delayClass, cts, witnesses);
    solution := Some(wave);
  }

  lemma SolvedWitnessesReduced(params: TlkParams, delayClass: nat, cts: seq<Ciphertext>, witnesses: seq<nat>)
    requires SolvableWave(params, delayClass, cts) && |witnesses| == |cts|
    requires forall j | 0 <= j < |cts| ::
      witnesses[j] == Sequential(params.n, cts[j].u, params.classes[delayClass].squarings)
    ensures forall i | 0 <= i < |cts| :: cts[i].delayClass == delayClass && witnesses[i] < params.n
  {}

  function VerifyWave(params: TlkParams, h: Oracle, rho: Weights, binding: Bytes, cts: seq<Ciphertext>,
                      sol: WaveSolution): Option<Verdict> {
    if sol.delayClass >= |params.classes| then None
    else
      var t := params.classes[sol.delayClass].squarings;
      if sol.squarings != t || |sol.witnesses| != |cts| || sol.proof.iterations != t then Some(Checked(false))
      else if exists i | 0 <= i < |cts| :: cts[i].delayClass != sol.delayClass || sol.witnesses[i] >= params.n
      then Some(Checked(false))
      else
        var us := Bases(cts);
        var capU := AggregateU(params.n, rho, binding, us, sol.witnesses, |us|);
        var capW := AggregateW(params.n, rho, binding, us, sol.witnesses, |us|);
        if capW != sol.proof.y then Some(Checked(false))
        else Some(VerifySequential(params.n, h, SOLVE_DOMAIN, capU, sol.proof))
  }
}
