/** The verdict of the sequential verifier on any claim, and what follows for
    setups, openings, waves, segments and the host contract
    (crates/vdf/src/posq.rs:157-172, tlk.rs, batch_solve.rs, clock.rs, PoSqHost.sol). */
module Verdicts {
  import opened Wrappers
  import opened ModArith
  import opened Vdf
  import opened Digests
  import opened Timelock
  import opened Clock
  import H = HostVerifier

  /** A claimed output with the element an honest prover would derive for it. */
  function Claim(n: Modulus, h: Oracle, domain: string, x: nat, y: nat, t: nat): SequentialProof {
    SequentialProof(y, ProofElement(n, x, t, h(domain, x, y, t)), t)
  }

  /** Beside its honest element a claimed output is accepted exactly when it is the
      power: a wrong output is answered false for every challenge. */
  lemma HonestElementVerdict(n: Modulus, h: Oracle, domain: string, x: nat, y: nat, t: nat)
    requires y < n
    ensures VerifySequential(n, h, domain, x, Claim(n, h, domain, x, y, t)) == Checked(y == ModPow(x, Pow(2, t), n))
  {
    WesolowskiIdentity(n, x, t, h(domain, x, y, t));
  }

  /** Factors with an inverse cancel. */
  lemma Cancel(a: nat, b: nat, u: nat, v: nat, n: Modulus)
    requires u * v % n == 1 && a * u % n == b * u % n
    ensures a % n == b % n
  {
    Reassociate(a, u, v, n);
    Reassociate(b, u, v, n);
    ModMulLeft(a * u, v, n);
    ModMulLeft(b * u, v, n);
  }

  lemma Reassociate(a: nat, u: nat, v: nat, n: Modulus)
    requires u * v % n == 1
    ensures a * u * v % n == a % n
  {
    assert a * u * v == (u * v) * a;
    ModMulLeft(u * v, a, n);
  }

  /** Powers of an invertible base are invertible. */
  lemma {:induction false} PowerInverse(x: nat, z: nat, e: nat, n: Modulus)
    requires x * z % n == 1
    ensures ModPow(x, e, n) * ModPow(z, e, n) % n == 1
  {
    ModMul(Pow(x, e), Pow(z, e), n);
    PowOfProduct(x, z, e);
    PowModBase(x * z, e, n);
    PowOfOne(e);
    ModSmall(1, n);
  }

  /** The verdict on any output and any element, over an invertible base: the element
      is measured against the honest one for the claimed output's challenge. For the
      true output it must have the honest element's l-th power. */
  lemma AnyElementVerdict(n: Modulus, h: Oracle, domain: string, x: nat, z: nat, proof: SequentialProof)
    requires x * z % n == 1 && proof.y < n && proof.pi < n
    ensures var l := h(domain, x, proof.y, proof.iterations);
            var honest := ProofElement(n, x, proof.iterations, l);
            VerifySequential(n, h, domain, x, proof)
            == Checked(ModPow(proof.pi, l, n) * ModPow(x, Pow(2, proof.iterations), n) % n
                       == proof.y * ModPow(honest, l, n) % n)
  {
    var t := proof.iterations;
    var l := h(domain, x, proof.y, t);
    var q := Pow(2, t) / l;
    var a, r, e := ModPow(proof.pi, l, n), ModPow(x, ModPow(2, t, l), n), ModPow(ProofElement(n, x, t, l), l, n);
    WesolowskiIdentity(n, x, t, l);
    ModPowPow(x, q, l, n);
    PowerInverse(x, z, q * l, n);
    hide ModPow;
    AgainstHonest(a, r, e, ModPow(z, q * l, n), ModPow(x, Pow(2, t), n), proof.y, n);
  }

  lemma AgainstHonest(a: nat, r: nat, e: nat, e': nat, p: nat, y: nat, n: Modulus)
    requires e * r % n == p && e * e' % n == 1 && y < n
    ensures a * r % n == y <==> a * p % n == y * e % n
  {
    ModMulRight(a, e * r, n);
    assert a * (e * r) == (a * r) * e;
    ModSmall(y, n);
    if a * r % n == y {
      ModMulLeft(a * r, e, n);
    }
    if a * p % n == y * e % n {
      Cancel(a * r, y, e, e', n);
    }
  }

  // ----- the timelock

  /** On reduced bases the power is the sequential output, zero squarings included. */
  lemma SequentialIsPower(n: Modulus, x: nat, t: nat)
    requires x < n
    ensures Sequential(n, x, t) == ModPow(x, Pow(2, t), n)
  {
    if t == 0 {
      PowOne(x);
      ModSmall(x, n);
    }
  }

  /** A witness claimed for a solvable ciphertext is accepted, beside its honest
      element, exactly when it is the solution. */
  lemma OpeningVerdict(params: TlkParams, h: Oracle, ct: Ciphertext, w: nat)
    requires ct.delayClass < |params.classes| && ct.u < params.n && w < params.n
    ensures var t := params.classes[ct.delayClass].squarings;
            VerifyOpening(params, h, ct, Opening(w, Claim(params.n, h, SOLVE_DOMAIN, ct.u, w, t)))
            == Some(Checked(w == Sequential(params.n, ct.u, t)))
  {
    var t := params.classes[ct.delayClass].squarings;
    HonestElementVerdict(params.n, h, SOLVE_DOMAIN, ct.u, w, t);
    SequentialIsPower(params.n, ct.u, t);
  }

  /** An opening for another output or another count is refused, whatever its element. */
  lemma MislabelledOpeningRefused(params: TlkParams, h: Oracle, ct: Ciphertext, opening: Opening)
    requires VerifyOpening(params, h, ct, opening) == Some(Checked(true))
    ensures ct.delayClass < |params.classes| && opening.w == opening.proof.y < params.n
    ensures opening.proof.iterations == params.classes[ct.delayClass].squarings
  {}

  /** Each class's proof is the honest element for the value and count it publishes. */
  ghost predicate ClassClaims(params: TlkParams, h: Oracle) {
    forall k | 0 <= k < |params.classes| ::
      var c := params.classes[k];
      c.h < params.n && c.proof == Claim(params.n, h, SETUP_DOMAIN, params.g, c.h, c.squarings)
  }

  /** Such a setup is accepted exactly when it is for the expected generator and every
      class publishes the generator's sequential power. */
  lemma SetupVerdict(params: TlkParams, h: Oracle, generator: nat)
    requires params.g < params.n && ClassClaims(params, h)
    ensures VerifySetup(params, h, generator)
         == Checked(params.g == generator
                    && forall k | 0 <= k < |params.classes| ::
                         params.classes[k].h == Sequential(params.n, params.g, params.classes[k].squarings))
  {
    ClassesVerdict(params.n, h, params.g, params.classes);
  }

  lemma {:induction false} ClassesVerdict(n: Modulus, h: Oracle, g: nat, classes: seq<DelayClass>)
    requires g < n
    requires forall k | 0 <= k < |classes| ::
               classes[k].h < n
               && classes[k].proof == Claim(n, h, SETUP_DOMAIN, g, classes[k].h, classes[k].squarings)
    ensures VerifyClasses(n, h, g, classes)
         == Checked(forall k | 0 <= k < |classes| :: classes[k].h == Sequential(n, g, classes[k].squarings))
  {
    hide VerifySequential;
    hide Sequential;
    if classes != [] {
      HonestElementVerdict(n, h, SETUP_DOMAIN, g, classes[0].h, classes[0].squarings);
      SequentialIsPower(n, g, classes[0].squarings);
      ClassesVerdict(n, h, g, classes[1..]);
      hide ModPow;
    }
  }

  /** No setup passes under another generator or with a class whose proof is for
      another value or count. */
  lemma {:induction false} AcceptedClasses(n: Modulus, h: Oracle, g: nat, classes: seq<DelayClass>)
    requires VerifyClasses(n, h, g, classes) == Checked(true)
    ensures forall k | 0 <= k < |classes| ::
              && classes[k].proof.y == classes[k].h && classes[k].proof.iterations == classes[k].squarings
              && VerifySequential(n, h, SETUP_DOMAIN, g, classes[k].proof) == Checked(true)
  {
    hide VerifySequential;
    if classes != [] {
      AcceptedClasses(n, h, g, classes[1..]);
    }
  }

  /** The wave's shape fits its ciphertexts. */
  ghost predicate WaveFits(params: TlkParams, cts: seq<Ciphertext>, sol: WaveSolution) {
    && sol.delayClass < |params.classes| && |sol.witnesses| == |cts|
    && sol.squarings == sol.proof.iterations == params.classes[sol.delayClass].squarings
    && forall i | 0 <= i < |cts| :: cts[i].delayClass == sol.delayClass && sol.witnesses[i] < params.n
  }

  /** A wave whose proof is the honest element for its claimed aggregate is accepted
      exactly when it fits, claims the weighted product of its witnesses, and that is
      the sequential power of the weighted product of the bases. */
  lemma WaveVerdict(params: TlkParams, h: Oracle, rho: Weights, binding: Bytes, cts: seq<Ciphertext>, sol: WaveSolution)
    requires sol.delayClass < |params.classes| && |cts| <= |sol.witnesses| && sol.proof.y < params.n
    requires sol.proof == Claim(params.n, h, SOLVE_DOMAIN,
                                AggregateU(params.n, rho, binding, Bases(cts), sol.witnesses, |cts|), sol.proof.y,
                                params.classes[sol.delayClass].squarings)
    ensures var t := params.classes[sol.delayClass].squarings;
            var u := AggregateU(params.n, rho, binding, Bases(cts), sol.witnesses, |cts|);
            var w := AggregateW(params.n, rho, binding, Bases(cts), sol.witnesses, |cts|);
            VerifyWave(params, h, rho, binding, cts, sol)
            == Some(Checked(WaveFits(params, cts, sol) && sol.proof.y == w && w == ModPow(u, Pow(2, t), params.n)))
  {
    var t := params.classes[sol.delayClass].squarings;
    var u := AggregateU(params.n, rho, binding, Bases(cts), sol.witnesses, |cts|);
    HonestElementVerdict(params.n, h, SOLVE_DOMAIN, u, sol.proof.y, t);
    hide AggregateU;
    hide AggregateW;
    hide VerifySequential;
    hide ModPow;
  }

  // ----- segments

  /** Against the published end of the segment before, and with the published entropy,
      a seal beside its honest element passes the watcher exactly when it starts in the
      seed, runs the profile's squarings and ends where the clock did. */
  lemma SegmentVerdict(cfg: Config, seeds: seq<SeedInput>, s: nat, seal: SegmentSeal)
    requires s <= |seeds| && seal.entropy == Entropy(cfg, seeds, s)
    requires seal.proof.y < cfg.n
    requires seal.proof == Claim(cfg.n, cfg.oracle, PROOF_DOMAIN, seal.y, seal.proof.y, seal.proof.iterations)
    ensures VerifySegment(cfg, s, PrevXHash(cfg, seeds, s), PrevC(cfg, seeds, s), seal)
       <==> && seal.y == Start(cfg, seeds, s) && seal.proof.iterations == cfg.q * cfg.segmentTicks
            && seal.proof.y == seal.xEnd && seal.xEnd == XEnd(cfg, seeds, s)
  {
    HonestElementVerdict(cfg.n, cfg.oracle, PROOF_DOMAIN, seal.y, seal.proof.y, seal.proof.iterations);
    SequentialIsPower(cfg.n, Start(cfg, seeds, s), cfg.q * cfg.segmentTicks);
    hide VerifySequential;
    hide Sequential;
    hide ModPow;
    hide SegmentSeed;
  }

  // ----- the host contract

  /** On admissible calls the contract's equation is the Rust verifier's verdict on the
      same claim under the same challenge, the element reduced: the two accept the same
      segments, honest or not. */
  lemma HostVerdictIsRustVerdict(n: Modulus, h: Oracle, domain: string, y: nat, xEnd: nat, pi: nat, t: nat,
                                 l: Challenge)
    requires h(domain, y, xEnd, t) == l
    ensures H.CheckValue(n, pi, y, t, l) == xEnd
       <==> VerifySequential(n, h, domain, y, SequentialProof(xEnd, pi % n, t)) == Checked(true)
  {
    PowModBase(pi, l, n);
    ModSmall(pi % n, n);
  }

  /** So a segment with a wrong end is refused on the host as well, beside the honest
      element for it. */
  lemma WrongSegmentRefusedOnHost(n: Modulus, x: nat, xEnd: nat, t: nat, l: Challenge)
    requires x < n
    ensures H.CheckValue(n, ProofElement(n, x, t, l), x, t, l) == xEnd <==> xEnd == Sequential(n, x, t)
  {
    WesolowskiIdentity(n, x, t, l);
    SequentialIsPower(n, x, t);
  }
}
