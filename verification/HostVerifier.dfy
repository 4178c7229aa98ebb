/** Segment-proof verification on the host chain (`verifySegmentProof` in
    demo/contracts/src/PoSqHost.sol): the contract accepts what the Rust prover
    emits. */
module HostVerifier {
  import opened ModArith
  import opened Vdf
  import opened Words
  import BigMul
  import MillerRabin

  /** The double hash of (y, x_end, t): the start of the prime search on both
      sides, left uninterpreted. */
  type Preimage = (seq<Byte>, seq<Byte>, nat) -> nat

  datatype HostOutcome = Reverted | Returned(accepted: bool)

  const MAX_INCREMENT: nat := 65536

  datatype HostConfig = HostConfig(modulus: seq<Byte>, squaringsPerTick: nat, segmentTicks: nat)

  /** The checks before any arithmetic. */
  ghost predicate Admissible(cfg: HostConfig, hash: Preimage, y: seq<Byte>, xEnd: seq<Byte>, pi: seq<Byte>, t: nat,
                             l: nat) {
    && |y| == 256 && |xEnd| == 256 && |pi| == 256
    && t == cfg.squaringsPerTick * cfg.segmentTicks
    && l >= hash(y, xEnd, t) && l - hash(y, xEnd, t) <= MAX_INCREMENT
    && MillerRabin.HostAccepts(l)
  }

  /** `modexp256` and `modexpU256` call the EIP-198 precompile. */
  method ModExp256(base: seq<Byte>, e: nat, modulus: seq<Byte>) returns (out: seq<Byte>)
    requires |modulus| == 256
    ensures |out| == 256 && Value(out) == BigMul.ModExp(Value(base), e, Value(modulus))
  {
    out := ToBytes(BigMul.ModExp(Value(base), e, Value(modulus)), 256);
    PowPositive(256, 256);
    ValueBound(modulus);
    ValueOfToBytes(BigMul.ModExp(Value(base), e, Value(modulus)), 256);
  }

  /** pi^l * y^(2^t mod l) mod N. */
  function CheckValue(n: Modulus, pi: nat, y: nat, t: nat, l: Challenge): nat {
    ModPow(pi, l, n) * ModPow(y, ModPow(2, t, l), n) % n
  }

  /** The deployed contract: a modulus of 256 bytes and value above 1. */
  method VerifySegmentProof(cfg: HostConfig, hash: Preimage, y: seq<Byte>, xEnd: seq<Byte>, pi: seq<Byte>, t: nat,
                            l: nat)
    returns (outcome: HostOutcome)
    requires |cfg.modulus| == 256 && Value(cfg.modulus) > 1
    ensures outcome.Reverted? <==> !Admissible(cfg, hash, y, xEnd, pi, t, l)
    ensures outcome.Returned? ==> l >= 2
    ensures outcome.Returned? ==>
      (outcome.accepted <==> CheckValue(Value(cfg.modulus), Value(pi), Value(y), t, l) == Value(xEnd))
  {
    if |y| != 256 || |xEnd| != 256 || |pi| != 256 || t != cfg.squaringsPerTick * cfg.segmentTicks {
      return Reverted;
    }
    var c := hash(y, xEnd, t);
    if l < c || l - c > MAX_INCREMENT {
      return Reverted;
    }
    var prime := MillerRabin.HostIsProbablePrime(l);
    if !prime {
      return Reverted;
    }
    var r := BigMul.ModExp(2, t, l);
    var a := ModExp256(pi, l, cfg.modulus);
    var b := ModExp256(y, r, cfg.modulus);
    var _, lhs := BigMul.MulMod2048(a, b, cfg.modulus);
    SameBytes(lhs, xEnd);
    outcome := Returned(lhs == xEnd);
  }

  /** Equal-length byte strings are equal when their values are. */
  lemma SameBytes(s: seq<Byte>, t: seq<Byte>)
    requires |s| == |t|
    ensures s == t <==> Value(s) == Value(t)
  {
    ToBytesOfValue(s);
    ToBytesOfValue(t);
  }

  /** The prover's challenge for a segment: the first candidate its own test
      accepts from the hash up. */
  ghost predicate ProverChallenge(hash: Preimage, derived: nat -> seq<nat>, y: seq<Byte>, xEnd: seq<Byte>, t: nat,
                                  l: nat) {
    && l >= hash(y, xEnd, t) && MillerRabin.RustAccepts(l, derived(l))
    && MillerRabin.NoneAccepted(hash(y, xEnd, t), l, derived)
  }

  /** A segment proved honestly in Rust, encoded as 256-byte words, passes on the
      host exactly when it is of the profile's squarings and the prime search advanced
      by at most 65536 and did not stop at 2 or 3; otherwise the call reverts. It never
      returns false. */
  lemma HonestSegmentOnHost(cfg: HostConfig, hash: Preimage, derived: nat -> seq<nat>, n: Modulus,
                            x: nat, y: seq<Byte>, xEnd: seq<Byte>, pi: seq<Byte>, t: nat, l: Challenge)
    requires |cfg.modulus| == 256 && n == Value(cfg.modulus) && x < n
    requires |y| == 256 && |xEnd| == 256 && |pi| == 256
    requires Value(y) == x && Value(xEnd) == Sequential(n, x, t)
    requires Value(pi) == ModPow(x, Pow(2, t) / l, n)
    requires ProverChallenge(hash, derived, y, xEnd, t, l)
    ensures Admissible(cfg, hash, y, xEnd, pi, t, l)
       <==> t == cfg.squaringsPerTick * cfg.segmentTicks && l - hash(y, xEnd, t) <= 65536 && l > 3
    ensures CheckValue(n, Value(pi), Value(y), t, l) == Value(xEnd)
  {
    MillerRabin.HostAcceptsRustPrimes(l, derived(l));
    WesolowskiIdentity(n, x, t, l);
    if t == 0 {
      PowOne(x);
      ModSmall(x, n);
    }
  }

  /** The contract takes no other challenge than the prover could have searched: one of
      the 65537 numbers from the hash on, odd, that no listed base proves composite. */
  lemma AdmissibleIsSearched(cfg: HostConfig, hash: Preimage, y: seq<Byte>, xEnd: seq<Byte>, pi: seq<Byte>, t: nat,
                             l: nat, d: nat, s: nat)
    requires l > 37 && l - 1 == d * Pow(2, s) && d % 2 == 1
    ensures Admissible(cfg, hash, y, xEnd, pi, t, l)
       <==> && |y| == |xEnd| == |pi| == 256 && t == cfg.squaringsPerTick * cfg.segmentTicks
            && hash(y, xEnd, t) <= l <= hash(y, xEnd, t) + 65536
            && l % 2 == 1 && !ListedBaseProves(l, d, s)
  {
    hide MillerRabin.PassesSmall;
    hide MillerRabin.ProvesComposite;
    MillerRabin.HostAcceptedIff(l, d, s);
    hide MillerRabin.HostAccepts;
    ListedBases(l, d, s);
  }

  lemma ListedBases(n: nat, d: nat, s: nat)
    requires n > 1
    ensures ListedBaseProves(n, d, s)
       <==> !forall k | 0 <= k < |MillerRabin.SMALL_PRIMES| ::
               !MillerRabin.ProvesComposite(n, MillerRabin.SMALL_PRIMES[k], d, s)
  {
    hide MillerRabin.ProvesComposite;
    var ps := MillerRabin.SMALL_PRIMES;
    if k: nat :| k < |ps| && MillerRabin.ProvesComposite(n, ps[k], d, s) {
      assert ps[k] in ps;
    }
  }

  ghost predicate ListedBaseProves(n: nat, d: nat, s: nat)
    requires n > 1
  {
    exists a :: a in MillerRabin.SMALL_PRIMES && MillerRabin.ProvesComposite(n, a, d, s)
  }
}
