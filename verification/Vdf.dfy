/** Repeated squaring with Wesolowski proofs: the streaming prover and the
    verifier of crates/vdf/src/posq.rs, and the simple prover of
    crates/vdf/src/wesolowski.rs that the streaming one refines. */
module Vdf {
  import opened ModArith

  type Modulus = n: nat | n > 1 witness 2

  /** A Fiat-Shamir challenge is a prime; completeness needs only that it is at
      least 2. */
  type Challenge = l: nat | l >= 2 witness 2

  /** HashToPrime over (domain, x, y, t), left uninterpreted. */
  type Oracle = (string, nat, nat, nat) -> Challenge

  datatype SequentialProof = SequentialProof(y: nat, pi: nat, iterations: nat)

  datatype Verdict = Checked(accepted: bool) | InvalidInput

  const U32_SIZE: nat := 0x1_0000_0000

  /** x^(2^t) mod n. No squaring leaves x as it is, even when x >= n. */
  function Sequential(n: Modulus, x: nat, t: nat): nat {
    if t == 0 then x else ModPow(x, Pow(2, t), n)
  }

  lemma SequentialSquares(n: Modulus, x: nat, t: nat)
    ensures Sequential(n, x, t) * Sequential(n, x, t) % n == Sequential(n, x, t + 1)
  {
    PowDouble(x, Pow(2, t));
    if t > 0 {
      ModMul(Pow(x, Pow(2, t)), Pow(x, Pow(2, t)), n);
    } else {
      PowOne(x);
    }
  }

  lemma PowOne(x: nat)
    ensures Pow(x, 1) == x
  {
    assert Pow(x, 1) == x * Pow(x, 0);
  }

  method TickAdvance(n: Modulus, x: nat, q: nat) returns (y: nat)
    ensures y == Sequential(n, x, q)
  {
    y := x;
    for i := 0 to q
      invariant y == Sequential(n, x, i)
    {
      SequentialSquares(n, x, i);
      y := y * y % n;
    }
  }

  /** Advancing a ticks and then b ticks is advancing a + b ticks. */
  lemma {:induction false} AdvancesCompose(n: Modulus, x: nat, a: nat, b: nat)
    ensures Sequential(n, Sequential(n, x, a), b) == Sequential(n, x, a + b)
  {
    if b > 0 {
      AdvancesCompose(n, x, a, b - 1);
      SequentialSquares(n, Sequential(n, x, a), b - 1);
      SequentialSquares(n, x, a + b - 1);
    }
  }

  // ----- the streaming quotient

  /** One step of the long division of a power of two. */
  lemma QuotientStep(i: nat, l: Challenge)
    ensures var q, r := Pow(2, i) / l, Pow(2, i) % l;
            Pow(2, i + 1) / l == (if 2 * r >= l then 2 * q + 1 else 2 * q) &&
            Pow(2, i + 1) % l == (if 2 * r >= l then 2 * r - l else 2 * r)
  {
    var q, r := Pow(2, i) / l, Pow(2, i) % l;
    assert Pow(2, i) == q * l + r;
    assert 2 * (q * l) == (2 * q) * l && (2 * q + 1) * l == (2 * q) * l + l;
    if 2 * r >= l {
      DivModUnique(Pow(2, i + 1), l, 2 * q + 1, 2 * r - l);
    } else {
      DivModUnique(Pow(2, i + 1), l, 2 * q, 2 * r);
    }
  }

  /** The proof element: x to the quotient of 2^t by the challenge. */
  function ProofElement(n: Modulus, x: nat, t: nat, l: Challenge): nat {
    ModPow(x, Pow(2, t) / l, n)
  }

  method QuotientPower(n: Modulus, x: nat, t: nat, l: Challenge) returns (pi: nat)
    ensures pi == ProofElement(n, x, t, l)
  {
    pi := 1;
    var r := 1;
    DivModUnique(1, l, 0, 1);
    ModSmall(1, n);
    for i := 0 to t
      invariant r == Pow(2, i) % l
      invariant pi == ModPow(x, Pow(2, i) / l, n)
    {
      ghost var q := Pow(2, i) / l;
      QuotientStep(i, l);
      r := 2 * r;
      var bit := r >= l;
      if bit {
        r := r - l;
      }
      ModPowAdd(x, q, q, n);
      pi := pi * pi % n;
      if bit {
        ModPowTimesBase(x, 2 * q, n);
        pi := pi * x % n;
      }
    }
  }

  lemma ModPowTimesBase(x: nat, e: nat, n: Modulus)
    ensures ModPow(x, e, n) * x % n == ModPow(x, e + 1, n)
  {
    ModMulLeft(Pow(x, e), x, n);
    assert Pow(x, e + 1) == Pow(x, e) * x;
  }

  // ----- proving and verifying

  function HonestProof(n: Modulus, h: Oracle, domain: string, x: nat, t: nat): SequentialProof {
    var y := Sequential(n, x, t);
    SequentialProof(y, ProofElement(n, x, t, h(domain, x, y, t)), t)
  }

  method ProveWithOutput(n: Modulus, h: Oracle, domain: string, x: nat, y: nat, t: nat) returns (pi: nat)
    ensures pi == ProofElement(n, x, t, h(domain, x, y, t))
  {
    var l := h(domain, x, y, t);
    pi := QuotientPower(n, x, t, l);
  }

  method ProveSequential(n: Modulus, h: Oracle, domain: string, x: nat, t: nat) returns (proof: SequentialProof)
    ensures proof == HonestProof(n, h, domain, x, t)
  {
    var y := TickAdvance(n, x, t);
    var pi := ProveWithOutput(n, h, domain, x, y, t);
    proof := SequentialProof(y, pi, t);
  }

  function VerifySequential(n: Modulus, h: Oracle, domain: string, x: nat, proof: SequentialProof): Verdict {
    if proof.y >= n || proof.pi >= n then InvalidInput
    else
      var l := h(domain, x, proof.y, proof.iterations);
      var r := ModPow(2, proof.iterations, l);
      Checked(ModPow(proof.pi, l, n) * ModPow(x, r, n) % n == proof.y)
  }

  /** The identity behind the check: pi^l * x^r = x^(2^t) when pi = x^q and
      2^t = q*l + r. */
  lemma WesolowskiIdentity(n: Modulus, x: nat, t: nat, l: Challenge)
    ensures ModPow(ProofElement(n, x, t, l), l, n) * ModPow(x, ModPow(2, t, l), n) % n
         == ModPow(x, Pow(2, t), n)
  {
    var p := Pow(2, t);
    RejoinExponent(n, x, p / l, l, p % l);
    assert (p / l) * l + p % l == p;
  }

  lemma RejoinExponent(n: Modulus, x: nat, q: nat, l: nat, r: nat)
    ensures ModPow(ModPow(x, q, n), l, n) * ModPow(x, r, n) % n == ModPow(x, q * l + r, n)
  {
    ModPowPow(x, q, l, n);
    ModPowAdd(x, q * l, r, n);
  }

  /** Completeness: an honest proof is accepted for every t, every base below n
      and every challenge. A base of n or more is reduced by the first squaring,
      so it is refused (as malformed) only when there is no squaring at all. */
  lemma HonestProofAccepted(n: Modulus, h: Oracle, domain: string, x: nat, t: nat)
    ensures VerifySequential(n, h, domain, x, HonestProof(n, h, domain, x, t))
         == if t > 0 || x < n then Checked(true) else InvalidInput
  {
    var y := Sequential(n, x, t);
    WesolowskiIdentity(n, x, t, h(domain, x, y, t));
    if t == 0 && x < n {
      PowOne(x);
      ModSmall(x, n);
    }
  }

  // ----- the simple prover

  method BinaryModPow(base: nat, exponent: nat, modulus: nat) returns (result: nat)
    requires modulus > 0
    ensures result == ModPow(base, exponent, modulus)
  {
    if modulus == 1 {
      return 0;
    }
    result := 1;
    var b: nat, exp: nat := base % modulus, exponent;
    PowModBase(base, exponent, modulus);
    ModSmall(1, modulus);
    while exp > 0
      invariant result < modulus
      invariant result * Pow(b, exp) % modulus == ModPow(base, exponent, modulus)
    {
      BinaryStep(result, b, exp, modulus);
      if exp % 2 == 1 {
        result := result * b % modulus;
      }
      exp := exp / 2;
      b := b * b % modulus;
    }
    ModSmall(result, modulus);
  }

  /** Square-and-multiply keeps result * b^exp. */
  lemma BinaryStep(result: nat, b: nat, exp: nat, n: nat)
    requires n > 0 && exp > 0
    ensures var result' := if exp % 2 == 1 then result * b % n else result;
            result' * Pow(b * b % n, exp / 2) % n == result * Pow(b, exp) % n
  {
    var p := Pow(b * b, exp / 2);
    PowHalf(b, exp);
    PowOne(b);
    var result' := if exp % 2 == 1 then result * b % n else result;
    PowModBase(b * b, exp / 2, n);
    ModMulRight(result', Pow(b * b % n, exp / 2), n);
    ModMulRight(result', p, n);
    if exp % 2 == 1 {
      ModMulLeft(result * b, p, n);
      assert result * b * p == result * (p * b);
    }
  }

  lemma ModMulRight(a: int, b: int, n: int)
    requires n > 0
    ensures a * (b % n) % n == a * b % n
  {
    ModMulLeft(b, a, n);
  }

  /** The iteration count is truncated to 32 bits before the power of two is formed. */
  function SimpleElement(n: Modulus, base: nat, iterations: nat, challenge: Challenge): nat {
    ProofElement(n, base, iterations % U32_SIZE, challenge)
  }

  /** `compute_proof` */
  method ComputeProof(n: Modulus, base: nat, iterations: nat, challenge: Challenge) returns (pi: nat)
    ensures pi == SimpleElement(n, base, iterations, challenge)
  {
    var numerator := Pow(2, iterations % U32_SIZE);
    var quotient := numerator / challenge;
    pi := BinaryModPow(base, quotient, n);
  }

  /** The two quotients give the same proof on every base and modulus. */
  ghost predicate SameProofs(q: nat, q': nat) {
    forall n: Modulus, x: nat :: ModPow(x, q, n) == ModPow(x, q', n)
  }

  lemma SameProofsIff(q: nat, q': nat)
    ensures SameProofs(q, q') <==> q == q'
  {
    if q' < q {
      DistinctExponents(q', q);
    } else if q < q' {
      DistinctExponents(q, q');
    }
  }

  lemma DistinctExponents(q': nat, q: nat)
    requires q' < q
    ensures exists n: Modulus, x: nat :: ModPow(x, q, n) != ModPow(x, q', n)
  {
    PowPositive(2, q);
    var n: Modulus := Pow(2, q) + 1;
    PowStrictlyMonotone(2, q', q);
    ModSmall(Pow(2, q), n);
    ModSmall(Pow(2, q'), n);
    assert ModPow(2, q, n) != ModPow(2, q', n);
  }

  /** The simple prover and the streaming one make the same proof of every base in
      every group. */
  ghost predicate ProversAgree(t: nat, l: Challenge) {
    forall n: Modulus, x: nat :: SimpleElement(n, x, t, l) == ProofElement(n, x, t, l)
  }

  lemma AgreeIsSameProofs(t: nat, l: Challenge, q: nat, q': nat)
    requires q == Pow(2, t) / l && q' == Pow(2, t % U32_SIZE) / l
    ensures ProversAgree(t, l) <==> SameProofs(q, q')
  {
    hide ModPow;
    hide Pow;
    if ProversAgree(t, l) {
      forall n: Modulus, x: nat
        ensures ModPow(x, q, n) == ModPow(x, q', n)
      {
        assert SimpleElement(n, x, t, l) == ProofElement(n, x, t, l);
      }
    }
    if SameProofs(q, q') {
      forall n: Modulus, x: nat
        ensures SimpleElement(n, x, t, l) == ProofElement(n, x, t, l)
      {
        assert ModPow(x, q, n) == ModPow(x, q', n);
      }
    }
  }

  /** They do exactly when the count fits 32 bits, or the challenge exceeds 2^t so
      that both quotients are zero. */
  lemma ProversAgreeIff(t: nat, l: Challenge)
    ensures ProversAgree(t, l) <==> t < U32_SIZE || l > Pow(2, t)
  {
    var q, q' := Pow(2, t) / l, Pow(2, t % U32_SIZE) / l;
    AgreeIsSameProofs(t, l, q, q');
    hide ProversAgree;
    hide SameProofs;
    SameProofsIff(q, q');
    hide Pow;
    if t >= U32_SIZE {
      TruncationShrinks(t, l);
    } else {
      assert t % U32_SIZE == t;
    }
  }

  lemma TruncationShrinks(t: nat, l: Challenge)
    requires t >= U32_SIZE
    ensures l > Pow(2, t) ==> Pow(2, t) / l == Pow(2, t % U32_SIZE) / l == 0
    ensures l <= Pow(2, t) ==> Pow(2, t % U32_SIZE) / l < Pow(2, t) / l
  {
    var a, b := Pow(2, t % U32_SIZE), Pow(2, t);
    PowStrictlyMonotone(2, t % U32_SIZE, t);
    PowPositive(2, t);
    PowPositive(2, t % U32_SIZE);
    if l > b {
      DivModUnique(a, l, 0, a);
      DivModUnique(b, l, 0, b);
    } else {
      HalfIsBelow(t % U32_SIZE, t);
      QuotientGrows(a, b, l);
    }
  }

  lemma QuotientGrows(a: nat, b: nat, l: Challenge)
    requires 2 * a <= b && l <= b
    ensures a / l < b / l
  {
    var q := a / l;
    assert a == q * l + a % l;
    assert (q + 1) * l == q * l + l;
    if q > 0 {
      MulMonotone(1, q, l);
    } else {
      assert q * l == 0;
    }
    assert (q + 1) * l <= b;
    var d := b / l - (q + 1);
    assert b == (b / l) * l + b % l;
    if d < 0 {
      MulMonotone(b / l, q, l);
    }
  }

  lemma HalfIsBelow(m: nat, t: nat)
    requires m < t
    ensures 2 * Pow(2, m) <= Pow(2, t)
  {
    assert Pow(2, m + 1) == 2 * Pow(2, m);
    if m + 1 < t {
      PowStrictlyMonotone(2, m + 1, t);
    }
  }
}
