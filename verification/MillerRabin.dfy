/** The Miller-Rabin tests of crates/vdf/src/lib.rs and of the host contract
    (demo/contracts/src/PoSqHost.sol), and the prime search built on the first. */
module MillerRabin {
  import opened ModArith
  import opened Primes

  const SMALL_PRIMES: seq<nat> := [2, 3, 5, 7, 11, 13, 17, 19, 23, 29, 31, 37]

  ghost predicate IsSmallPrime(a: nat) {
    || a == 2 || a == 3 || a == 5 || a == 7 || a == 11 || a == 13
    || a == 17 || a == 19 || a == 23 || a == 29 || a == 31 || a == 37
  }

  lemma ListedSmallPrime(k: nat)
    requires k < |SMALL_PRIMES|
    ensures IsSmallPrime(SMALL_PRIMES[k])
  {}

  lemma SmallPrimeListed(a: nat) returns (k: nat)
    requires IsSmallPrime(a)
    ensures k < |SMALL_PRIMES| && SMALL_PRIMES[k] == a
  {
    k := if a == 2 then 0 else if a == 3 then 1 else if a == 5 then 2 else if a == 7 then 3
         else if a == 11 then 4 else if a == 13 then 5 else if a == 17 then 6 else if a == 19 then 7
         else if a == 23 then 8 else if a == 29 then 9 else if a == 31 then 10 else 11;
  }

  // ----- n - 1 = d * 2^s

  function Twos(m: nat): nat {
    if m == 0 || m % 2 == 1 then 0 else 1 + Twos(m / 2)
  }

  function OddPart(m: nat): nat {
    if m == 0 || m % 2 == 1 then m else OddPart(m / 2)
  }

  lemma {:induction false} Decompose(m: nat)
    ensures m == OddPart(m) * Pow(2, Twos(m))
    ensures m > 0 ==> OddPart(m) % 2 == 1
  {
    if m == 0 || m % 2 == 1 {
      assert OddPart(m) * 1 == m;
    } else {
      Decompose(m / 2);
      var d, p := OddPart(m / 2), Pow(2, Twos(m / 2));
      assert d * (2 * p) == 2 * (d * p);
    }
  }

  /** n is a strong probable prime to base a. */
  ghost predicate Passes(n: nat, a: nat)
    requires n > 1
  {
    var d, s := OddPart(n - 1), Twos(n - 1);
    || ModPow(a, d, n) == 1
    || exists i | 0 <= i < s :: ModPow(a, d * Pow(2, i), n) == n - 1
  }

  /** Squaring from a^d down to a^(n-1) = 1 passes through -1, unless it starts
      at 1. */
  lemma {:induction false} ChainHitsMinusOne(n: nat, a: nat, d: nat, s: nat)
    requires IsPrime(n) && ModPow(a, d * Pow(2, s), n) == 1
    ensures ModPow(a, d, n) == 1 || exists i | 0 <= i < s :: ModPow(a, d * Pow(2, i), n) == n - 1
  {
    if s == 0 {
      assert d * Pow(2, 0) == d;
    } else {
      var e := d * Pow(2, s - 1);
      assert d * Pow(2, s) == e + e;
      RootOfOne(n, a, e);
      if ModPow(a, e, n) == 1 {
        ChainHitsMinusOne(n, a, d, s - 1);
        if i :| 0 <= i < s - 1 && ModPow(a, d * Pow(2, i), n) == n - 1 {
          assert 0 <= i < s;
        }
      } else {
        assert 0 <= s - 1 < s && ModPow(a, d * Pow(2, s - 1), n) == n - 1;
      }
    }
  }

  lemma RootOfOne(n: nat, a: nat, e: nat)
    requires IsPrime(n) && ModPow(a, e + e, n) == 1
    ensures ModPow(a, e, n) == 1 || ModPow(a, e, n) == n - 1
  {
    ModPowAdd(a, e, e, n);
    SquareRootsOfOne(n, ModPow(a, e, n));
  }

  lemma PrimePasses(n: nat, a: nat)
    requires IsPrime(n) && a % n != 0
    ensures Passes(n, a)
  {
    Decompose(n - 1);
    Fermat(n, a);
    ChainHitsMinusOne(n, a, OddPart(n - 1), Twos(n - 1));
  }

  // ----- what rejection means

  /** Base a shows n composite: its Fermat power is not 1, or somewhere on the way
      there a square is 1 whose root is neither 1 nor -1. */
  ghost predicate ProvesComposite(n: nat, a: nat, d: nat, s: nat)
    requires n > 1
  {
    ModPow(a, n - 1, n) != 1 || exists i :: 0 <= i < s && OddRoot(n, a, d * Pow(2, i))
  }

  predicate OddRoot(n: nat, a: nat, e: nat)
    requires n > 1
  {
    ModPow(a, 2 * e, n) == 1 && ModPow(a, e, n) != 1 && ModPow(a, e, n) != n - 1
  }

  /** The odd part and the twos are the only such decomposition. */
  lemma {:induction false} DecomposeUnique(m: nat, d: nat, s: nat)
    requires m == d * Pow(2, s) && d % 2 == 1
    ensures OddPart(m) == d && Twos(m) == s
    decreases s
  {
    if s == 0 {
      assert m == d;
    } else {
      var p := Pow(2, s - 1);
      assert d * (2 * p) == 2 * (d * p);
      PowPositive(2, s - 1);
      MulPositive(d, p);
      DecomposeUnique(m / 2, d, s - 1);
    }
  }

  lemma NextSquare(n: nat, a: nat, d: nat, i: nat)
    requires n > 1
    ensures 2 * (d * Pow(2, i)) == d * Pow(2, i + 1)
    ensures ModPow(a, d * Pow(2, i + 1), n) == ModPow(a, d * Pow(2, i), n) * ModPow(a, d * Pow(2, i), n) % n
  {
    MultiplyExponent(n, a, d, i);
    assert d * (2 * Pow(2, i)) == 2 * (d * Pow(2, i));
  }

  /** 1 and -1 square to 1. */
  lemma SquareOfUnit(n: nat, x: nat)
    requires n > 2 && (x == 1 || x == n - 1)
    ensures x * x % n == 1
  {
    if x == 1 {
      ModSmall(1, n);
    } else {
      assert x * x == (n - 2) * n + 1;
      DivModUnique(x * x, n, n - 2, 1);
    }
  }

  /** Once 1, the chain of squares stays 1; so it does after -1. */
  lemma {:induction false} StaysOne(n: nat, a: nat, d: nat, i: nat, j: nat)
    requires n > 2 && i <= j && ModPow(a, d * Pow(2, i), n) == 1
    ensures ModPow(a, d * Pow(2, j), n) == 1
    decreases j
  {
    if i < j {
      StaysOne(n, a, d, i, j - 1);
      NextSquare(n, a, d, j - 1);
      SquareOfUnit(n, 1);
    }
  }

  /** Squaring down to 1 without an odd root passes through -1, unless it starts at 1. */
  lemma {:induction false} NoOddRootHitsMinusOne(n: nat, a: nat, d: nat, s: nat)
    requires n > 2 && ModPow(a, d * Pow(2, s), n) == 1
    requires forall i: nat | i < s :: !OddRoot(n, a, d * Pow(2, i))
    ensures ModPow(a, d, n) == 1 || exists i :: 0 <= i < s && ModPow(a, d * Pow(2, i), n) == n - 1
    decreases s
  {
    if s == 0 {
      assert d * Pow(2, 0) == d;
    } else {
      NextSquare(n, a, d, s - 1);
      assert !OddRoot(n, a, d * Pow(2, s - 1));
      if ModPow(a, d * Pow(2, s - 1), n) == 1 {
        NoOddRootHitsMinusOne(n, a, d, s - 1);
        if i :| 0 <= i < s - 1 && ModPow(a, d * Pow(2, i), n) == n - 1 {
          assert 0 <= i < s;
        }
      } else {
        assert 0 <= s - 1 < s && ModPow(a, d * Pow(2, s - 1), n) == n - 1;
      }
    }
  }

  /** Passing a base leaves no odd root and a Fermat power of 1. */
  lemma PassingProvesNothing(n: nat, a: nat, d: nat, s: nat)
    requires n > 2 && n - 1 == d * Pow(2, s) && d % 2 == 1 && Passes(n, a)
    ensures !ProvesComposite(n, a, d, s)
  {
    hide ModPow;
    hide OddPart;
    hide Twos;
    DecomposeUnique(n - 1, d, s);
    assert d * Pow(2, 0) == d;
    var hit: nat := 0;
    if ModPow(a, d, n) != 1 {
      hit :| 0 <= hit < s && ModPow(a, d * Pow(2, hit), n) == n - 1;
      NextSquare(n, a, d, hit);
      SquareOfUnit(n, n - 1);
      StaysOne(n, a, d, hit + 1, s);
    } else {
      StaysOne(n, a, d, 0, s);
    }
    forall i | 0 <= i < s
      ensures !OddRoot(n, a, d * Pow(2, i))
    {
      NextSquare(n, a, d, i);
      if ModPow(a, d, n) == 1 {
        StaysOne(n, a, d, 0, i);
      } else if i > hit {
        StaysOne(n, a, d, hit + 1, i);
      } else if i < hit && ModPow(a, d * Pow(2, i + 1), n) == 1 {
        StaysOne(n, a, d, i + 1, hit);
      }
    }
  }

  /** A number passes a base exactly when the base does not prove it composite, for
      the one way to write n - 1 as an odd number times a power of two. */
  lemma PassesIff(n: nat, a: nat, d: nat, s: nat)
    requires n > 2 && n - 1 == d * Pow(2, s) && d % 2 == 1
    ensures Passes(n, a) <==> !ProvesComposite(n, a, d, s)
  {
    if Passes(n, a) {
      PassingProvesNothing(n, a, d, s);
    }
    if !ProvesComposite(n, a, d, s) {
      DecomposeUnique(n - 1, d, s);
      NoOddRootHitsMinusOne(n, a, d, s);
    }
  }

  // ----- the Rust test

  /** The closure `witness`: true when a proves n composite. */
  method Witness(n: nat, d: nat, s: nat, a: nat) returns (w: bool)
    requires n > 1 && d == OddPart(n - 1) && s == Twos(n - 1) && s > 0
    ensures w <==> !Passes(n, a)
  {
    var x := ModPow(a, d, n);
    assert d * Pow(2, 0) == d;
    if x == 1 || x == n - 1 {
      return false;
    }
    for i := 1 to s
      invariant x == ModPow(a, d * Pow(2, i - 1), n)
      invariant forall k | 0 <= k < i :: ModPow(a, d * Pow(2, k), n) != n - 1
    {
      SquareExponent(n, a, d, i - 1);
      x := ModPow(x, 2, n);
      if x == n - 1 {
        return false;
      }
    }
    w := true;
  }

  lemma SquareExponent(n: nat, a: nat, d: nat, i: nat)
    requires n > 0
    ensures ModPow(ModPow(a, d * Pow(2, i), n), 2, n) == ModPow(a, d * Pow(2, i + 1), n)
  {
    var e := d * Pow(2, i);
    ModPowPow(a, e, 2, n);
    assert d * Pow(2, i + 1) == e * 2;
  }

  lemma MultiplyExponent(n: nat, a: nat, d: nat, i: nat)
    requires n > 0
    ensures ModPow(a, d * Pow(2, i), n) * ModPow(a, d * Pow(2, i), n) % n == ModPow(a, d * Pow(2, i + 1), n)
  {
    var e := d * Pow(2, i);
    ModPowAdd(a, e, e, n);
    assert d * Pow(2, i + 1) == e + e;
  }

  /** Some small prime divides n. */
  ghost predicate SmallFactor(n: nat) {
    || n % 2 == 0 || n % 3 == 0 || n % 5 == 0 || n % 7 == 0 || n % 11 == 0 || n % 13 == 0
    || n % 17 == 0 || n % 19 == 0 || n % 23 == 0 || n % 29 == 0 || n % 31 == 0 || n % 37 == 0
  }

  ghost predicate PassesSmall(n: nat)
    requires n > 1
  {
    forall a: nat | IsSmallPrime(a) && a < n :: Passes(n, a)
  }

  /** What the Rust test accepts, for the bases derived from the candidate. */
  ghost predicate RustAccepts(n: nat, derived: seq<nat>) {
    n > 1 && (IsSmallPrime(n) || (!SmallFactor(n) && PassesSmall(n) && PassesDerived(n, derived)))
  }

  ghost predicate PassesDerived(n: nat, derived: seq<nat>)
    requires n > 1
  {
    forall k | 0 <= k < |derived| :: derived[k] % n > 1 ==> Passes(n, derived[k] % n)
  }

  lemma SmallPrimesArePrime(p: nat)
    requires IsSmallPrime(p)
    ensures IsPrime(p)
  {
    forall d | 2 <= d < p
      ensures p % d != 0
    {}
  }

  /** `is_probably_prime`. The derived bases are hashes of the candidate; they
      are arbitrary here. */
  method IsProbablyPrime(n: nat, derived: seq<nat>) returns (r: bool)
    ensures r <==> RustAccepts(n, derived)
  {
    if n <= 1 {
      return false;
    }
    var decided, answer := TrialDivision(n);
    if decided {
      return answer;
    }
    var s, d := Twos(n - 1), OddPart(n - 1);
    r := PassesAllSmall(n, d, s);
    if !r {
      return;
    }
    for k := 0 to |derived|
      invariant forall j | 0 <= j < k :: derived[j] % n > 1 ==> Passes(n, derived[j] % n)
    {
      var a := derived[k] % n;
      if a <= 1 {
        continue;
      }
      var w := Witness(n, d, s, a);
      if w {
        return false;
      }
    }
    r := true;
  }

  /** The first loop: equality with a small prime accepts, divisibility by one
      rejects. */
  method TrialDivision(n: nat) returns (decided: bool, answer: bool)
    requires n > 1
    ensures decided <==> IsSmallPrime(n) || SmallFactor(n)
    ensures decided ==> (answer <==> IsSmallPrime(n))
  {
    for k := 0 to |SMALL_PRIMES|
      invariant forall j | 0 <= j < k :: n != SMALL_PRIMES[j] && n % SMALL_PRIMES[j] != 0
    {
      if n == SMALL_PRIMES[k] {
        ListedSmallPrime(k);
        return true, true;
      }
      if n % SMALL_PRIMES[k] == 0 {
        NotAnotherSmallPrime(n, k);
        return true, false;
      }
    }
    NoneListed(n);
    return false, false;
  }

  lemma NoneListed(n: nat)
    requires forall j | 0 <= j < |SMALL_PRIMES| :: n != SMALL_PRIMES[j] && n % SMALL_PRIMES[j] != 0
    ensures !IsSmallPrime(n) && !SmallFactor(n)
  {
    if IsSmallPrime(n) {
      var k := SmallPrimeListed(n);
    }
    assert n % SMALL_PRIMES[0] != 0 && n % SMALL_PRIMES[1] != 0 && n % SMALL_PRIMES[2] != 0;
    assert n % SMALL_PRIMES[3] != 0 && n % SMALL_PRIMES[4] != 0 && n % SMALL_PRIMES[5] != 0;
    assert n % SMALL_PRIMES[6] != 0 && n % SMALL_PRIMES[7] != 0 && n % SMALL_PRIMES[8] != 0;
    assert n % SMALL_PRIMES[9] != 0 && n % SMALL_PRIMES[10] != 0 && n % SMALL_PRIMES[11] != 0;
  }

  /** A number divisible by one small prime is not another. */
  lemma NotAnotherSmallPrime(n: nat, k: nat)
    requires n > 1 && k < |SMALL_PRIMES| && n != SMALL_PRIMES[k] && n % SMALL_PRIMES[k] == 0
    ensures !IsSmallPrime(n) && SmallFactor(n)
  {
    ListedSmallPrime(k);
    if IsSmallPrime(n) {
      SmallPrimesArePrime(n);
      if n < SMALL_PRIMES[k] {
        ModSmall(n, SMALL_PRIMES[k]);
      }
    }
  }

  method PassesAllSmall(n: nat, d: nat, s: nat) returns (r: bool)
    requires n > 1 && d == OddPart(n - 1) && s == Twos(n - 1) && s > 0
    ensures r <==> PassesSmall(n)
  {
    for k := 0 to |SMALL_PRIMES|
      invariant forall j | 0 <= j < k :: SMALL_PRIMES[j] < n ==> Passes(n, SMALL_PRIMES[j])
    {
      ListedSmallPrime(k);
      if SMALL_PRIMES[k] >= n {
        continue;
      }
      var w := Witness(n, d, s, SMALL_PRIMES[k]);
      if w {
        return false;
      }
    }
    AllListedPass(n);
    r := true;
  }

  lemma AllListedPass(n: nat)
    requires n > 1
    requires forall j | 0 <= j < |SMALL_PRIMES| :: SMALL_PRIMES[j] < n ==> Passes(n, SMALL_PRIMES[j])
    ensures PassesSmall(n)
  {
    forall a: nat | IsSmallPrime(a) && a < n
      ensures Passes(n, a)
    {
      var k := SmallPrimeListed(a);
      assert SMALL_PRIMES[k] < n;
    }
  }

  /** No prime is rejected, whatever bases the hash yields. */
  lemma PrimeNeverRejected(n: nat, derived: seq<nat>)
    requires IsPrime(n)
    ensures RustAccepts(n, derived)
  {
    PrimePassesSmallBases(n);
    forall k | 0 <= k < |derived| && derived[k] % n > 1
      ensures Passes(n, derived[k] % n)
    {
      ModSmall(derived[k] % n, n);
      PrimePasses(n, derived[k] % n);
    }
    if SmallFactor(n) {
      PrimeWithSmallFactor(n);
    }
  }

  lemma PrimeWithSmallFactor(n: nat)
    requires IsPrime(n) && SmallFactor(n)
    ensures IsSmallPrime(n)
  {
    var p := if n % 2 == 0 then 2 else if n % 3 == 0 then 3 else if n % 5 == 0 then 5
             else if n % 7 == 0 then 7 else if n % 11 == 0 then 11 else if n % 13 == 0 then 13
             else if n % 17 == 0 then 17 else if n % 19 == 0 then 19 else if n % 23 == 0 then 23
             else if n % 29 == 0 then 29 else if n % 31 == 0 then 31 else 37;
    assert n % p == 0 && IsSmallPrime(p);
    if n < p {
      ModSmall(n, p);
    }
  }

  lemma PrimePassesSmallBases(n: nat)
    requires IsPrime(n)
    ensures PassesSmall(n)
  {
    forall a: nat | IsSmallPrime(a) && a < n
      ensures Passes(n, a)
    {
      ModSmall(a, n);
      PrimePasses(n, a);
    }
  }

  /** Below 41^2 trial division already decides, so the test is exact there. */
  lemma ExactBelow1681(n: nat, derived: seq<nat>)
    requires n < 1681
    ensures RustAccepts(n, derived) <==> IsPrime(n)
  {
    if IsPrime(n) {
      PrimeNeverRejected(n, derived);
    } else if n > 1 {
      var p := LeastDivisor(n);
      var q := n / p;
      assert n == p * q;
      if IsSmallPrime(n) {
        SmallPrimesArePrime(n);
      }
      if p > 40 {
        if q > 40 {
          MulMonotone(41, p, q);
          assert false;
        }
        assert q != 0 && q != 1;
        DivModUnique(n, q, p, 0);
        HasSmallFactor(n, q);
      } else {
        HasSmallFactor(n, p);
      }
    }
  }

  lemma HasSmallFactor(n: nat, d: nat)
    requires 2 <= d <= 40 && n % d == 0
    ensures SmallFactor(n)
  {
    var q := if d % 2 == 0 then 2 else if d % 3 == 0 then 3 else if d % 5 == 0 then 5
             else if d == 7 then 7 else d;
    assert d % q == 0 && (q <= 5 || IsSmallPrime(q));
    DivisibleTransitive(n, d, q);
  }

  /** From 41^2 on the test accepts exactly the odd numbers that no listed prime divides
      and no tried base, listed or derived, proves composite. */
  lemma AcceptedIff(n: nat, derived: seq<nat>, d: nat, s: nat)
    requires n > 37 && n - 1 == d * Pow(2, s) && d % 2 == 1
    ensures RustAccepts(n, derived)
       <==> && (forall k | 0 <= k < |SMALL_PRIMES| :: n % SMALL_PRIMES[k] != 0)
            && (forall k | 0 <= k < |SMALL_PRIMES| :: !ProvesComposite(n, SMALL_PRIMES[k], d, s))
            && (forall k | 0 <= k < |derived| :: derived[k] % n > 1 ==> !ProvesComposite(n, derived[k] % n, d, s))
  {
    forall a: nat
      ensures Passes(n, a) <==> !ProvesComposite(n, a, d, s)
    {
      PassesIff(n, a, d, s);
    }
    hide Passes;
    hide ProvesComposite;
    ListedBases(n);
    NoListedFactorIff(n);
  }

  /** Every listed prime is a base below n. */
  lemma ListedBases(n: nat)
    requires n > 37
    ensures PassesSmall(n) <==> forall k | 0 <= k < |SMALL_PRIMES| :: Passes(n, SMALL_PRIMES[k])
    ensures !IsSmallPrime(n)
  {
    hide Passes;
    if PassesSmall(n) {
      forall k | 0 <= k < |SMALL_PRIMES|
        ensures Passes(n, SMALL_PRIMES[k])
      {
        ListedSmallPrime(k);
      }
    }
    if forall k | 0 <= k < |SMALL_PRIMES| :: Passes(n, SMALL_PRIMES[k]) {
      AllListedPass(n);
    }
  }

  lemma NoListedFactorIff(n: nat)
    requires n > 37
    ensures !SmallFactor(n) <==> forall k | 0 <= k < |SMALL_PRIMES| :: n % SMALL_PRIMES[k] != 0
  {
    if forall k | 0 <= k < |SMALL_PRIMES| :: n % SMALL_PRIMES[k] != 0 {
      NoneListed(n);
    }
  }

  /** The contract's test decides the same without the divisions, apart from two. */
  lemma HostAcceptedIff(n: nat, d: nat, s: nat)
    requires n > 37 && n - 1 == d * Pow(2, s) && d % 2 == 1
    ensures HostAccepts(n)
       <==> n % 2 == 1 && forall k | 0 <= k < |SMALL_PRIMES| :: !ProvesComposite(n, SMALL_PRIMES[k], d, s)
  {
    forall a: nat
      ensures Passes(n, a) <==> !ProvesComposite(n, a, d, s)
    {
      PassesIff(n, a, d, s);
    }
    hide Passes;
    hide ProvesComposite;
    ListedBases(n);
  }

  // ----- the prime search

  /** The test rejects every candidate in [lo, hi). */
  ghost predicate NoneAccepted(lo: nat, hi: nat, derived: nat -> seq<nat>)
    decreases hi
  {
    hi <= lo || (!RustAccepts(hi - 1, derived(hi - 1)) && NoneAccepted(lo, hi - 1, derived))
  }

  /** No prime is skipped by the search. */
  lemma {:induction false} NoPrimeSkipped(lo: nat, hi: nat, derived: nat -> seq<nat>, m: nat)
    requires NoneAccepted(lo, hi, derived) && lo <= m < hi
    ensures !IsPrime(m)
    decreases hi
  {
    if m == hi - 1 {
      if IsPrime(m) {
        PrimeNeverRejected(m, derived(m));
      }
    } else {
      NoPrimeSkipped(lo, hi - 1, derived, m);
    }
  }

  /** `hash_to_prime` from the hashed candidate: the search ends, because there
      is a prime ahead and the test accepts it; nothing acceptable, and so no
      prime, is skipped. */
  method HashToPrime(start: nat, derived: nat -> seq<nat>) returns (candidate: nat)
    ensures candidate >= start && RustAccepts(candidate, derived(candidate))
    ensures NoneAccepted(start, candidate, derived)
  {
    candidate := start;
    ghost var ahead := AcceptedAhead(start, derived);
    while true
      invariant start <= candidate <= ahead
      invariant NoneAccepted(start, candidate, derived)
      decreases ahead - candidate
    {
      var accepted := IsProbablyPrime(candidate, derived(candidate));
      if accepted {
        return;
      }
      candidate := candidate + 1;
    }
  }

  lemma AcceptedAhead(start: nat, derived: nat -> seq<nat>) returns (ahead: nat)
    ensures ahead >= start && RustAccepts(ahead, derived(ahead))
  {
    ahead := LargerPrime(start);
    PrimeNeverRejected(ahead, derived(ahead));
  }

  // ----- the host contract's test

  ghost predicate HostAccepts(n: nat) {
    n >= 4 && n % 2 == 1 && PassesSmall(n)
  }

  /** `isProbablePrime` */
  method HostIsProbablePrime(n: nat) returns (r: bool)
    ensures r <==> HostAccepts(n)
  {
    if n < 4 || n % 2 == 0 {
      return false;
    }
    var d, s := n - 1, 0;
    while d % 2 == 0
      invariant d > 0
      invariant s + Twos(d) == Twos(n - 1) && OddPart(d) == OddPart(n - 1)
      decreases d
    {
      d := d / 2;
      s := s + 1;
    }
    for k := 0 to |SMALL_PRIMES|
      invariant forall j | 0 <= j < k :: SMALL_PRIMES[j] < n ==> Passes(n, SMALL_PRIMES[j])
    {
      var a := SMALL_PRIMES[k];
      ListedSmallPrime(k);
      if a >= n {
        continue;
      }
      var composite := HostWitness(n, d, s, a);
      if composite {
        return false;
      }
    }
    AllListedPass(n);
    r := true;
  }

  method HostWitness(n: nat, d: nat, s: nat, a: nat) returns (composite: bool)
    requires n > 1 && d == OddPart(n - 1) && s == Twos(n - 1) && s > 0
    ensures composite <==> !Passes(n, a)
  {
    var x := ModPow(a, d, n);
    assert d * Pow(2, 0) == d;
    if x == 1 || x == n - 1 {
      return false;
    }
    composite := true;
    for i := 1 to s
      invariant composite
      invariant x == ModPow(a, d * Pow(2, i - 1), n)
      invariant forall k | 0 <= k < i :: ModPow(a, d * Pow(2, k), n) != n - 1
    {
      MultiplyExponent(n, a, d, i - 1);
      x := x * x % n;
      if x == n - 1 {
        composite := false;
        break;
      }
    }
  }

  /** The contract accepts every prime above 3, and only those two primes fail. */
  lemma HostAcceptsPrimesAbove3(n: nat)
    requires IsPrime(n)
    ensures HostAccepts(n) <==> n > 3
  {
    if n > 3 {
      assert n % 2 != 0;
      PrimePassesSmallBases(n);
    }
  }

  /** Every candidate the prover's test accepts passes the contract's, except 2
      and 3: the two searches agree on the challenge. */
  lemma HostAcceptsRustPrimes(n: nat, derived: seq<nat>)
    requires RustAccepts(n, derived)
    ensures HostAccepts(n) <==> n > 3
  {
    if IsSmallPrime(n) {
      SmallPrimesArePrime(n);
      HostAcceptsPrimesAbove3(n);
    }
  }
}
