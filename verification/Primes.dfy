/** Primes, Euclid's lemma and Fermat's little theorem: what the completeness
    of the Miller-Rabin test rests on. */
module Primes {
  import opened ModArith

  ghost predicate IsPrime(p: nat) {
    p >= 2 && forall d | 2 <= d < p :: p % d != 0
  }

  /** If a prime divides a product, it divides a factor. */
  lemma EuclidLemma(p: nat, a: nat, b: nat)
    requires IsPrime(p) && a * b % p == 0
    ensures a % p == 0 || b % p == 0
  {
    if a % p != 0 {
      ModMulLeft(a, b, p);
      EuclidReduced(p, a % p, b);
    }
  }

  lemma {:induction false} EuclidReduced(p: nat, a: nat, b: nat)
    requires IsPrime(p) && 0 < a < p && a * b % p == 0
    ensures b % p == 0
  {
    if a > 1 {
      var k, r := p / a, p % a;
      assert p == k * a + r && r != 0;
      var m := a * b / p;
      assert a * b == m * p;
      assert r * b == (b - k * m) * p by {
        assert (p - k * a) * b == p * b - k * (a * b);
        assert k * (m * p) == (k * m) * p;
      }
      DivModUnique(r * b, p, b - k * m, 0);
      EuclidReduced(p, r, b);
    }
  }

  // ----- binomial coefficients

  function Choose(n: nat, k: nat): nat {
    if k == 0 then 1
    else if n == 0 then 0
    else Choose(n - 1, k - 1) + Choose(n - 1, k)
  }

  lemma {:induction false} ChooseOutside(n: nat, k: nat)
    requires k > n
    ensures Choose(n, k) == 0
  {
    if n > 0 {
      ChooseOutside(n - 1, k - 1);
      ChooseOutside(n - 1, k);
    }
  }

  /** k * C(n, k) = n * C(n-1, k-1) */
  lemma {:induction false} Absorption(n: nat, k: nat)
    requires n > 0 && k > 0
    ensures k * Choose(n, k) == n * Choose(n - 1, k - 1)
  {
    if n == 1 {
      if k > 1 {
        ChooseOutside(1, k);
        ChooseOutside(0, k - 1);
      }
    } else {
      Absorption(n - 1, k);
      if k > 1 {
        Absorption(n - 1, k - 1);
        AbsorptionStep(n, k, Choose(n - 2, k - 2), Choose(n - 2, k - 1), Choose(n - 1, k));
      }
    }
  }

  lemma AbsorptionStep(n: nat, k: nat, u: nat, v: nat, w: nat)
    requires (k - 1) * (u + v) == (n - 1) * u && k * w == (n - 1) * v
    ensures k * (u + v + w) == n * (u + v)
  {
    assert k * (u + v + w) == (k - 1) * (u + v) + (u + v) + k * w;
    assert n * (u + v) == (n - 1) * u + (n - 1) * v + (u + v);
  }

  lemma PrimeDividesChoose(p: nat, k: nat)
    requires IsPrime(p) && 0 < k < p
    ensures Choose(p, k) % p == 0
  {
    Absorption(p, k);
    DivModUnique(p * Choose(p - 1, k - 1), p, Choose(p - 1, k - 1), 0);
    EuclidLemma(p, k, Choose(p, k));
    ModSmall(k, p);
  }

  /** Sum of C(n, j) * a^j for j up to k. */
  function RowSum(n: nat, a: nat, k: nat): nat {
    Choose(n, k) * Pow(a, k) + if k == 0 then 0 else RowSum(n, a, k - 1)
  }

  lemma {:induction false} RowSumStep(n: nat, a: nat, k: nat)
    requires k > 0
    ensures RowSum(n + 1, a, k) == a * RowSum(n, a, k - 1) + RowSum(n, a, k)
  {
    var u, v, w := Choose(n, k - 1), Choose(n, k), Pow(a, k - 1);
    PascalTerm(u, v, a, w);
    if k == 1 {
      assert RowSum(n + 1, a, 0) == 1 == RowSum(n, a, 0);
    } else {
      RowSumStep(n, a, k - 1);
      DistributeLeft(a, u * w, RowSum(n, a, k - 2));
    }
  }

  lemma PascalTerm(u: nat, v: nat, a: nat, w: nat)
    ensures (u + v) * (a * w) == a * (u * w) + v * (a * w)
  {
    MulAssoc(u, a, w);
    MulAssoc(a, u, w);
  }

  /** The binomial theorem for (a + 1)^n. */
  lemma {:induction false} Binomial(n: nat, a: nat)
    ensures Pow(a + 1, n) == RowSum(n, a, n)
  {
    if n > 0 {
      Binomial(n - 1, a);
      RowSumStep(n - 1, a, n);
      ChooseOutside(n - 1, n);
      var r := RowSum(n - 1, a, n - 1);
      assert RowSum(n - 1, a, n) == 0 * Pow(a, n) + r == r;
      assert (a + 1) * r == a * r + r;
    }
  }

  lemma {:induction false} RowSumModPrime(p: nat, a: nat, k: nat)
    requires IsPrime(p) && k < p
    ensures RowSum(p, a, k) % p == 1
  {
    if k == 0 {
      ModSmall(1, p);
    } else {
      RowSumModPrime(p, a, k - 1);
      PrimeDividesChoose(p, k);
      AddDivisible(Choose(p, k), Pow(a, k), RowSum(p, a, k - 1), p);
    }
  }

  lemma AddDivisible(c: nat, w: nat, r: nat, p: nat)
    requires p > 0 && c % p == 0
    ensures (c * w + r) % p == r % p
  {
    var m := c / p;
    assert c == p * m;
    MulAssoc(w, m, p);
    assert c * w == (w * m) * p;
    ModAddMultiple(r, w * m, p);
  }

  /** a^p = a modulo a prime p. */
  lemma {:induction false} FermatFull(p: nat, a: nat)
    requires IsPrime(p)
    ensures ModPow(a, p, p) == a % p
  {
    if a == 0 {
      assert Pow(0, p) == 0 * Pow(0, p - 1);
    } else {
      FermatFull(p, a - 1);
      FermatStep(p, a - 1);
    }
  }

  lemma FermatStep(p: nat, a: nat)
    requires IsPrime(p) && ModPow(a, p, p) == a % p
    ensures ModPow(a + 1, p, p) == (a + 1) % p
  {
    Binomial(p, a);
    RowSumModPrime(p, a, p - 1);
    ChooseDiagonal(p);
    ModSmall(1, p);
    SumModulo(RowSum(p, a, p - 1), 1, Pow(a, p), a, p);
  }

  lemma {:induction false} ChooseDiagonal(n: nat)
    ensures Choose(n, n) == 1
  {
    if n > 0 {
      ChooseDiagonal(n - 1);
      ChooseOutside(n - 1, n);
    }
  }

  lemma SumModulo(s: nat, s': nat, t: nat, t': nat, n: nat)
    requires n > 0 && s % n == s' % n && t % n == t' % n
    ensures (s + t) % n == (s' + t') % n
  {
    SumOfResidues(s, t, n);
    SumOfResidues(s', t', n);
  }

  lemma SumOfResidues(s: nat, t: nat, n: nat)
    requires n > 0
    ensures (s + t) % n == (s % n + t % n) % n
  {
    var a, b := s / n, t / n;
    assert s == s % n + a * n && t == t % n + b * n;
    assert (a + b) * n == a * n + b * n;
    ModAddMultiple(s % n + t % n, a + b, n);
  }

  /** Fermat's little theorem. */
  lemma Fermat(p: nat, a: nat)
    requires IsPrime(p) && a % p != 0
    ensures ModPow(a, p - 1, p) == 1
  {
    FermatFull(p, a);
    var w := Pow(a, p - 1);
    if a == 0 {
      ModSmall(0, p);
    }
    PowPositive(a, p - 1);
    SameResidueDifference(a * w, a, p);
    assert a * (w - 1) == a * w - a;
    EuclidLemma(p, a, w - 1);
    var q := (w - 1) / p;
    assert w == q * p + 1;
    DivModUnique(w, p, q, 1);
  }

  lemma SameResidueDifference(x: int, y: int, n: nat)
    requires n > 0 && x % n == y % n
    ensures (x - y) % n == 0
  {
    assert x - y == (x / n - y / n) * n;
    DivModUnique(x - y, n, x / n - y / n, 0);
  }

  /** Modulo a prime, only 1 and -1 square to 1. */
  lemma SquareRootsOfOne(p: nat, x: nat)
    requires IsPrime(p) && x < p && x * x % p == 1
    ensures x == 1 || x == p - 1
  {
    if x == 0 {
      ModSmall(0, p);
    } else {
      ModSmall(1, p);
      SameResidueDifference(x * x, 1, p);
      assert (x - 1) * (x + 1) == x * x - 1;
      EuclidLemma(p, x - 1, x + 1);
      ModSmall(x - 1, p);
      if x + 1 < p {
        ModSmall(x + 1, p);
      }
    }
  }

  // ----- there is always a larger prime

  function Factorial(n: nat): nat {
    if n == 0 then 1 else n * Factorial(n - 1)
  }

  lemma {:induction false} FactorialDivisible(n: nat, d: nat)
    requires 0 < d <= n
    ensures Factorial(n) % d == 0
  {
    if d == n {
      DivModUnique(n * Factorial(n - 1), d, Factorial(n - 1), 0);
    } else {
      FactorialDivisible(n - 1, d);
      ModMulLeft(Factorial(n - 1), n, d);
      assert Factorial(n - 1) * n == n * Factorial(n - 1);
      ModSmall(0, d);
    }
  }

  lemma {:induction false} FactorialPositive(n: nat)
    ensures Factorial(n) >= 1
  {
    if n > 0 {
      FactorialPositive(n - 1);
      MulPositive(n, Factorial(n - 1));
    }
  }

  /** The least divisor of at least 2 is prime. */
  lemma LeastDivisor(m: nat) returns (p: nat)
    requires m >= 2
    ensures IsPrime(p) && m % p == 0 && p <= m
  {
    p := 2;
    ModSelf(m);
    while m % p != 0
      invariant 2 <= p <= m
      invariant forall d | 2 <= d < p :: m % d != 0
      decreases m - p
    {
      p := p + 1;
    }
    forall d | 2 <= d < p
      ensures p % d != 0
    {
      if p % d == 0 {
        DivisibleTransitive(m, p, d);
      }
    }
  }

  lemma ModSelf(m: nat)
    requires m > 0
    ensures m % m == 0
  {
    DivModUnique(m, m, 1, 0);
  }

  lemma DivisibleTransitive(m: nat, p: nat, d: nat)
    requires p > 0 && d > 0 && m % p == 0 && p % d == 0
    ensures m % d == 0
  {
    var a, b := m / p, p / d;
    assert m == a * p && p == b * d;
    assert m == (a * b) * d;
    DivModUnique(m, d, a * b, 0);
  }

  /** Some prime is at least c. */
  lemma LargerPrime(c: nat) returns (p: nat)
    ensures IsPrime(p) && p >= c
  {
    FactorialPositive(c);
    var m := Factorial(c) + 1;
    p := LeastDivisor(m);
    if p < c {
      FactorialDivisible(c, p);
      SumModulo(Factorial(c), 0, 1, 1, p);
      ModSmall(0, p);
      ModSmall(1, p);
      assert false;
    }
  }
}
