/** Natural powers and residues: the arithmetic under the VDF, the timelock
    and the limb multiplier. */
module ModArith {

  function Pow(b: nat, e: nat): nat {
    if e == 0 then 1 else b * Pow(b, e - 1)
  }

  lemma {:induction false} PowAdd(b: nat, m: nat, n: nat)
    ensures Pow(b, m + n) == Pow(b, m) * Pow(b, n)
  {
    if m > 0 {
      PowAdd(b, m - 1, n);
      MulAssoc(b, Pow(b, m - 1), Pow(b, n));
    }
  }

  lemma {:induction false} PowMul(b: nat, m: nat, n: nat)
    ensures Pow(Pow(b, m), n) == Pow(b, m * n)
  {
    if n > 0 {
      PowMul(b, m, n - 1);
      assert m + m * (n - 1) == m * n;
      PowAdd(b, m, m * (n - 1));
    } else {
      assert m * n == 0;
    }
  }

  lemma {:induction false} PowPositive(b: nat, e: nat)
    requires b > 0
    ensures Pow(b, e) > 0
  {
    if e > 0 {
      PowPositive(b, e - 1);
      MulPositive(b, Pow(b, e - 1));
    }
  }

  /** Doubling the exponent squares the power. */
  lemma PowDouble(b: nat, e: nat)
    ensures Pow(b, 2 * e) == Pow(b, e) * Pow(b, e)
  {
    PowAdd(b, e, e);
  }

  lemma {:induction false} PowStrictlyMonotone(b: nat, m: nat, n: nat)
    requires b > 1 && m < n
    ensures Pow(b, m) < Pow(b, n)
    decreases n
  {
    PowPositive(b, n - 1);
    assert b * Pow(b, n - 1) >= 2 * Pow(b, n - 1) by {
      MulMonotone(2, b, Pow(b, n - 1));
    }
    if m < n - 1 {
      PowStrictlyMonotone(b, m, n - 1);
    }
  }

  // ----- products

  lemma MulAssoc(a: int, b: int, c: int)
    ensures a * (b * c) == (a * b) * c
  {}

  lemma MulSwap(a: int, b: int, c: int, d: int)
    ensures (a * b) * (c * d) == (a * c) * (b * d)
  {
    MulAssoc(a * b, c, d);
    MulAssoc(a * c, b, d);
    assert (a * b) * c == (a * c) * b;
  }

  lemma Distribute(x: int, y: int, z: int)
    ensures (x + y) * z == x * z + y * z
  {}

  lemma DistributeLeft(z: int, x: int, y: int)
    ensures z * (x + y) == z * x + z * y
  {}

  lemma MulPositive(a: int, b: int)
    requires a > 0 && b > 0
    ensures a * b > 0
  {}

  lemma MulMonotone(a: int, b: int, c: int)
    requires a <= b && 0 <= c
    ensures a * c <= b * c
  {}

  // ----- quotients and residues

  /** The quotient and the residue are the only pair with these properties. */
  lemma DivModUnique(x: int, n: int, q: int, r: int)
    requires n > 0 && 0 <= r < n && x == q * n + r
    ensures x / n == q && x % n == r
  {
    var d := x / n - q;
    assert x == (x / n) * n + x % n;
    assert d * n == r - x % n;
    if d >= 1 {
      MulMonotone(1, d, n);
    } else if d <= -1 {
      MulMonotone(d, -1, n);
    }
  }

  lemma ModAddMultiple(a: int, k: int, n: int)
    requires n > 0
    ensures (a + k * n) % n == a % n
    ensures (a + k * n) / n == a / n + k
  {
    assert a + k * n == (a / n + k) * n + a % n;
    DivModUnique(a + k * n, n, a / n + k, a % n);
  }

  lemma ModMulLeft(a: int, b: int, n: int)
    requires n > 0
    ensures (a % n) * b % n == a * b % n
  {
    var q, r := a / n, a % n;
    assert a == q * n + r;
    assert a * b == r * b + (q * b) * n;
    ModAddMultiple(r * b, q * b, n);
  }

  lemma ModMul(a: int, b: int, n: int)
    requires n > 0
    ensures (a % n) * (b % n) % n == a * b % n
  {
    ModMulLeft(a, b % n, n);
    ModMulLeft(b, a, n);
    assert a * (b % n) == (b % n) * a;
    assert a * b == b * a;
  }

  lemma ModSmall(a: int, n: int)
    requires 0 <= a < n
    ensures a % n == a
  {
    DivModUnique(a, n, 0, a);
  }

  /** Reducing the base first does not change a modular power. */
  lemma {:induction false} PowModBase(b: nat, e: nat, n: nat)
    requires n > 0
    ensures Pow(b % n, e) % n == Pow(b, e) % n
  {
    if e > 0 {
      PowModBase(b, e - 1, n);
      var p, p' := Pow(b % n, e - 1), Pow(b, e - 1);
      ModMul(b % n, p, n);
      ModMul(b, p', n);
      ModSmall(b % n, n);
    }
  }

  /** num-bigint's `modpow`: the residue of the power. */
  function ModPow(b: nat, e: nat, n: nat): (r: nat)
    requires n > 0
    ensures r < n
  {
    Pow(b, e) % n
  }

  /** Powers of one base multiply by adding exponents, also modulo n. */
  lemma ModPowAdd(b: nat, d: nat, e: nat, n: nat)
    requires n > 0
    ensures ModPow(b, d, n) * ModPow(b, e, n) % n == ModPow(b, d + e, n)
  {
    ModMul(Pow(b, d), Pow(b, e), n);
    PowAdd(b, d, e);
  }

  /** A power of a residue is the residue of the power. */
  lemma ModPowPow(b: nat, d: nat, e: nat, n: nat)
    requires n > 0
    ensures ModPow(ModPow(b, d, n), e, n) == ModPow(b, d * e, n)
  {
    PowModBase(Pow(b, d), e, n);
    PowMul(b, d, e);
  }

  lemma {:induction false} PowOfProduct(a: nat, b: nat, e: nat)
    ensures Pow(a * b, e) == Pow(a, e) * Pow(b, e)
  {
    if e > 0 {
      PowOfProduct(a, b, e - 1);
      MulSwap(a, b, Pow(a, e - 1), Pow(b, e - 1));
    }
  }

  /** Halving an exponent and restoring its low bit. */
  lemma PowHalf(b: nat, e: nat)
    ensures Pow(b, e) == Pow(b * b, e / 2) * Pow(b, e % 2)
  {
    assert Pow(b, 2) == b * b by { assert Pow(b, 1) == b * Pow(b, 0); }
    PowMul(b, 2, e / 2);
    PowAdd(b, 2 * (e / 2), e % 2);
  }

  /** Dividing twice is dividing by the product. */
  lemma DivDiv(x: nat, m: nat, n: nat)
    requires m > 0 && n > 0
    ensures m * n > 0 && x / m / n == x / (m * n)
  {
    MulPositive(m, n);
    var q, r := x / m, x % m;
    var q2, r2 := q / n, q % n;
    NestedDigits(q2, n, r2, m, r);
    DivModUnique(x, m * n, q2, r2 * m + r);
  }

  // ----- shifts

  /** x >> bits */
  function Shr(bits: nat, x: nat): nat {
    PowPositive(2, bits);
    x / Pow(2, bits)
  }

  /** One more place is one more halving, from either end. */
  lemma ShrNext(bits: nat, x: nat)
    ensures Shr(bits + 1, x) == Shr(bits, x) / 2 == Shr(bits, x / 2)
  {
    PowPositive(2, bits);
    DivDiv(x, Pow(2, bits), 2);
    DivDiv(x, 2, Pow(2, bits));
  }

  lemma NestedDigits(q: nat, n: nat, r: nat, m: nat, s: nat)
    requires r < n && s < m
    ensures (q * n + r) * m + s == q * (m * n) + (r * m + s)
    ensures 0 <= r * m + s < m * n
  {
    MulAssoc(q, n, m);
    assert (q * n + r) * m == (q * n) * m + r * m;
    MulMonotone(r + 1, n, m);
  }
}
