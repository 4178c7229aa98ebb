/** Windowed modular exponentiation and unrolled squaring
    (crates/vdf/src/montgomery_simple.rs). */
module SlidingWindow {
  import opened ModArith
  import opened Vdf

  const WINDOW_SIZE: nat := 4
  const TABLE_SIZE: nat := 8

  // ----- bits

  function BitLength(e: nat): nat {
    if e == 0 then 0 else 1 + BitLength(e / 2)
  }

  function Bit(e: nat, i: nat): bool {
    Shr(i, e) % 2 == 1
  }

  /** Nothing is left above the bit length, and the top bit is set. */
  lemma {:induction false} BitLengthBounds(e: nat)
    ensures Shr(BitLength(e), e) == 0
    ensures e > 0 ==> Shr(BitLength(e) - 1, e) == 1
  {
    if e > 0 {
      BitLengthBounds(e / 2);
      ShrNext(BitLength(e / 2), e);
      if BitLength(e / 2) > 0 {
        ShrNext(BitLength(e / 2) - 1, e);
      }
    }
  }

  // ----- squaring

  method SequentialSquaring(n: Modulus, base: nat, iterations: nat) returns (result: nat)
    ensures result == Sequential(n, base, iterations)
  {
    if iterations == 0 {
      return base;
    }
    result := base % n;
    SquareOnce(n, base, 0);
    if iterations <= 16 {
      for i := 0 to iterations
        invariant result == Squared(n, base, i)
      {
        result := ModSquare(n, result, base, i);
      }
    } else {
      var fullChunks, remainder := iterations / 8, iterations % 8;
      for c := 0 to fullChunks
        invariant result == Squared(n, base, 8 * c)
      {
        result := ModSquare(n, result, base, 8 * c);
        result := ModSquare(n, result, base, 8 * c + 1);
        result := ModSquare(n, result, base, 8 * c + 2);
        result := ModSquare(n, result, base, 8 * c + 3);
        result := ModSquare(n, result, base, 8 * c + 4);
        result := ModSquare(n, result, base, 8 * c + 5);
        result := ModSquare(n, result, base, 8 * c + 6);
        result := ModSquare(n, result, base, 8 * c + 7);
      }
      for i := 0 to remainder
        invariant result == Squared(n, base, 8 * fullChunks + i)
      {
        result := ModSquare(n, result, base, 8 * fullChunks + i);
      }
    }
  }

  /** The value after i squarings of the reduced base. */
  function Squared(n: nat, base: nat, i: nat): nat
    requires n > 0
  {
    ModPow(base, Pow(2, i), n)
  }

  lemma SquareOnce(n: nat, base: nat, i: nat)
    requires n > 0
    ensures Squared(n, base, i) * Squared(n, base, i) % n == Squared(n, base, i + 1)
    ensures Squared(n, base, 0) == base % n
  {
    ModPowAdd(base, Pow(2, i), Pow(2, i), n);
    PowOne(base);
  }

  /** `mod_square`, applied to the value after i squarings. */
  method ModSquare(n: nat, x: nat, ghost base: nat, ghost i: nat) returns (r: nat)
    requires n > 0 && x == Squared(n, base, i)
    ensures r == Squared(n, base, i + 1)
  {
    SquareOnce(n, base, i);
    r := x * x % n;
  }

  // ----- exponentiation

  /** The exponentiation is right for every base, exponent and modulus except
      the zero exponent modulo 1, where it answers 1. */
  method ModularPower(n: nat, base: nat, exponent: nat) returns (r: nat)
    requires n > 0
    ensures r == ModPow(base, exponent, n) <==> !(n == 1 && exponent == 0)
  {
    if exponent == 0 {
      if n > 1 {
        ModSmall(1, n);
      }
      return 1;
    }
    if exponent == 1 {
      PowOne(base);
      return base % n;
    }
    if BitLength(exponent) <= 16 {
      r := SmallPower(n, base, exponent);
    } else {
      r := SlidingWindowPower(n, base, exponent);
    }
  }

  method SmallPower(n: nat, base: nat, exponent: nat) returns (result: nat)
    requires n > 0 && exponent > 0
    ensures result == ModPow(base, exponent, n)
  {
    result := 1;
    var basePower: nat, exp: nat := base % n, exponent;
    PowModBase(base, exponent, n);
    while exp > 0
      invariant exp == 0 ==> result == ModPow(base, exponent, n)
      invariant exp > 0 ==> result * Pow(basePower, exp) % n == ModPow(base, exponent, n)
    {
      BinaryStep(result, basePower, exp, n);
      if exp % 2 == 1 {
        result := result * basePower % n;
      }
      exp := exp / 2;
      if exp > 0 {
        basePower := basePower * basePower % n;
      } else {
        ModSmall(result, n);
      }
    }
  }

  /** Odd powers of the base: entry i holds base^(2i+1). */
  method OddPowers(n: nat, base: nat) returns (table: array<nat>)
    requires n > 0
    ensures fresh(table) && table.Length == TABLE_SIZE
    ensures forall i | 0 <= i < TABLE_SIZE :: table[i] == ModPow(base, 2 * i + 1, n)
  {
    table := new nat[TABLE_SIZE](_ => 1);
    PowOne(base);
    table[0] := base % n;
    var squared := table[0] * table[0] % n;
    ModPowAdd(base, 1, 1, n);
    for i := 1 to TABLE_SIZE
      invariant forall k | 0 <= k < i :: table[k] == ModPow(base, 2 * k + 1, n)
    {
      ModPowAdd(base, 2 * (i - 1) + 1, 2, n);
      table[i] := table[i - 1] * squared % n;
    }
  }

  /** The bits of the exponent in [i - size, i) form the window. */
  ghost predicate IsWindow(e: nat, i: nat, window: nat, size: nat) {
    && 1 <= size <= i
    && Shr(i - size, e) == Shr(i, e) * Pow(2, size) + window
    && Pow(2, size - 1) <= window < Pow(2, size)
  }

  lemma WindowStart(e: nat, i: nat)
    requires i > 0 && Bit(e, i - 1)
    ensures IsWindow(e, i, 1, 1)
  {
    hide Shr;
    ShrNext(i - 1, e);
    assert Pow(2, 1) == 2 * Pow(2, 0) == 2;
  }

  lemma WindowGrow(e: nat, i: nat, window: nat, size: nat)
    requires IsWindow(e, i, window, size) && i > size
    ensures IsWindow(e, i, 2 * window + (if Bit(e, i - size - 1) then 1 else 0), size + 1)
  {
    hide Shr;
    var p := Pow(2, size);
    assert Shr(i, e) * (2 * p) == 2 * (Shr(i, e) * p);
    assert Pow(2, size + 1) == 2 * p && Pow(2, size) == 2 * Pow(2, size - 1);
    ShrNext(i - size - 1, e);
  }

  lemma WindowShrink(e: nat, i: nat, window: nat, size: nat)
    requires IsWindow(e, i, window, size) && window % 2 == 0
    ensures size > 1 && IsWindow(e, i, window / 2, size - 1)
  {
    hide Shr;
    assert Pow(2, 0) == 1;
    var p := Pow(2, size - 1);
    assert Shr(i, e) * (2 * p) == 2 * (Shr(i, e) * p);
    ShrNext(i - size, e);
    assert Pow(2, size - 1) == 2 * Pow(2, size - 2);
  }

  /** Appending an odd window to the exponent: square once per bit, then
      multiply by the tabulated power. */
  lemma WindowStep(n: nat, base: nat, e: nat, i: nat, window: nat, size: nat, squared: nat)
    requires n > 0 && IsWindow(e, i, window, size)
    requires squared % n == ModPow(base, Shr(i, e) * Pow(2, size), n)
    ensures squared * ModPow(base, window, n) % n == ModPow(base, Shr(i - size, e), n)
    ensures squared * ModPow(base, window, n) % n % n == ModPow(base, Shr(i - size, e), n)
  {
    hide Shr;
    var t := ModPow(base, window, n);
    ModMulLeft(squared, t, n);
    ModPowAdd(base, Shr(i, e) * Pow(2, size), window, n);
    ModSmall(squared * t % n, n);
  }

  lemma ZeroBitStep(n: nat, base: nat, e: nat, i: nat, result: nat)
    requires n > 0 && i > 0 && !Bit(e, i - 1)
    requires result % n == ModPow(base, Shr(i, e), n)
    ensures result * result % n == ModPow(base, Shr(i - 1, e), n)
    ensures result * result % n % n == ModPow(base, Shr(i - 1, e), n)
  {
    hide Shr;
    hide Pow;
    ShrNext(i - 1, e);
    ModMul(result, result, n);
    ModPowAdd(base, Shr(i, e), Shr(i, e), n);
    ModSmall(result * result % n, n);
  }

  /** The window found at a set bit is odd and indexes inside the table. */
  method FindWindow(e: nat, i: nat) returns (window: nat, size: nat)
    requires i > 0 && Bit(e, i - 1)
    ensures IsWindow(e, i, window, size) && size <= WINDOW_SIZE
    ensures window / 2 < TABLE_SIZE && 2 * (window / 2) + 1 == window
  {
    window, size := 1, 1;
    WindowStart(e, i);
    while size < WINDOW_SIZE && i > size
      invariant size <= WINDOW_SIZE && IsWindow(e, i, window, size)
    {
      WindowGrow(e, i, window, size);
      window := 2 * window;
      if Bit(e, i - size - 1) {
        window := window + 1;
      }
      size := size + 1;
    }
    while window % 2 == 0
      invariant size <= WINDOW_SIZE && IsWindow(e, i, window, size)
      decreases window
    {
      WindowShrink(e, i, window, size);
      window := window / 2;
      size := size - 1;
    }
    WindowIndexes(e, i, window, size);
  }

  method SlidingWindowPower(n: nat, base: nat, exponent: nat) returns (result: nat)
    requires n > 0 && exponent > 0
    ensures result == ModPow(base, exponent, n)
  {
    var table := OddPowers(n, base);
    result := 1;
    var i := BitLength(exponent);
    BitLengthBounds(exponent);
    while i > 0
      invariant 0 <= i <= BitLength(exponent)
      invariant result % n == ModPow(base, Shr(i, exponent), n)
      invariant i < BitLength(exponent) ==> result == ModPow(base, Shr(i, exponent), n)
      invariant forall k | 0 <= k < TABLE_SIZE :: table[k] == ModPow(base, 2 * k + 1, n)
    {
      if Bit(exponent, i - 1) {
        var window, size := FindWindow(exponent, i);
        result := SquareTimes(n, base, Shr(i, exponent), result, size);
        var index := window / 2;
        if index < table.Length {
          WindowStep(n, base, exponent, i, window, size, result);
          result := result * table[index] % n;
        }
        i := i - size;
      } else {
        ZeroBitStep(n, base, exponent, i, result);
        result := result * result % n;
        i := i - 1;
      }
    }
  }

  /** An odd window of at most four bits always indexes inside the table. */
  lemma WindowIndexes(e: nat, i: nat, window: nat, size: nat)
    requires IsWindow(e, i, window, size) && size <= WINDOW_SIZE && window % 2 == 1
    ensures window / 2 < TABLE_SIZE && 2 * (window / 2) + 1 == window
  {
    if size < WINDOW_SIZE {
      PowStrictlyMonotone(2, size, WINDOW_SIZE);
    }
    assert Pow(2, 4) == 16;
  }

  method SquareTimes(n: nat, base: nat, e: nat, start: nat, size: nat) returns (result: nat)
    requires n > 0 && start % n == ModPow(base, e, n)
    ensures result % n == ModPow(base, e * Pow(2, size), n)
  {
    result := start;
    for k := 0 to size
      invariant result % n == ModPow(base, e * Pow(2, k), n)
    {
      ModMul(result, result, n);
      ModPowAdd(base, e * Pow(2, k), e * Pow(2, k), n);
      assert e * Pow(2, k + 1) == e * Pow(2, k) + e * Pow(2, k);
      result := result * result % n;
      ModSmall(result, n);
    }
  }
}
