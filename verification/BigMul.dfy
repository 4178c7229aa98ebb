/** 2048-bit modular multiplication with 64-bit limbs
    (demo/contracts/src/BigMulMod.sol). */
module BigMul {
  import opened ModArith
  import opened Words

  /** The value of little-endian limbs. */
  function LimbValue(s: seq<nat>): nat {
    if s == [] then 0 else s[0] + LIMB * LimbValue(s[1..])
  }

  lemma {:induction false} LimbConcat(s: seq<nat>, t: seq<nat>)
    ensures LimbValue(s + t) == LimbValue(s) + Pow(LIMB, |s|) * LimbValue(t)
  {
    if s == [] {
      assert s + t == t;
    } else {
      LimbConcat(s[1..], t);
      assert (s + t)[1..] == s[1..] + t;
      MulAssoc(LIMB, Pow(LIMB, |s| - 1), LimbValue(t));
      assert LIMB * (LimbValue(s[1..]) + Pow(LIMB, |s| - 1) * LimbValue(t))
          == LIMB * LimbValue(s[1..]) + LIMB * (Pow(LIMB, |s| - 1) * LimbValue(t));
    }
  }

  lemma LimbSingle(x: nat)
    ensures LimbValue([x]) == x
  {
    assert [x][1..] == [];
  }

  lemma LimbAppend(s: seq<nat>, x: nat)
    ensures LimbValue(s + [x]) == LimbValue(s) + x * Pow(LIMB, |s|)
  {
    LimbConcat(s, [x]);
    LimbSingle(x);
    MulCommutes(x, Pow(LIMB, |s|));
  }

  lemma MulCommutes(a: int, b: int)
    ensures a * b == b * a
  {}

  lemma {:induction false} LimbUpdate(s: seq<nat>, k: nat, d: nat)
    requires k < |s|
    ensures LimbValue(s[k := s[k] + d]) == LimbValue(s) + d * Pow(LIMB, k)
  {
    if k > 0 {
      LimbUpdate(s[1..], k - 1, d);
      assert s[k := s[k] + d][1..] == s[1..][k - 1 := s[k] + d];
      var p := Pow(LIMB, k - 1);
      assert LIMB * (LimbValue(s[1..]) + d * p) == LIMB * LimbValue(s[1..]) + d * (LIMB * p);
    } else {
      assert s[0 := s[0] + d][1..] == s[1..];
    }
  }

  lemma {:induction false} LimbZeros(s: seq<nat>)
    requires forall i | 0 <= i < |s| :: s[i] == 0
    ensures LimbValue(s) == 0
  {
    if s != [] {
      LimbZeros(s[1..]);
    }
  }

  /** Splitting a word into four limbs loses nothing. */
  function FourLimbs(w: nat): seq<nat> {
    [And(w, MASK), And(Shr(64, w), MASK), And(Shr(128, w), MASK), And(Shr(192, w), MASK)]
  }

  lemma FourLimbsAre(w: nat)
    ensures FourLimbs(w) == [w % LIMB, w / LIMB % LIMB, w / LIMB / LIMB % LIMB, w / LIMB / LIMB / LIMB % LIMB]
  {
    ShiftByLimbs(w);
    AndMask(w);
    AndMask(Shr(64, w));
    AndMask(Shr(128, w));
    AndMask(Shr(192, w));
  }

  lemma FourLimbsValue(w: nat)
    requires w < WORD
    ensures LimbValue(FourLimbs(w)) == w
    ensures forall i | 0 <= i < 4 :: FourLimbs(w)[i] < LIMB
  {
    FourLimbsAre(w);
    FourDigits(w);
    var x1 := w / LIMB;
    var x2 := x1 / LIMB;
    FourLimbsSum(w % LIMB, x1 % LIMB, x2 % LIMB, x2 / LIMB);
  }

  /** The base-LIMB digits of a word. */
  lemma FourDigits(w: nat)
    requires w < WORD
    ensures var x1 := w / LIMB; var x2 := x1 / LIMB; var x3 := x2 / LIMB;
            w == w % LIMB + LIMB * (x1 % LIMB + LIMB * (x2 % LIMB + LIMB * x3)) && x3 % LIMB == x3
  {
    TopLimb(w);
  }

  lemma FourLimbsSum(a: nat, b: nat, c: nat, d: nat)
    ensures LimbValue([a, b, c, d]) == a + LIMB * (b + LIMB * (c + LIMB * d))
  {
    assert [a, b, c, d][1..] == [b, c, d];
    assert [b, c, d][1..] == [c, d];
    assert [c, d][1..] == [d];
    LimbSingle(d);
    assert LimbValue([c, d]) == c + LIMB * d;
    assert LimbValue([b, c, d]) == b + LIMB * (c + LIMB * d);
  }

  lemma ShiftByLimbs(w: nat)
    ensures Shr(64, w) == w / LIMB && Shr(128, w) == w / LIMB / LIMB && Shr(192, w) == w / LIMB / LIMB / LIMB
  {
    LimbIsPower();
    PowAdd(2, 64, 64);
    PowAdd(2, 128, 64);
    DivDiv(w, LIMB, LIMB);
    DivDiv(w, LIMB * LIMB, LIMB);
  }

  lemma TopLimb(w: nat)
    requires w < WORD
    ensures w / LIMB / LIMB / LIMB < LIMB
  {}

  /** 256^(32k) and LIMB^(4k) are the same place value. */
  lemma PlaceValue(k: nat)
    ensures Pow(256, 32 * k) == Pow(LIMB, 4 * k)
  {
    LimbIsPower();
    PowMul(256, 8, 4 * k);
  }

  /** Write the four limbs of one word, least significant first. */
  method SplitWord(w: nat, limbs: array<nat>, at: nat)
    requires w < WORD && at + 4 <= limbs.Length
    modifies limbs
    ensures limbs[..] == old(limbs[..at]) + FourLimbs(w) + old(limbs[at + 4..])
  {
    limbs[at] := And(w, MASK);
    limbs[at + 1] := And(Shr(64, w), MASK);
    limbs[at + 2] := And(Shr(128, w), MASK);
    limbs[at + 3] := And(Shr(192, w), MASK);
    assert limbs[at..at + 4] == FourLimbs(w);
    assert limbs[..] == limbs[..at] + limbs[at..at + 4] + limbs[at + 4..];
  }

  /** The last k words of the operand have been split into the first 4k limbs. */
  ghost predicate Split(a: seq<Byte>, limbs: seq<nat>, k: nat) {
    && |a| == 256 && |limbs| == 32 && k <= 8
    && LimbValue(limbs[..4 * k]) == Value(a[32 * (8 - k)..])
    && forall i | 0 <= i < 32 :: limbs[i] < LIMB
  }

  /** Split a 256-byte operand into 32 little-endian limbs. */
  method SplitLimbs(a: seq<Byte>) returns (limbs: array<nat>)
    requires |a| == 256
    ensures fresh(limbs) && limbs.Length == 32
    ensures LimbValue(limbs[..]) == Value(a)
    ensures forall i | 0 <= i < 32 :: limbs[i] < LIMB
  {
    limbs := new nat[32](_ => 0);
    assert a[256..] == [] && limbs[..0] == [];
    for k := 0 to 8
      invariant Split(a, limbs[..], k)
    {
      var w := Load(a, 32 * (7 - k));
      LoadFits(a, 32 * (7 - k));
      ghost var before := limbs[..];
      SplitWord(w, limbs, 4 * k);
      SplitStep(a, before, limbs[..], k, w);
    }
    assert limbs[..][..32] == limbs[..];
    assert a[0..] == a;
  }

  lemma LoadFits(a: seq<Byte>, offset: nat)
    requires offset + 32 <= |a|
    ensures Load(a, offset) < WORD
  {
    WordIsPower();
    ValueBound(a[offset..offset + 32]);
  }

  lemma SplitStep(a: seq<Byte>, limbs: seq<nat>, limbs': seq<nat>, k: nat, w: nat)
    requires k < 8 && Split(a, limbs, k)
    requires w == Load(a, 32 * (7 - k)) && w < WORD
    requires limbs' == limbs[..4 * k] + FourLimbs(w) + limbs[4 * k + 4..]
    ensures Split(a, limbs', k + 1)
  {
    var word, rest := a[32 * (7 - k)..32 * (7 - k) + 32], a[32 * (8 - k)..];
    FourLimbsValue(w);
    assert a[32 * (8 - (k + 1))..] == word + rest;
    assert limbs'[..4 * (k + 1)] == limbs[..4 * k] + FourLimbs(w);
    SplitValue(word, rest, limbs[..4 * k], FourLimbs(w), k);
  }

  lemma SplitValue(word: seq<Byte>, rest: seq<Byte>, low: seq<nat>, four: seq<nat>, k: nat)
    requires |rest| == 32 * k && |low| == 4 * k
    requires LimbValue(low) == Value(rest) && LimbValue(four) == Value(word)
    ensures LimbValue(low + four) == Value(word + rest)
  {
    ValueConcat(word, rest);
    LimbConcat(low, four);
    PlaceValue(k);
    MulCommutes(Pow(LIMB, 4 * k), Value(word));
  }

  // ----- columns

  /** The largest product of two limbs. */
  const SQUARE: nat := MASK * MASK

  /** 2^133 bounds every column and 2^192 every carry. */
  const COLUMN_LIMIT: nat := 0x20_0000_0000_0000_0000_0000_0000_0000_0000
  const CARRY_LIMIT: nat := 0x1_0000_0000_0000_0000_0000_0000_0000_0000_0000_0000_0000_0000

  /** The column bound the contract relies on: 32 products stay below 2^133. */
  lemma ColumnBound()
    ensures 32 * SQUARE < COLUMN_LIMIT == Pow(2, 133)
    ensures CARRY_LIMIT == Pow(2, 192)
  {
    LimbIsPower();
    PowAdd(2, 64, 64);
    PowAdd(2, 128, 5);
    PowAdd(2, 128, 64);
    assert Pow(2, 5) == 32;
  }

  lemma LimbProduct(x: nat, y: nat)
    requires x < LIMB && y < LIMB
    ensures x * y <= SQUARE
  {
    MulMonotone(x, MASK, y);
    MulMonotone(y, MASK, MASK);
  }

  method Columns(aL: array<nat>, bL: array<nat>) returns (col: array<nat>)
    requires aL.Length == 32 && bL.Length == 32
    requires forall i | 0 <= i < 32 :: aL[i] < LIMB && bL[i] < LIMB
    ensures fresh(col) && col.Length == 64
    ensures LimbValue(col[..]) == LimbValue(aL[..]) * LimbValue(bL[..])
    ensures forall k | 0 <= k < 64 :: col[k] < COLUMN_LIMIT
  {
    ColumnBound();
    col := new nat[64](_ => 0);
    LimbZeros(col[..]);
    for i := 0 to 32
      invariant LimbValue(col[..]) == LimbValue(aL[..i]) * LimbValue(bL[..])
      invariant forall k | 0 <= k < 64 :: col[k] <= i * SQUARE
    {
      AddRow(aL[i], bL, col, i);
      assert aL[..i + 1] == aL[..i] + [aL[i]];
      RowStep(aL[..i], aL[i], bL[..]);
    }
    assert aL[..32] == aL[..];
  }

  lemma RowStep(low: seq<nat>, ai: nat, b: seq<nat>)
    ensures LimbValue(low + [ai]) * LimbValue(b)
         == LimbValue(low) * LimbValue(b) + ai * Pow(LIMB, |low|) * LimbValue(b)
  {
    LimbAppend(low, ai);
    Distribute(LimbValue(low), ai * Pow(LIMB, |low|), LimbValue(b));
  }

  /** The inner loop: add ai * b into the columns from i up. */
  method AddRow(ai: nat, bL: array<nat>, col: array<nat>, i: nat)
    requires bL.Length == 32 && col.Length == 64 && col != bL && i < 32
    requires ai < LIMB && forall j | 0 <= j < 32 :: bL[j] < LIMB
    requires forall k | 0 <= k < 64 :: col[k] <= i * SQUARE
    modifies col
    ensures LimbValue(col[..]) == old(LimbValue(col[..])) + ai * Pow(LIMB, i) * LimbValue(bL[..])
    ensures forall k | 0 <= k < 64 :: col[k] <= (i + 1) * SQUARE
  {
    ghost var start := LimbValue(col[..]);
    for j := 0 to 32
      invariant LimbValue(col[..]) == start + ai * Pow(LIMB, i) * LimbValue(bL[..j])
      invariant forall k | 0 <= k < 64 :: col[k] <= if i <= k < i + j then (i + 1) * SQUARE else i * SQUARE
    {
      AddProduct(col, i + j, ai, bL[j], i);
      assert bL[..j + 1] == bL[..j] + [bL[j]];
      ColumnStep(bL[..j], ai, bL[j], i);
    }
    assert bL[..32] == bL[..];
  }

  /** Accumulate one product of limbs; neither operation wraps. */
  method AddProduct(col: array<nat>, k: nat, x: nat, y: nat, ghost i: nat)
    requires k < col.Length && x < LIMB && y < LIMB && i < 32 && col[k] <= i * SQUARE
    modifies col
    ensures col[..] == old(col[..])[k := old(col[k]) + x * y]
    ensures col[k] <= (i + 1) * SQUARE
    ensures LimbValue(col[..]) == old(LimbValue(col[..])) + x * y * Pow(LIMB, k)
  {
    LimbProduct(x, y);
    NoOverflow(col[k], x, y, i);
    LimbUpdate(col[..], k, x * y);
    col[k] := Add(col[k], Mul(x, y));
  }

  lemma NoOverflow(c: nat, x: nat, y: nat, i: nat)
    requires i < 32 && c <= i * SQUARE && x * y <= SQUARE
    ensures Add(c, Mul(x, y)) == c + x * y
  {
    MulMonotone(i + 1, 32, SQUARE);
  }

  lemma ColumnStep(low: seq<nat>, ai: nat, bj: nat, i: nat)
    ensures ai * Pow(LIMB, i) * LimbValue(low + [bj])
         == ai * Pow(LIMB, i) * LimbValue(low) + ai * bj * Pow(LIMB, i + |low|)
  {
    LimbAppend(low, bj);
    PowAdd(LIMB, i, |low|);
    MulSwap(ai, Pow(LIMB, i), bj, Pow(LIMB, |low|));
    DistributeLeft(ai * Pow(LIMB, i), LimbValue(low), bj * Pow(LIMB, |low|));
  }

  // ----- carry propagation and packing

  /** s columns from `at` up, plus the incoming carry, are held by the partial
      word and the outgoing carry. */
  ghost predicate Packed(col: seq<nat>, at: nat, s: nat, word: nat, carry: nat, carryIn: nat) {
    && at + s <= |col|
    && word < Pow(LIMB, s) && carry < CARRY_LIMIT
    && word + carry * Pow(LIMB, s) == LimbValue(col[at..at + s]) + carryIn
  }

  lemma PackStep(col: seq<nat>, at: nat, s: nat, word: nat, carry: nat, carryIn: nat)
    requires s < 4 && at + s < |col| && col[at + s] < COLUMN_LIMIT
    requires Packed(col, at, s, word, carry, carryIn)
    ensures var v := Add(col[at + s], carry);
            Packed(col, at, s + 1, Or(word, Shl(64 * s, And(v, MASK))), Shr(64, v), carryIn)
  {
    var c := col[at + s];
    CarryStep(c, carry, word, s);
    assert col[at..at + s + 1] == col[at..at + s] + [c];
    LimbAppend(col[at..at + s], c);
    Distribute(c, carry, Pow(LIMB, s));
  }

  lemma PackStart(col: seq<nat>, at: nat, carryIn: nat)
    requires at <= |col| && carryIn < CARRY_LIMIT
    ensures Packed(col, at, 0, 0, carryIn, carryIn)
  {
    assert col[at..at] == [];
  }

  /** Four columns and the incoming carry become one output word and the
      outgoing carry. */
  method PackWord(col: array<nat>, m: nat, carryIn: nat) returns (word: nat, carry: nat)
    requires col.Length == 64 && m < 16
    requires forall k | 0 <= k < 64 :: col[k] < COLUMN_LIMIT
    requires carryIn < CARRY_LIMIT
    ensures Packed(col[..], 4 * m, 4, word, carry, carryIn)
  {
    word, carry := 0, carryIn;
    PackStart(col[..], 4 * m, carryIn);
    for s := 0 to 4
      invariant Packed(col[..], 4 * m, s, word, carry, carryIn)
    {
      var kk := 4 * m + s;
      PackStep(col[..], 4 * m, s, word, carry, carryIn);
      var v := Add(col[kk], carry);
      word := Or(word, Shl(64 * s, And(v, MASK)));
      carry := Shr(64, v);
    }
  }

  lemma CarryStep(c: nat, carry: nat, word: nat, s: nat)
    requires c < COLUMN_LIMIT && carry < CARRY_LIMIT && s < 4 && word < Pow(LIMB, s)
    ensures var v := Add(c, carry);
            var word' := Or(word, Shl(64 * s, And(v, MASK)));
            word' < Pow(LIMB, s + 1) && Shr(64, v) < CARRY_LIMIT &&
            word' + Shr(64, v) * Pow(LIMB, s + 1) == word + (c + carry) * Pow(LIMB, s)
  {
    NoCarryOverflow(c, carry);
    InsertLimb(word, c + carry, s);
    ShiftByLimbs(c + carry);
    SplitAtLimb(c + carry, Pow(LIMB, s));
  }

  /** Or-ing the low limb of v into place s of a word below it. */
  lemma InsertLimb(word: nat, v: nat, s: nat)
    requires s < 4 && word < Pow(LIMB, s)
    ensures Or(word, Shl(64 * s, And(v, MASK))) == word + v % LIMB * Pow(LIMB, s) < Pow(LIMB, s + 1)
  {
    AndMask(v);
    LimbIsPower();
    PowMul(2, 64, s);
    var p := Pow(LIMB, s);
    LimbBelow(v % LIMB, p);
    LimbPowerFits(s);
    ModSmall(v % LIMB * p, WORD);
    OrDisjoint(word, v % LIMB, 64 * s);
  }

  lemma LimbBelow(lo: nat, p: nat)
    requires lo < LIMB
    ensures lo * p + p <= LIMB * p
  {
    MulMonotone(lo + 1, LIMB, p);
  }

  lemma SplitAtLimb(v: nat, p: nat)
    ensures v % LIMB * p + v / LIMB * (LIMB * p) == v * p
  {
    var lo, hi := v % LIMB, v / LIMB;
    assert v == hi * LIMB + lo;
    MulAssoc(hi, LIMB, p);
    assert (hi * LIMB + lo) * p == (hi * LIMB) * p + lo * p;
  }

  lemma LimbPowerFits(s: nat)
    requires s < 4
    ensures LIMB * Pow(LIMB, s) <= WORD
  {
    WordIsPower();
    if s + 1 < 4 {
      PowStrictlyMonotone(LIMB, s + 1, 4);
    }
  }

  lemma NoCarryOverflow(c: nat, carry: nat)
    requires c < COLUMN_LIMIT && carry < CARRY_LIMIT
    ensures Add(c, carry) == c + carry < WORD
    ensures Shr(64, c + carry) < CARRY_LIMIT
  {
    LimbIsPower();
  }

  /** The last m words of the output, plus the carry, hold the first 4m columns. */
  ghost predicate Stored(cols: seq<nat>, out: seq<Byte>, m: nat, carry: nat) {
    && |cols| == 64 && |out| == 512 && m <= 16
    && Value(out[512 - 32 * m..]) + carry * Pow(LIMB, 4 * m) == LimbValue(cols[..4 * m])
  }

  lemma StoredStart(cols: seq<nat>, out: seq<Byte>)
    requires |cols| == 64 && |out| == 512
    ensures Stored(cols, out, 0, 0)
  {
    assert out[512..] == [] && cols[..0] == [];
  }

  lemma StoreStep(cols: seq<nat>, out: seq<Byte>, out': seq<Byte>, m: nat, word: nat, carryIn: nat, carry: nat)
    requires m < 16 && Stored(cols, out, m, carryIn) && Packed(cols, 4 * m, 4, word, carry, carryIn)
    requires out' == out[..32 * (15 - m)] + ToBytes(word, 32) + out[32 * (15 - m) + 32..]
    ensures Stored(cols, out', m + 1, carry)
  {
    var suffix := out[512 - 32 * m..];
    assert out'[512 - 32 * (m + 1)..] == ToBytes(word, 32) + suffix;
    assert cols[..4 * (m + 1)] == cols[..4 * m] + cols[4 * m..4 * m + 4];
    StoredValue(suffix, cols[..4 * m], cols[4 * m..4 * m + 4], m, word, carryIn, carry);
  }

  lemma StoredValue(suffix: seq<Byte>, low: seq<nat>, four: seq<nat>, m: nat, word: nat, carryIn: nat, carry: nat)
    requires |suffix| == 32 * m && |low| == 4 * m && word < Pow(LIMB, 4)
    requires Value(suffix) + carryIn * Pow(LIMB, 4 * m) == LimbValue(low)
    requires word + carry * Pow(LIMB, 4) == LimbValue(four) + carryIn
    ensures Value(ToBytes(word, 32) + suffix) + carry * Pow(LIMB, 4 * m + 4) == LimbValue(low + four)
  {
    ValueConcat(ToBytes(word, 32), suffix);
    WordIsPower();
    ValueOfToBytes(word, 32);
    PlaceValue(m);
    PowAdd(LIMB, 4 * m, 4);
    LimbConcat(low, four);
    StoreAlgebra(Pow(LIMB, 4 * m), word, carryIn, carry, Pow(LIMB, 4), LimbValue(four));
  }

  lemma StoreAlgebra(p: nat, word: nat, carryIn: nat, carry: nat, w: nat, four: nat)
    requires word + carry * w == four + carryIn
    ensures word * p + carry * (p * w) == p * four + carryIn * p
  {
    assert (word + carry * w) * p == word * p + carry * (p * w);
    assert (four + carryIn) * p == p * four + carryIn * p;
  }

  /** The carry loop: sixteen output words, most significant first. */
  method PackColumns(col: array<nat>) returns (product: array<Byte>, carry: nat)
    requires col.Length == 64 && forall k | 0 <= k < 64 :: col[k] < COLUMN_LIMIT
    ensures fresh(product) && Stored(col[..], product[..], 16, carry)
  {
    product := new Byte[512](_ => 0);
    carry := 0;
    StoredStart(col[..], product[..]);
    for m := 0 to 16
      invariant carry < CARRY_LIMIT
      invariant Stored(col[..], product[..], m, carry)
    {
      ghost var before := product[..];
      ghost var carryIn := carry;
      var word;
      word, carry := PackWord(col, m, carry);
      Store(product, 32 * (15 - m), word);
      StoreStep(col[..], before, product[..], m, word, carryIn, carry);
    }
  }

  /** `_mul256x256`: the 512-byte product is exact for all operands, and no carry
      is left over. */
  method Mul256x256(a: seq<Byte>, b: seq<Byte>) returns (product: array<Byte>)
    requires |a| == 256 && |b| == 256
    ensures fresh(product) && product.Length == 512
    ensures Value(product[..]) == Value(a) * Value(b)
  {
    var aL := SplitLimbs(a);
    var bL := SplitLimbs(b);
    var col := Columns(aL, bL);
    var carry;
    product, carry := PackColumns(col);
    AllStored(a, b, col[..], product[..], |a| / 16, carry);
  }

  /** The product of two values of 16m bytes fits 4m limbs, so the last carry is
      zero. */
  lemma AllStored(a: seq<Byte>, b: seq<Byte>, cols: seq<nat>, out: seq<Byte>, m: nat, carry: nat)
    requires |a| == |b| == 16 * m && |cols| == 4 * m
    requires Stored(cols, out, m, carry) && LimbValue(cols) == Value(a) * Value(b)
    ensures Value(out) == Value(a) * Value(b) && carry == 0
  {
    assert cols[..4 * m] == cols && out[512 - 32 * m..] == out;
    ValueBound(a);
    ValueBound(b);
    NoFinalCarry(Value(a), Value(b), m, Value(out), carry);
  }

  lemma NoFinalCarry(x: nat, y: nat, m: nat, product: nat, carry: nat)
    requires x < Pow(256, 16 * m) && y < Pow(256, 16 * m)
    requires product + carry * Pow(LIMB, 4 * m) == x * y
    ensures carry == 0
  {
    PowAdd(256, 16 * m, 16 * m);
    PlaceValue(m);
    ProductBelow(x, y, Pow(256, 16 * m));
    if carry > 0 {
      MulMonotone(1, carry, Pow(LIMB, 4 * m));
    }
  }

  lemma ProductBelow(x: nat, y: nat, bound: nat)
    requires x < bound && y < bound
    ensures x * y < bound * bound
  {
    MulMonotone(x, bound, y);
    MulMonotone(y + 1, bound, bound);
  }

  // ----- reduction

  /** The modexp precompile of EIP-198: a zero modulus yields zero. */
  function ModExp(base: nat, exponent: nat, modulus: nat): (r: nat)
    ensures modulus > 0 ==> r < modulus
  {
    if modulus == 0 then 0 else ModPow(base, exponent, modulus)
  }

  /** `_reduce`: exponent 1 makes the precompile a long division. */
  method Reduce(wide: seq<Byte>, n: seq<Byte>) returns (out: seq<Byte>)
    requires |n| == 256
    ensures |out| == 256
    ensures Value(out) == if Value(n) == 0 then 0 else Value(wide) % Value(n)
  {
    out := ToBytes(ModExp(Value(wide), 1, Value(n)), 256);
    PowPositive(256, 256);
    ValueBound(n);
    ValueOfToBytes(ModExp(Value(wide), 1, Value(n)), 256);
    assert Pow(Value(wide), 1) == Value(wide) * Pow(Value(wide), 0);
  }

  /** `mulmod2048`: operands of another length revert. */
  method MulMod2048(a: seq<Byte>, b: seq<Byte>, n: seq<Byte>) returns (reverted: bool, out: seq<Byte>)
    ensures reverted <==> !(|a| == 256 && |b| == 256 && |n| == 256)
    ensures !reverted ==>
              |out| == 256 && Value(out) == if Value(n) == 0 then 0 else Value(a) * Value(b) % Value(n)
  {
    if |a| != 256 || |b| != 256 || |n| != 256 {
      return true, [];
    }
    var product := Mul256x256(a, b);
    out := Reduce(product[..], n);
    reverted := false;
  }
}
