/** 256-bit machine words, the bitwise operations the limb code uses, and
    big-endian byte strings. */
module Words {
  import opened ModArith

  const LIMB: nat := 0x1_0000_0000_0000_0000
  const MASK: nat := 0xffff_ffff_ffff_ffff

  lemma LimbIsPower()
    ensures LIMB == Pow(2, 64) == Pow(256, 8)
  {
    assert Pow(2, 8) == 256;
    PowMul(2, 8, 8);
    PowDouble(2, 8);
    PowDouble(2, 16);
    PowDouble(2, 32);
  }

  /** 2^256, one past the largest word. */
  const WORD: nat := 0x1_0000_0000_0000_0000_0000_0000_0000_0000_0000_0000_0000_0000_0000_0000_0000_0000

  lemma WordIsPower()
    ensures WORD == Pow(2, 256) == Pow(256, 32) == Pow(LIMB, 4)
  {
    LimbIsPower();
    PowMul(2, 64, 4);
    PowMul(256, 8, 4);
    LimbTimesFour();
  }

  lemma LimbTimesFour()
    ensures WORD == Pow(LIMB, 4)
  {
    assert Pow(LIMB, 1) == LIMB * Pow(LIMB, 0);
    assert Pow(LIMB, 2) == LIMB * Pow(LIMB, 1);
    assert Pow(LIMB, 3) == LIMB * Pow(LIMB, 2);
  }

  // ----- wrapping arithmetic

  function Add(x: nat, y: nat): nat { (x + y) % WORD }

  function Mul(x: nat, y: nat): nat { x * y % WORD }

  function Shl(bits: nat, x: nat): nat { x * Pow(2, bits) % WORD }

  // ----- bitwise operations

  function And(x: nat, y: nat): nat {
    if x == 0 || y == 0 then 0
    else (if x % 2 == 1 && y % 2 == 1 then 1 else 0) + 2 * And(x / 2, y / 2)
  }

  function Or(x: nat, y: nat): nat {
    if x == 0 then y
    else if y == 0 then x
    else (if x % 2 == 1 || y % 2 == 1 then 1 else 0) + 2 * Or(x / 2, y / 2)
  }

  /** Masking with k ones takes the residue modulo 2^k. */
  lemma {:induction false} AndOnes(x: nat, k: nat)
    ensures Pow(2, k) > 0 && And(x, Pow(2, k) - 1) == x % Pow(2, k)
  {
    PowPositive(2, k);
    if k == 0 {
      assert x % 1 == 0;
    } else {
      AndOnes(x / 2, k - 1);
      LowBitFirst(x, Pow(2, k - 1));
      if x == 0 {
        DivModUnique(0, Pow(2, k), 0, 0);
      } else {
        OnesHalve(Pow(2, k - 1));
      }
    }
  }

  lemma OnesHalve(p: nat)
    requires p > 0
    ensures 2 * p - 1 > 0 && (2 * p - 1) % 2 == 1 && (2 * p - 1) / 2 == p - 1
  {}

  lemma LowBitFirst(x: nat, p: nat)
    requires p > 0
    ensures x % (2 * p) == 2 * (x / 2 % p) + x % 2
  {
    var q, r := x / 2 / p, x / 2 % p;
    assert x / 2 == q * p + r;
    assert q * (2 * p) == 2 * (q * p);
    DivModUnique(x, 2 * p, q, 2 * r + x % 2);
  }

  lemma AndMask(x: nat)
    ensures And(x, MASK) == x % LIMB
  {
    LimbIsPower();
    AndOnes(x, 64);
  }

  /** Or of values with disjoint bits is their sum. */
  lemma {:induction false} OrDisjoint(x: nat, y: nat, k: nat)
    requires x < Pow(2, k)
    ensures Or(x, y * Pow(2, k)) == x + y * Pow(2, k)
  {
    if k > 0 && x > 0 && y * Pow(2, k) > 0 {
      var h := y * Pow(2, k - 1);
      assert y * Pow(2, k) == 2 * h;
      OrDisjoint(x / 2, y, k - 1);
    }
  }

  // ----- byte strings

  type Byte = b: nat | b < 256

  /** The big-endian value of a byte string. */
  function Value(s: seq<Byte>): nat {
    if s == [] then 0 else Value(s[..|s| - 1]) * 256 + s[|s| - 1]
  }

  lemma {:induction false} ValueConcat(s: seq<Byte>, t: seq<Byte>)
    ensures Value(s + t) == Value(s) * Pow(256, |t|) + Value(t)
  {
    if t == [] {
      assert s + t == s;
    } else {
      var t' := t[..|t| - 1];
      assert (s + t)[..|s + t| - 1] == s + t';
      ValueConcat(s, t');
      ShiftedSum(Value(s), Pow(256, |t'|), Value(t'));
    }
  }

  lemma ShiftedSum(v: nat, p: nat, x: nat)
    ensures (v * p + x) * 256 == v * (256 * p) + x * 256
  {
    MulAssoc(v, p, 256);
  }

  lemma {:induction false} ValueBound(s: seq<Byte>)
    ensures Value(s) < Pow(256, |s|)
  {
    if s != [] {
      ValueBound(s[..|s| - 1]);
    }
  }

  function ToBytes(x: nat, len: nat): (s: seq<Byte>)
    ensures |s| == len
  {
    if len == 0 then [] else ToBytes(x / 256, len - 1) + [x % 256]
  }

  lemma {:induction false} ValueOfToBytes(x: nat, len: nat)
    requires x < Pow(256, len)
    ensures Value(ToBytes(x, len)) == x
  {
    if len > 0 {
      ValueOfToBytes(x / 256, len - 1);
      assert ToBytes(x, len)[..len - 1] == ToBytes(x / 256, len - 1);
    }
  }

  lemma {:induction false} ToBytesOfValue(s: seq<Byte>)
    ensures ToBytes(Value(s), |s|) == s
  {
    if s != [] {
      ToBytesOfValue(s[..|s| - 1]);
      assert s == s[..|s| - 1] + [s[|s| - 1]];
    }
  }

  /** `mload` of the word at a byte offset. */
  function Load(s: seq<Byte>, offset: nat): nat
    requires offset + 32 <= |s|
  {
    Value(s[offset..offset + 32])
  }

  /** `mstore` of a word at a byte offset. */
  method Store(memory: array<Byte>, offset: nat, word: nat)
    requires offset + 32 <= memory.Length
    modifies memory
    ensures memory[..] == old(memory[..offset]) + ToBytes(word, 32) + old(memory[offset + 32..])
  {
    var bytes := ToBytes(word, 32);
    forall i | 0 <= i < 32 {
      memory[offset + i] := bytes[i];
    }
    assert memory[offset..offset + 32] == bytes;
    assert memory[..] == memory[..offset] + memory[offset..offset + 32] + memory[offset + 32..];
  }
}
