/**
 Bytes, and 32-bit registers as sequences of bits, least significant first. Index i of a word
 is the bit that the source's `>>>` moves to index i - 1.
 */
module Bits {
  type byte = b: int | 0 <= b < 256
  type Word = w: seq<bool> | |w| == 32 witness Repeat(false, 32)

  const WORD_SIZE: nat := 0x1_0000_0000

  function Repeat(bit: bool, n: nat): (bits: seq<bool>)
    ensures |bits| == n && forall i | 0 <= i < n :: bits[i] == bit
  {
    if n == 0 then [] else [bit] + Repeat(bit, n - 1)
  }

  function Xor(a: Word, b: Word): Word {
    seq(32, i requires 0 <= i < 32 => a[i] != b[i])
  }

  function ShiftRight(a: Word): Word {
    a[1..] + [false]
  }

  /** The low bits given, the rest zero. */
  function Pad(bits: seq<bool>): Word
    requires |bits| <= 32
  {
    bits + Repeat(false, 32 - |bits|)
  }

  function Pow2(n: nat): nat {
    if n == 0 then 1 else 2 * Pow2(n - 1)
  }

  function ToNat(bits: seq<bool>): nat {
    if bits == [] then 0 else (if bits[0] then 1 else 0) + 2 * ToNat(bits[1..])
  }

  function FromNat(n: nat, len: nat): (bits: seq<bool>)
    ensures |bits| == len
  {
    if len == 0 then [] else [n % 2 == 1] + FromNat(n / 2, len - 1)
  }

  /** Numbers below two to the power of len and bit sequences of length len correspond one to one. */
  lemma {:induction false} NumberOfBits(bits: seq<bool>)
    ensures ToNat(bits) < Pow2(|bits|) && FromNat(ToNat(bits), |bits|) == bits
  {
    if bits != [] {
      NumberOfBits(bits[1..]);
      assert ToNat(bits) / 2 == ToNat(bits[1..]);
    }
  }

  lemma {:induction false} BitsOfNumber(n: nat, len: nat)
    requires n < Pow2(len)
    ensures ToNat(FromNat(n, len)) == n
  {
    if len > 0 {
      BitsOfNumber(n / 2, len - 1);
      assert FromNat(n, len)[1..] == FromNat(n / 2, len - 1);
    }
  }

  lemma {:induction false} TopBit(n: nat, len: nat)
    requires n < 2 * Pow2(len)
    ensures FromNat(n, len + 1)[len] <==> n >= Pow2(len)
  {
    if len > 0 {
      TopBit(n / 2, len - 1);
      assert FromNat(n, len + 1)[len] == FromNat(n / 2, len)[len - 1];
    }
  }

  lemma PowersOfTwo()
    ensures Pow2(8) == 0x100 && Pow2(16) == 0x1_0000 && Pow2(24) == 0x100_0000
    ensures Pow2(31) == 0x8000_0000 && Pow2(32) == 0x1_0000_0000
  {
    assert Pow2(8) == 256;
    assert Pow2(16) == 0x1_0000;
    assert Pow2(24) == 0x100_0000;
    assert Pow2(31) == 0x8000_0000;
  }

  lemma WordNumber(w: Word)
    ensures ToNat(w) < WORD_SIZE
  {
    NumberOfBits(w);
    PowersOfTwo();
  }

  lemma ByteNumber(b: byte)
    ensures ToNat(FromNat(b, 8)) == b
  {
    PowersOfTwo();
    BitsOfNumber(b, 8);
  }
}
