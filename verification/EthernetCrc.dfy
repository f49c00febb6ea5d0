/**
 Which cyclic redundancy check the exporter computes: that of IEEE 802.3, its register preset to
 ones and inverted at the end. Two messages decide it: one cancels the preset, and one leaves a
 single bit of it, which the steps turn into the polynomial.
 */
module EthernetCrc {
  import opened Bits
  import opened Crc32

  /** The generator's terms below the 32nd, by exponent; the register holds them in reverse. */
  lemma PolynomialIsEthernet()
    ensures ToNat(POLYNOMIAL) ==
      Pow2(31 - 26) + Pow2(31 - 23) + Pow2(31 - 22) + Pow2(31 - 16) + Pow2(31 - 12)
      + Pow2(31 - 11) + Pow2(31 - 10) + Pow2(31 - 8) + Pow2(31 - 7) + Pow2(31 - 5)
      + Pow2(31 - 4) + Pow2(31 - 2) + Pow2(31 - 1) + Pow2(31 - 0)
  {
    PowersOfTwo();
    BitsOfNumber(0xedb8_8320, 32);
    hide FromNat, ToNat, Pow2;
    SomePowers();
    MorePowers();
  }

  lemma SomePowers()
    ensures Pow2(5) == 0x20
    ensures Pow2(8) == 0x100
    ensures Pow2(9) == 0x200
    ensures Pow2(12) == 0x1000
    ensures Pow2(15) == 0x8000
    ensures Pow2(17) == 0x20000
    ensures Pow2(19) == 0x80000
    ensures Pow2(20) == 0x100000
    ensures Pow2(21) == 0x200000
  {
    assert Pow2(5) == 0x20;
    assert Pow2(8) == 0x100;
    assert Pow2(9) == 0x200;
    assert Pow2(12) == 0x1000;
    assert Pow2(15) == 0x8000;
    assert Pow2(17) == 0x20000;
    assert Pow2(19) == 0x80000;
    assert Pow2(20) == 0x100000;
    assert Pow2(21) == 0x200000;
  }

  lemma MorePowers()
    ensures Pow2(23) == 0x800000
    ensures Pow2(24) == 0x1000000
    ensures Pow2(26) == 0x4000000
    ensures Pow2(27) == 0x8000000
    ensures Pow2(29) == 0x20000000
    ensures Pow2(30) == 0x40000000
    ensures Pow2(31) == 0x80000000
  {
    SomePowers();
    assert Pow2(23) == 0x800000;
    assert Pow2(24) == 0x1000000;
    assert Pow2(26) == 0x4000000;
    assert Pow2(27) == 0x8000000;
    assert Pow2(29) == 0x20000000;
    assert Pow2(30) == 0x40000000;
    assert Pow2(31) == 0x80000000;
  }

  // ---------- check values ----------

  /** The word with one bit set. */
  function Single(j: nat): Word {
    seq(32, i requires 0 <= i < 32 => i == j)
  }

  const ZERO: Word := Repeat(false, 32)

  lemma {:induction false} ZeroStays(n: nat)
    ensures Steps(ZERO, n) == ZERO
    decreases n
  {
    if n > 0 {
      assert BitStep(ZERO) == ZERO;
      ZeroStays(n - 1);
    }
  }

  /** A single bit moves down, and the step that drops it leaves the polynomial. */
  lemma {:induction false} SingleBecomesPolynomial(j: nat)
    requires j < 32
    ensures Steps(Single(j), j + 1) == POLYNOMIAL
    decreases j
  {
    if j > 0 {
      assert BitStep(Single(j)) == Single(j - 1);
      SingleBecomesPolynomial(j - 1);
    } else {
      assert ShiftRight(Single(0)) == ZERO;
      assert BitStep(Single(0)) == POLYNOMIAL;
      assert Steps(POLYNOMIAL, 0) == POLYNOMIAL;
    }
  }

  lemma {:induction false} OnesAre(n: nat)
    ensures ToNat(Repeat(true, n)) == Pow2(n) - 1
  {
    if n > 0 {
      OnesAre(n - 1);
      assert Repeat(true, n)[1..] == Repeat(true, n - 1);
    }
  }

  lemma {:induction false} TopZero(bits: seq<bool>)
    ensures ToNat(bits + [false]) == ToNat(bits)
  {
    if bits == [] {
      assert [] + [false] == [false] && [false][1..] == [];
    } else {
      assert (bits + [false])[1..] == bits[1..] + [false];
      TopZero(bits[1..]);
    }
  }

  lemma OnesByte()
    ensures FromNat(255, 8) == Repeat(true, 8) && FromNat(127, 8) == Repeat(true, 7) + [false]
  {
    PowersOfTwo();
    assert Pow2(7) == 128;
    OnesAre(8);
    OnesAre(7);
    TopZero(Repeat(true, 7));
    hide FromNat, ToNat, Repeat;
    NumberOfBits(Repeat(true, 8));
    NumberOfBits(Repeat(true, 7) + [false]);
  }

  lemma FirstByte(m: seq<byte>, i: nat)
    requires i < |m|
    ensures MessageBits(m[i..]) == FromNat(m[i], 8) + MessageBits(m[i + 1..])
  {
    assert m[i..][0] == m[i] && m[i..][1..] == m[i + 1..];
  }

  lemma FourBytes(m: seq<byte>)
    requires |m| == 4
    ensures MessageBits(m) == FromNat(m[0], 8) + FromNat(m[1], 8) + FromNat(m[2], 8) + FromNat(m[3], 8)
  {
    assert m[0..] == m && m[4..] == [] && MessageBits([]) == [];
    hide *;
    FirstByte(m, 0);
    FirstByte(m, 1);
    FirstByte(m, 2);
    FirstByte(m, 3);
  }

  lemma OnesMessages()
    ensures MessageBits([255, 255, 255, 255]) == Repeat(true, 32)
    ensures MessageBits([255, 255, 255, 127]) == Repeat(true, 31) + [false]
  {
    hide FromNat, MessageBits, Repeat;
    OnesByte();
    FourBytes([255, 255, 255, 255]);
    FourBytes([255, 255, 255, 127]);
  }

  /** Ones cancel the preset. */
  lemma PresetCancels()
    ensures Xor(ALL_ONES, Pad(Repeat(true, 32))) == ZERO && Xor(ZERO, ALL_ONES) == ALL_ONES
    ensures Xor(ALL_ONES, Pad(Repeat(true, 31) + [false])) == Single(31)
  {
    hide Repeat;
  }

  lemma OnesNumber()
    ensures ToNat(ALL_ONES) == 0xffff_ffff
  {
    OnesAre(32);
    PowersOfTwo();
  }

  lemma {:induction false} InvertedSum(w: seq<bool>, v: seq<bool>)
    requires |v| == |w| && forall i | 0 <= i < |w| :: v[i] == !w[i]
    ensures ToNat(v) == Pow2(|w|) - 1 - ToNat(w)
  {
    if w != [] { InvertedSum(w[1..], v[1..]); }
  }

  /** Four bytes of ones cancel the preset, so that only the final inversion is left. */
  lemma OnesCheck()
    ensures Checksum([255, 255, 255, 255]) == 0xffff_ffff
  {
    hide FromNat, MessageBits, Repeat, Xor, Pad, Steps, Feed, ToNat, ALL_ONES;
    OnesMessages();
    FeedIsXorThenSteps(ALL_ONES, Repeat(true, 32));
    PresetCancels();
    ZeroStays(32);
    OnesNumber();
  }

  /** A message that leaves the top bit of the preset has the polynomial, inverted, as its checksum. */
  lemma PolynomialCheck()
    ensures Checksum([255, 255, 255, 127]) == 0x1247_7cdf
  {
    hide FromNat, MessageBits, Repeat, Xor, Pad, Steps, Feed, ToNat, ALL_ONES, POLYNOMIAL;
    OnesMessages();
    FeedIsXorThenSteps(ALL_ONES, Repeat(true, 31) + [false]);
    PresetCancels();
    SingleBecomesPolynomial(31);
    InvertedPolynomial();
  }

  lemma InvertedPolynomial()
    ensures ToNat(Xor(POLYNOMIAL, ALL_ONES)) == 0x1247_7cdf
  {
    PowersOfTwo();
    BitsOfNumber(0xedb8_8320, 32);
    hide FromNat, ToNat, Repeat;
    InvertedSum(POLYNOMIAL, Xor(POLYNOMIAL, ALL_ONES));
  }
}
