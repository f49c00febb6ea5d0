/**
 The checksum of the stored-ZIP writer.

 `Compute` is the byte-wise loop of the exporter. Its specification, `Register`, is the
 textbook shift register that consumes the message one bit at a time, least significant
 bit of each byte first, and never looks at a whole byte.
 */
module Crc32 {
  import opened Bits

  const POLYNOMIAL: Word := FromNat(0xedb88320, 32)
  const ALL_ONES: Word := Repeat(true, 32)

  // ---------- the bit-serial register ----------

  /** One clock of the register with one message bit on its input. */
  function Clock(register: Word, bit: bool): Word {
    if register[0] != bit then Xor(ShiftRight(register), POLYNOMIAL) else ShiftRight(register)
  }

  function Feed(register: Word, bits: seq<bool>): Word
    decreases |bits|
  {
    if bits == [] then register else Feed(Clock(register, bits[0]), bits[1..])
  }

  function MessageBits(contents: seq<byte>): seq<bool> {
    if contents == [] then [] else FromNat(contents[0], 8) + MessageBits(contents[1..])
  }

  function Register(contents: seq<byte>): Word {
    Xor(Feed(ALL_ONES, MessageBits(contents)), ALL_ONES)
  }

  /** The checksum as the unsigned number that the archive stores. */
  function Checksum(contents: seq<byte>): (c: nat)
    ensures c < WORD_SIZE
  {
    WordNumber(Register(contents));
    ToNat(Register(contents))
  }

  // ---------- the loop's own step ----------

  /** The body of the inner loop: shift right, reduce when the dropped bit was one. */
  function BitStep(crc: Word): Word {
    if crc[0] then Xor(ShiftRight(crc), POLYNOMIAL) else ShiftRight(crc)
  }

  function Steps(crc: Word, n: nat): Word
    decreases n
  {
    if n == 0 then crc else Steps(BitStep(crc), n - 1)
  }

  /** The step undone. The top bit tells whether the step reduced, because the shift clears it. */
  function UnStep(crc: Word): Word {
    if crc[31] then [true] + Xor(crc, POLYNOMIAL)[..31] else [false] + crc[..31]
  }

  lemma PolynomialTop()
    ensures POLYNOMIAL[31]
  {
    PowersOfTwo();
    TopBit(0xedb88320, 31);
  }

  lemma StepIsLinear(a: Word, b: Word)
    ensures BitStep(Xor(a, b)) == Xor(BitStep(a), BitStep(b))
  {
  }

  lemma ReductionIsUndone(a: Word, p: Word)
    requires p[31]
    ensures a[0] ==> Xor(ShiftRight(a), p)[31] && [true] + Xor(Xor(ShiftRight(a), p), p)[..31] == a
    ensures !a[0] ==> !ShiftRight(a)[31] && [false] + ShiftRight(a)[..31] == a
    ensures a[31] ==> Xor(ShiftRight([true] + Xor(a, p)[..31]), p) == a
    ensures !a[31] ==> ShiftRight([false] + a[..31]) == a
  {
    if a[31] {
      var s := [true] + Xor(a, p)[..31];
      assert forall i | 0 <= i < 31 :: ShiftRight(s)[i] == Xor(a, p)[i];
    }
  }

  /** The step permutes the 32-bit words. */
  lemma StepIsBijective(a: Word)
    ensures UnStep(BitStep(a)) == a && BitStep(UnStep(a)) == a
  {
    PolynomialTop();
    ReductionIsUndone(a, POLYNOMIAL);
  }

  lemma {:induction false} StepsAreInjective(a: Word, b: Word, n: nat)
    requires Steps(a, n) == Steps(b, n)
    ensures a == b
    decreases n
  {
    if n > 0 {
      StepsAreInjective(BitStep(a), BitStep(b), n - 1);
      StepIsBijective(a);
      StepIsBijective(b);
    }
  }

  lemma {:induction false} StepsSplit(crc: Word, m: nat, n: nat)
    ensures Steps(crc, m + n) == Steps(Steps(crc, m), n)
    decreases m
  {
    if m > 0 { StepsSplit(BitStep(crc), m - 1, n); }
  }

  // ---------- up to 32 serial bits are one exclusive-or followed by plain steps ----------

  lemma StepTakesOneBit(register: Word, bits: seq<bool>)
    requires 0 < |bits| <= 32
    ensures BitStep(Xor(register, Pad(bits))) == Xor(Clock(register, bits[0]), Pad(bits[1..]))
  {
  }

  lemma {:induction false} FeedIsXorThenSteps(register: Word, bits: seq<bool>)
    requires |bits| <= 32
    ensures Feed(register, bits) == Steps(Xor(register, Pad(bits)), |bits|)
    decreases |bits|
  {
    if bits == [] {
      assert Xor(register, Pad(bits)) == register;
    } else {
      StepTakesOneBit(register, bits);
      FeedIsXorThenSteps(Clock(register, bits[0]), bits[1..]);
    }
  }

  // ---------- composition of feeds ----------

  lemma {:induction false} FeedConcat(register: Word, xs: seq<bool>, ys: seq<bool>)
    ensures Feed(register, xs + ys) == Feed(Feed(register, xs), ys)
    decreases |xs|
  {
    if xs == [] {
      assert xs + ys == ys;
    } else {
      assert (xs + ys)[1..] == xs[1..] + ys;
      FeedConcat(Clock(register, xs[0]), xs[1..], ys);
    }
  }

  lemma {:induction false} MessageBitsConcat(xs: seq<byte>, ys: seq<byte>)
    ensures MessageBits(xs + ys) == MessageBits(xs) + MessageBits(ys)
  {
    if xs == [] {
      assert xs + ys == ys;
    } else {
      assert (xs + ys)[1..] == xs[1..] + ys;
      MessageBitsConcat(xs[1..], ys);
    }
  }

  lemma MessageBitsSnoc(xs: seq<byte>, b: byte)
    ensures MessageBits(xs + [b]) == MessageBits(xs) + FromNat(b, 8)
  {
    MessageBitsConcat(xs, [b]);
    assert [b][1..] == [];
    assert MessageBits([b]) == FromNat(b, 8);
  }

  /** One byte more: an exclusive-or and eight steps feed its bits. */
  lemma ByteFeeds(contents: seq<byte>, b: byte)
    ensures Steps(Xor(Feed(ALL_ONES, MessageBits(contents)), Pad(FromNat(b, 8))), 8)
         == Feed(ALL_ONES, MessageBits(contents + [b]))
  {
    hide Xor, Pad, ShiftRight, Steps, Feed, MessageBits, FromNat;
    FeedIsXorThenSteps(Feed(ALL_ONES, MessageBits(contents)), FromNat(b, 8));
    MessageBitsSnoc(contents, b);
    FeedConcat(ALL_ONES, MessageBits(contents), FromNat(b, 8));
  }

  lemma OneMoreStep(crc: Word, n: nat)
    ensures Steps(crc, n + 1) == BitStep(Steps(crc, n))
  {
    hide BitStep;
    StepsSplit(crc, n, 1);
    assert Steps(BitStep(Steps(crc, n)), 0) == BitStep(Steps(crc, n));
  }

  lemma NoStepsNoBits(crc: Word)
    ensures Steps(crc, 0) == crc && Feed(crc, MessageBits([])) == crc
  {
  }

  /** The eight steps of the inner loop. */
  method EightSteps(loaded: Word) returns (crc: Word)
    ensures crc == Steps(loaded, 8)
  {
    hide Steps, Xor, ShiftRight;
    crc := loaded;
    NoStepsNoBits(loaded);
    for bit := 0 to 8
      invariant crc == Steps(loaded, bit)
    {
      OneMoreStep(loaded, bit);
      crc := if crc[0] then Xor(ShiftRight(crc), POLYNOMIAL) else ShiftRight(crc);
    }
  }

  /** The exporter's loop: exclusive-or a byte in, then eight steps. */
  method Compute(contents: seq<byte>) returns (checksum: Word)
    ensures checksum == Register(contents)
  {
    hide Xor, Pad, ShiftRight, Steps, Feed, MessageBits, FromNat;
    var crc := ALL_ONES;
    NoStepsNoBits(crc);
    assert contents[..0] == [];
    for i := 0 to |contents|
      invariant crc == Feed(ALL_ONES, MessageBits(contents[..i]))
    {
      var b := contents[i];
      ByteFeeds(contents[..i], b);
      assert contents[..i + 1] == contents[..i] + [b];
      crc := EightSteps(Xor(crc, Pad(FromNat(b, 8))));
    }
    assert contents[..|contents|] == contents;
    checksum := Xor(crc, ALL_ONES);
  }

  // ---------- what the checksum detects ----------

  lemma XorCancels(a: Word, b: Word, p: Word)
    requires Xor(a, p) == Xor(b, p) || Xor(p, a) == Xor(p, b)
    ensures a == b
  {
    if Xor(a, p) == Xor(b, p) {
      forall i | 0 <= i < 32 ensures a[i] == b[i] { assert Xor(a, p)[i] == Xor(b, p)[i]; }
    } else {
      forall i | 0 <= i < 32 ensures a[i] == b[i] { assert Xor(p, a)[i] == Xor(p, b)[i]; }
    }
  }

  lemma ClockIsInjective(a: Word, b: Word, bit: bool)
    requires Clock(a, bit) == Clock(b, bit)
    ensures a == b
  {
    StepTakesOneBit(a, [bit]);
    StepTakesOneBit(b, [bit]);
    StepIsBijective(Xor(a, Pad([bit])));
    StepIsBijective(Xor(b, Pad([bit])));
    XorCancels(a, b, Pad([bit]));
  }

  lemma {:induction false} FeedIsInjective(a: Word, b: Word, bits: seq<bool>)
    requires Feed(a, bits) == Feed(b, bits)
    ensures a == b
    decreases |bits|
  {
    if bits != [] {
      FeedIsInjective(Clock(a, bits[0]), Clock(b, bits[0]), bits[1..]);
      ClockIsInjective(a, b, bits[0]);
    }
  }

  lemma ShortFeedIsInjective(register: Word, u: seq<bool>, v: seq<bool>)
    requires |u| == |v| <= 32 && Feed(register, u) == Feed(register, v)
    ensures u == v
  {
    FeedIsXorThenSteps(register, u);
    FeedIsXorThenSteps(register, v);
    StepsAreInjective(Xor(register, Pad(u)), Xor(register, Pad(v)), |u|);
    XorCancels(Pad(u), Pad(v), register);
    assert u == Pad(u)[..|u|] && v == Pad(v)[..|v|];
  }

  /**
   Every burst of at most 32 bits is detected, wherever it starts: it need not be aligned
   to bytes.
   */
  lemma BurstIsDetected(x: seq<byte>, y: seq<byte>, before: seq<bool>, u: seq<bool>, v: seq<bool>, after: seq<bool>)
    requires MessageBits(x) == before + u + after
    requires MessageBits(y) == before + v + after
    requires |u| == |v| <= 32 && u != v
    ensures Checksum(x) != Checksum(y)
  {
    if Checksum(x) == Checksum(y) {
      var r := Feed(ALL_ONES, before);
      FeedConcat(ALL_ONES, before + u, after);
      FeedConcat(ALL_ONES, before, u);
      FeedConcat(ALL_ONES, before + v, after);
      FeedConcat(ALL_ONES, before, v);
      NumberOfBits(Register(x));
      NumberOfBits(Register(y));
      XorCancels(Feed(ALL_ONES, MessageBits(x)), Feed(ALL_ONES, MessageBits(y)), ALL_ONES);
      FeedIsInjective(Feed(r, u), Feed(r, v), after);
      ShortFeedIsInjective(r, u, v);
    }
  }

  lemma {:induction false} MessageBitsIsInjective(xs: seq<byte>, ys: seq<byte>)
    requires |xs| == |ys|
    ensures |MessageBits(xs)| == |MessageBits(ys)| == 8 * |xs|
    ensures MessageBits(xs) == MessageBits(ys) ==> xs == ys
  {
    if xs != [] {
      MessageBitsIsInjective(xs[1..], ys[1..]);
      var p, q := MessageBits(xs), MessageBits(ys);
      assert p[..8] == FromNat(xs[0], 8) && q[..8] == FromNat(ys[0], 8);
      assert p[8..] == MessageBits(xs[1..]) && q[8..] == MessageBits(ys[1..]);
      if p == q {
        ByteNumber(xs[0]);
        ByteNumber(ys[0]);
        assert xs == [xs[0]] + xs[1..] && ys == [ys[0]] + ys[1..];
      }
    }
  }

  /** Two files that differ only inside one window of at most four bytes have different checksums. */
  lemma FourByteWindowIsDetected(before: seq<byte>, u: seq<byte>, v: seq<byte>, after: seq<byte>)
    requires |u| == |v| <= 4 && u != v
    ensures Checksum(before + u + after) != Checksum(before + v + after)
  {
    MessageBitsConcat(before + u, after);
    MessageBitsConcat(before, u);
    MessageBitsConcat(before + v, after);
    MessageBitsConcat(before, v);
    MessageBitsIsInjective(u, v);
    BurstIsDetected(before + u + after, before + v + after,
                    MessageBits(before), MessageBits(u), MessageBits(v), MessageBits(after));
  }
}
