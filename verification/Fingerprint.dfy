/**
 The 16-digit fingerprint of a serialised contract: two multiplicative hashes of its UTF-16
 code units, each printed as eight hexadecimal digits.
 */
module Fingerprint {
  import opened Bits
  import opened Canonical
  import Crc32

  const FIRST_SEED: nat := 0x811c9dc5
  const SECOND_SEED: nat := 0x9e3779b9
  const FIRST_FACTOR: nat := 0x01000193
  const SECOND_FACTOR: nat := 0x85ebca6b

  type word = n: nat | n < WORD_SIZE

  /** `Math.imul(h ^ code, factor)` read as an unsigned 32-bit number. */
  function Mix(h: word, code: unit, factor: nat): word {
    WordNumber(Xor(FromNat(h, 32), FromNat(code, 32)));
    ToNat(Xor(FromNat(h, 32), FromNat(code, 32))) * factor % WORD_SIZE
  }

  function Hash(h: word, text: Text, factor: nat): word
    decreases |text|
  {
    if text == [] then h else Hash(Mix(h, text[0], factor), text[1..], factor)
  }

  lemma {:induction false} HashConcat(h: word, s: Text, t: Text, factor: nat)
    ensures Hash(h, s + t, factor) == Hash(Hash(h, s, factor), t, factor)
    decreases |s|
  {
    if s == [] {
      assert s + t == t;
    } else {
      assert (s + t)[1..] == s[1..] + t;
      HashConcat(Mix(h, s[0], factor), s[1..], t, factor);
    }
  }

  // ---------- hexadecimal text ----------

  function HexDigit(d: nat): char
    requires d < 16
  {
    if d < 10 then '0' + d as char else 'a' + (d - 10) as char
  }

  function DigitValue(c: char): nat {
    if '0' <= c <= '9' then c as nat - '0' as nat
    else if 'a' <= c <= 'f' then c as nat - 'a' as nat + 10
    else 0
  }

  predicate IsHex(s: string) {
    forall i | 0 <= i < |s| :: '0' <= s[i] <= '9' || 'a' <= s[i] <= 'f'
  }

  /** `n.toString(16)` */
  function ToHex(n: nat): string {
    if n < 16 then [HexDigit(n)] else ToHex(n / 16) + [HexDigit(n % 16)]
  }

  /** `s.padStart(8, "0")` */
  function PadStart8(s: string): string
    decreases 8 - |s|
  {
    if |s| < 8 then PadStart8("0" + s) else s
  }

  function ParseHex(s: string): nat {
    if s == "" then 0 else 16 * ParseHex(s[..|s| - 1]) + DigitValue(s[|s| - 1])
  }

  function Pow16(n: nat): nat {
    if n == 0 then 1 else 16 * Pow16(n - 1)
  }

  lemma {:induction false} HexReadsBack(n: nat)
    ensures IsHex(ToHex(n)) && ParseHex(ToHex(n)) == n
  {
    var s := ToHex(n);
    if n >= 16 {
      HexReadsBack(n / 16);
      assert s[..|s| - 1] == ToHex(n / 16);
    } else {
      assert s[..0] == "";
    }
  }

  lemma {:induction false} HexLength(n: nat, k: nat)
    requires n < Pow16(k) && k > 0
    ensures 1 <= |ToHex(n)| <= k
  {
    if n >= 16 { HexLength(n / 16, k - 1); }
  }

  lemma {:induction false} PadKeepsValue(s: string)
    requires 1 <= |s| <= 8 && IsHex(s)
    ensures |PadStart8(s)| == 8 && IsHex(PadStart8(s)) && ParseHex(PadStart8(s)) == ParseHex(s)
    decreases 8 - |s|
  {
    if |s| < 8 {
      LeadingZero(s);
      PadKeepsValue("0" + s);
    }
  }

  lemma {:induction false} LeadingZero(s: string)
    ensures ParseHex("0" + s) == ParseHex(s)
  {
    var z := "0" + s;
    if s == "" {
      assert z[..0] == "";
    } else {
      assert z[..|z| - 1] == "0" + s[..|s| - 1];
      LeadingZero(s[..|s| - 1]);
    }
  }

  lemma HexConcat(s: string, t: string)
    requires IsHex(s) && IsHex(t)
    ensures IsHex(s + t)
  {
  }

  function Hex8(n: word): string { PadStart8(ToHex(n)) }

  lemma Hex8ReadsBack(n: word)
    ensures |Hex8(n)| == 8 && IsHex(Hex8(n)) && ParseHex(Hex8(n)) == n
  {
    assert Pow16(8) == WORD_SIZE by { assert Pow16(4) == 0x1_0000; }
    HexReadsBack(n);
    HexLength(n, 8);
    PadKeepsValue(ToHex(n));
  }

  // ---------- the fingerprint ----------

  function Of(serialized: Text): string {
    Hex8(Hash(FIRST_SEED, serialized, FIRST_FACTOR)) + Hex8(Hash(SECOND_SEED, serialized, SECOND_FACTOR))
  }

  /** The loop over the serialised contract. */
  method Compute(serialized: Text) returns (fingerprint: string)
    ensures fingerprint == Of(serialized)
    ensures |fingerprint| == 16 && IsHex(fingerprint)
  {
    hide Mix, Hex8, IsHex;
    var first: word := FIRST_SEED;
    var second: word := SECOND_SEED;
    for index := 0 to |serialized|
      invariant first == Hash(FIRST_SEED, serialized[..index], FIRST_FACTOR)
      invariant second == Hash(SECOND_SEED, serialized[..index], SECOND_FACTOR)
    {
      var code := serialized[index];
      assert serialized[..index + 1] == serialized[..index] + [code];
      HashConcat(FIRST_SEED, serialized[..index], [code], FIRST_FACTOR);
      HashConcat(SECOND_SEED, serialized[..index], [code], SECOND_FACTOR);
      first := Mix(first, code, FIRST_FACTOR);
      second := Mix(second, code, SECOND_FACTOR);
    }
    assert serialized[..|serialized|] == serialized;
    Hex8ReadsBack(first);
    Hex8ReadsBack(second);
    fingerprint := Hex8(first) + Hex8(second);
    HexConcat(Hex8(first), Hex8(second));
  }

  /** Contracts that differ only in key order or in undefined fields share one fingerprint. */
  lemma SameContractSameFingerprint(a: Value, b: Value, serialize: Value -> Text)
    requires Valid(a) && Valid(b) && Same(a, b)
    ensures Of(serialize(Stable(a))) == Of(serialize(Stable(b)))
  {
    CanonicalExactly(a, b);
  }

  // ---------- the drift it always notices ----------

  lemma XorIsInjective(h: word, g: word, c: unit, d: unit)
    requires Xor(FromNat(h, 32), FromNat(c, 32)) == Xor(FromNat(g, 32), FromNat(d, 32))
    requires h == g || c == d
    ensures h == g && c == d
  {
    PowersOfTwo();
    BitsOfNumber(h, 32);
    BitsOfNumber(g, 32);
    BitsOfNumber(c, 32);
    BitsOfNumber(d, 32);
    if h == g {
      Crc32.XorCancels(FromNat(c, 32), FromNat(d, 32), FromNat(h, 32));
    } else {
      Crc32.XorCancels(FromNat(h, 32), FromNat(g, 32), FromNat(c, 32));
    }
  }

  /** A factor with an inverse modulo 2^32 loses nothing. */
  lemma FactorIsInjective(x: word, y: word, factor: nat, inverse: nat)
    requires factor * inverse % WORD_SIZE == 1
    requires x * factor % WORD_SIZE == y * factor % WORD_SIZE
    ensures x == y
  {
    UndoFactor(x, factor, inverse);
    UndoFactor(y, factor, inverse);
  }

  lemma UndoFactor(x: word, factor: nat, inverse: nat)
    requires factor * inverse % WORD_SIZE == 1
    ensures x * factor % WORD_SIZE * inverse % WORD_SIZE == x
  {
    var r, q := x * factor % WORD_SIZE, x * factor / WORD_SIZE;
    var t := factor * inverse / WORD_SIZE;
    calc {
      r * inverse;
      (x * factor - q * WORD_SIZE) * inverse;
      x * (factor * inverse) - (q * inverse) * WORD_SIZE;
      x * (t * WORD_SIZE + 1) - (q * inverse) * WORD_SIZE;
      (x * t - q * inverse) * WORD_SIZE + x;
    }
    QuotientIsUnique(r * inverse, x * t - q * inverse, x);
  }

  lemma QuotientIsUnique(n: int, k: int, r: int)
    requires n == k * WORD_SIZE + r && 0 <= r < WORD_SIZE
    ensures n % WORD_SIZE == r
  {
  }

  /** Both factors of the fingerprint are odd, so each has an inverse. */
  predicate IsFactor(factor: nat) { factor == FIRST_FACTOR || factor == SECOND_FACTOR }

  function Inverse(factor: nat): (inverse: nat)
    requires IsFactor(factor)
    ensures factor * inverse % WORD_SIZE == 1
  {
    if factor == FIRST_FACTOR then 0x359c449b else 0xa5cb9243
  }

  lemma MixIsInjective(h: word, g: word, c: unit, d: unit, factor: nat)
    requires IsFactor(factor) && Mix(h, c, factor) == Mix(g, d, factor)
    requires h == g || c == d
    ensures h == g && c == d
  {
    hide Xor, FromNat, ToNat, Inverse;
    var x, y := Xor(FromNat(h, 32), FromNat(c, 32)), Xor(FromNat(g, 32), FromNat(d, 32));
    WordNumber(x);
    WordNumber(y);
    FactorIsInjective(ToNat(x), ToNat(y), factor, Inverse(factor));
    NumberOfBits(x);
    NumberOfBits(y);
    XorIsInjective(h, g, c, d);
  }

  lemma {:induction false} HashIsInjective(h: word, g: word, text: Text, factor: nat)
    requires IsFactor(factor) && Hash(h, text, factor) == Hash(g, text, factor)
    ensures h == g
    decreases |text|
  {
    hide Mix;
    if text != [] {
      HashIsInjective(Mix(h, text[0], factor), Mix(g, text[0], factor), text[1..], factor);
      MixIsInjective(h, g, text[0], text[0], factor);
    }
  }

  lemma DriftChangesHash(seed: word, before: Text, c: unit, d: unit, after: Text, factor: nat)
    requires IsFactor(factor) && c != d
    ensures Hash(seed, before + [c] + after, factor) != Hash(seed, before + [d] + after, factor)
  {
    hide Mix;
    var h := Hash(seed, before, factor);
    HashConcat(seed, before + [c], after, factor);
    HashConcat(seed, before, [c], factor);
    HashConcat(seed, before + [d], after, factor);
    HashConcat(seed, before, [d], factor);
    assert [c][1..] == [] && [d][1..] == [];
    if Hash(seed, before + [c] + after, factor) == Hash(seed, before + [d] + after, factor) {
      HashIsInjective(Mix(h, c, factor), Mix(h, d, factor), after, factor);
      MixIsInjective(h, h, c, d, factor);
    }
  }

  /** Serialised contracts that differ in exactly one code unit differ in both halves of the fingerprint. */
  lemma OneUnitDriftIsNoticed(before: Text, c: unit, d: unit, after: Text)
    requires c != d
    ensures var p, q := Of(before + [c] + after), Of(before + [d] + after);
      |p| == |q| == 16 && p[..8] != q[..8] && p[8..] != q[8..]
  {
    var s, t := before + [c] + after, before + [d] + after;
    DriftChangesHash(FIRST_SEED, before, c, d, after, FIRST_FACTOR);
    DriftChangesHash(SECOND_SEED, before, c, d, after, SECOND_FACTOR);
    hide Hash, Hex8, IsHex;
    Hex8ReadsBack(Hash(FIRST_SEED, s, FIRST_FACTOR));
    Hex8ReadsBack(Hash(FIRST_SEED, t, FIRST_FACTOR));
    Hex8ReadsBack(Hash(SECOND_SEED, s, SECOND_FACTOR));
    Hex8ReadsBack(Hash(SECOND_SEED, t, SECOND_FACTOR));
    assert Of(s)[..8] == Hex8(Hash(FIRST_SEED, s, FIRST_FACTOR)) && Of(t)[..8] == Hex8(Hash(FIRST_SEED, t, FIRST_FACTOR));
    assert Of(s)[8..] == Hex8(Hash(SECOND_SEED, s, SECOND_FACTOR)) && Of(t)[8..] == Hex8(Hash(SECOND_SEED, t, SECOND_FACTOR));
  }

  // ---------- which hash it is ----------

  /** A zero unit leaves the product, and a unit equal to the hash cancels it. */
  lemma MixExtremes(h: word, c: unit, factor: nat)
    ensures Mix(h, 0, factor) == h * factor % WORD_SIZE
    ensures Mix(c, c, factor) == 0
  {
    PowersOfTwo();
    BitsOfNumber(h, 32);
    Zeros(32);
    assert Xor(FromNat(h, 32), FromNat(0, 32)) == FromNat(h, 32);
    assert Xor(FromNat(c, 32), FromNat(c, 32)) == FromNat(0, 32);
    BitsOfNumber(0, 32);
  }

  lemma {:induction false} Zeros(n: nat)
    ensures FromNat(0, n) == Repeat(false, n)
  {
    if n > 0 { Zeros(n - 1); }
  }

  /** The first half is the 32-bit FNV-1a hash of the units; both halves by their value on the shortest texts. */
  lemma ShortestFingerprints()
    ensures var p := Of([]); |p| == 16 && ParseHex(p[..8]) == 0x811c_9dc5 && ParseHex(p[8..]) == 0x9e37_79b9
    ensures var p := Of([0]); |p| == 16 && ParseHex(p[..8]) == 0x050c_5d1f && ParseHex(p[8..]) == 0xc10e_da53
  {
    hide Hash, Mix, Of, ParseHex;
    HalvesReadBack([]);
    HalvesReadBack([0]);
    HashOfNothing(FIRST_SEED, FIRST_FACTOR);
    HashOfNothing(SECOND_SEED, SECOND_FACTOR);
    HashOfZero(FIRST_SEED, FIRST_FACTOR);
    HashOfZero(SECOND_SEED, SECOND_FACTOR);
  }

  lemma HashOfNothing(seed: word, factor: nat)
    ensures Hash(seed, [], factor) == seed
  {
  }

  lemma HashOfZero(seed: word, factor: nat)
    ensures Hash(seed, [0], factor) == seed * factor % WORD_SIZE
  {
    var zero: Text := [0];
    assert zero[1..] == [];
    MixExtremes(seed, 0, factor);
    hide Mix;
    HashOfNothing(Mix(seed, 0, factor), factor);
  }

  lemma HalvesReadBack(text: Text)
    ensures |Of(text)| == 16
    ensures ParseHex(Of(text)[..8]) == Hash(FIRST_SEED, text, FIRST_FACTOR)
    ensures ParseHex(Of(text)[8..]) == Hash(SECOND_SEED, text, SECOND_FACTOR)
  {
    hide Hash, Hex8, IsHex, ParseHex;
    var first, second := Hash(FIRST_SEED, text, FIRST_FACTOR), Hash(SECOND_SEED, text, SECOND_FACTOR);
    Hex8ReadsBack(first);
    Hex8ReadsBack(second);
    assert Of(text)[..8] == Hex8(first) && Of(text)[8..] == Hex8(second);
  }
}
