/**
 The deterministic one-entry stored archive and a reader for it.

 The reader starts from the end-of-central-directory record, follows it to the central entry
 and from there to the local header, as section 4.3.16, 4.3.12 and 4.3.7 of the PKWARE
 APPNOTE lay the records out. It knows nothing of how the archive was written.
 */
module StoredZip {
  import opened Bits
  import opened Wrappers
  import Crc32

  const LOCAL_SIGNATURE: nat := 0x04034b50
  const CENTRAL_SIGNATURE: nat := 0x02014b50
  const END_SIGNATURE: nat := 0x06054b50
  const REGULAR_FILE_MODE: nat := 0x81a4  // 0o100644

  datatype ZipError = EntryExceedsLimits | OffsetOutOfRange

  // ---------- records as little-endian 16-bit words ----------

  type word16 = w: int | 0 <= w < 0x1_0000

  /** Every field of every record starts at an even offset and is one or two 16-bit words. */
  function Bytes(words: seq<word16>): (bytes: seq<byte>)
    ensures |bytes| == 2 * |words|
  {
    seq(2 * |words|, i requires 0 <= i < 2 * |words| => if i % 2 == 0 then words[i / 2] % 256 else words[i / 2] / 256)
  }

  function Two(v: nat): (words: seq<word16>)
    requires v < WORD_SIZE
    ensures |words| == 2
  {
    [v % 0x1_0000, v / 0x1_0000]
  }

  function At16(a: seq<byte>, offset: nat): (v: nat)
    requires offset + 2 <= |a|
    ensures v < 0x1_0000
  {
    var low: nat, high: nat := a[offset], a[offset + 1];
    low + 256 * high
  }

  function At32(a: seq<byte>, offset: nat): (v: nat)
    requires offset + 4 <= |a|
    ensures v < WORD_SIZE
  {
    At16(a, offset) + 0x1_0000 * At16(a, offset + 2)
  }

  /** Reading a record back, wherever it stands in the archive. */
  lemma WordsReadBack(words: seq<word16>, a: seq<byte>, start: nat)
    requires start + 2 * |words| <= |a| && a[start..start + 2 * |words|] == Bytes(words)
    ensures forall k | 0 <= k < |words| :: At16(a, start + 2 * k) == words[k]
  {
    forall k | 0 <= k < |words| ensures At16(a, start + 2 * k) == words[k] {
      var record := a[start..start + 2 * |words|];
      assert a[start + 2 * k] == record[2 * k] == words[k] % 256;
      assert a[start + 2 * k + 1] == record[2 * k + 1] == words[k] / 256;
    }
  }

  method WriteUInt16LE(buffer: array<byte>, value: nat, offset: nat, ghost written: seq<word16>)
    returns (ghost now: seq<word16>)
    requires value < 0x1_0000 && offset + 2 <= buffer.Length && buffer[..offset] == Bytes(written)
    modifies buffer
    ensures now == written + [value] && buffer[..offset + 2] == Bytes(now)
  {
    buffer[offset] := value % 256;
    buffer[offset + 1] := value / 256;
    now := written + [value];
    assert buffer[..offset + 2] == old(buffer[..offset]) + [value % 256, value / 256];
  }

  lemma BytesConcat(a: seq<word16>, b: seq<word16>)
    ensures Bytes(a + b) == Bytes(a) + Bytes(b)
  {
  }

  lemma By256(n: int, q: int, r: int)
    requires n == 256 * q + r && 0 <= r < 256
    ensures n / 256 == q && n % 256 == r
  {
  }

  lemma SecondByte(v: nat)
    ensures v % 0x1_0000 / 256 == v / 0x100 % 256 && v % 0x1_0000 % 256 == v % 256
  {
    var q, r := v / 0x1_0000, v % 0x1_0000;
    By256(v, 256 * q + r / 256, r % 256);
    By256(256 * q + r / 256, q, r / 256);
  }

  lemma FourthByte(v: nat)
    ensures v / 0x1_0000 / 256 == v / 0x100_0000
  {
    var q, r := v / 0x1_0000, v % 0x1_0000;
    assert v == 0x100_0000 * (q / 256) + (0x1_0000 * (q % 256) + r);
    assert 0 <= 0x1_0000 * (q % 256) + r < 0x100_0000;
  }

  lemma BytesOfTwo(low: word16, high: word16)
    ensures Bytes([low, high]) == [low % 256, low / 256, high % 256, high / 256]
  {
    var b := Bytes([low, high]);
    assert b[0] == low % 256 && b[1] == low / 256;
    assert b[2] == high % 256 && b[3] == high / 256;
  }

  lemma FourBytes(value: nat)
    requires value < WORD_SIZE
    ensures Bytes(Two(value)) == [value % 256, value / 0x100 % 256, value / 0x1_0000 % 256, value / 0x100_0000]
  {
    hide Bytes;
    SecondByte(value);
    FourthByte(value);
    BytesOfTwo(value % 0x1_0000, value / 0x1_0000);
  }

  method WriteUInt32LE(buffer: array<byte>, value: nat, offset: nat, ghost written: seq<word16>)
    returns (ghost now: seq<word16>)
    requires value < WORD_SIZE && offset + 4 <= buffer.Length && buffer[..offset] == Bytes(written)
    modifies buffer
    ensures now == written + Two(value) && buffer[..offset + 4] == Bytes(now)
  {
    buffer[offset] := value % 256;
    buffer[offset + 1] := value / 0x100 % 256;
    buffer[offset + 2] := value / 0x1_0000 % 256;
    buffer[offset + 3] := value / 0x100_0000;
    now := written + Two(value);
    FourBytes(value);
    BytesConcat(written, Two(value));
    hide Bytes;
    assert buffer[..offset + 4] == old(buffer[..offset])
      + [value % 256, value / 0x100 % 256, value / 0x1_0000 % 256, value / 0x100_0000];
  }

  // ---------- the records ----------

  function LocalWords(crc: nat, size: nat, nameLength: nat): (words: seq<word16>)
    requires crc < WORD_SIZE && size < WORD_SIZE && nameLength < 0x1_0000
    ensures |words| == 15
  {
    Two(LOCAL_SIGNATURE) + [20, 0, 0, 0, 0x21] + Two(crc) + Two(size) + Two(size) + [nameLength, 0]
  }

  function CentralWords(crc: nat, size: nat, nameLength: nat): (words: seq<word16>)
    requires crc < WORD_SIZE && size < WORD_SIZE && nameLength < 0x1_0000
    ensures |words| == 23
  {
    Two(CENTRAL_SIGNATURE) + [0x0314, 20, 0, 0, 0, 0x21] + Two(crc) + Two(size) + Two(size)
    + [nameLength, 0, 0, 0, 0] + Two(REGULAR_FILE_MODE * 0x1_0000) + Two(0)
  }

  function EndWords(centralSize: nat, centralOffset: nat): (words: seq<word16>)
    requires centralSize < WORD_SIZE && centralOffset < WORD_SIZE
    ensures |words| == 11
  {
    Two(END_SIGNATURE) + [0, 0, 1, 1] + Two(centralSize) + Two(centralOffset) + [0]
  }

  predicate Fits(name: seq<byte>, contents: seq<byte>) {
    |name| <= 0xffff && 30 + |name| + |contents| < WORD_SIZE
  }

  /** The archive with a given stored checksum, whether or not the contents have it. */
  function Layout(name: seq<byte>, crc: nat, contents: seq<byte>): seq<byte>
    requires Fits(name, contents) && crc < WORD_SIZE
  {
    Bytes(LocalWords(crc, |contents|, |name|)) + name + contents
    + Bytes(CentralWords(crc, |contents|, |name|)) + name
    + Bytes(EndWords(46 + |name|, 30 + |name| + |contents|))
  }

  method WriteLocalHeader(crc: nat, size: nat, nameLength: nat) returns (header: seq<byte>)
    requires crc < WORD_SIZE && size < WORD_SIZE && nameLength < 0x1_0000
    ensures header == Bytes(LocalWords(crc, size, nameLength))
  {
    hide Bytes, Two;
    var local := new byte[30](_ => 0);
    assert local[..0] == Bytes([]);
    ghost var w := WriteUInt32LE(local, LOCAL_SIGNATURE, 0, []);
    w := WriteUInt16LE(local, 20, 4, w);
    w := WriteUInt16LE(local, 0, 6, w);
    w := WriteUInt16LE(local, 0, 8, w);
    w := WriteUInt16LE(local, 0, 10, w);
    w := WriteUInt16LE(local, 0x21, 12, w);
    assert w == Two(LOCAL_SIGNATURE) + [20, 0, 0, 0, 0x21];
    w := WriteUInt32LE(local, crc, 14, w);
    w := WriteUInt32LE(local, size, 18, w);
    w := WriteUInt32LE(local, size, 22, w);
    w := WriteUInt16LE(local, nameLength, 26, w);
    w := WriteUInt16LE(local, 0, 28, w);
    assert w == LocalWords(crc, size, nameLength);
    header := local[..30];
  }

  method WriteCentralHeader(crc: nat, size: nat, nameLength: nat) returns (header: seq<byte>)
    requires crc < WORD_SIZE && size < WORD_SIZE && nameLength < 0x1_0000
    ensures header == Bytes(CentralWords(crc, size, nameLength))
  {
    hide Bytes, Two;
    var central := new byte[46](_ => 0);
    assert central[..0] == Bytes([]);
    ghost var w := WriteUInt32LE(central, CENTRAL_SIGNATURE, 0, []);
    w := WriteUInt16LE(central, 0x0314, 4, w);
    w := WriteUInt16LE(central, 20, 6, w);
    w := WriteUInt16LE(central, 0, 8, w);
    w := WriteUInt16LE(central, 0, 10, w);
    w := WriteUInt16LE(central, 0, 12, w);
    w := WriteUInt16LE(central, 0x21, 14, w);
    assert w == Two(CENTRAL_SIGNATURE) + [0x0314, 20, 0, 0, 0, 0x21];
    w := WriteCentralSizes(central, crc, size, nameLength, w);
    w := WriteCentralTail(central, w);
    assert w == CentralWords(crc, size, nameLength);
    header := central[..46];
  }

  method WriteCentralSizes(central: array<byte>, crc: nat, size: nat, nameLength: nat, ghost written: seq<word16>)
    returns (ghost now: seq<word16>)
    requires crc < WORD_SIZE && size < WORD_SIZE && nameLength < 0x1_0000
    requires central.Length == 46 && central[..16] == Bytes(written)
    modifies central
    ensures now == written + Two(crc) + Two(size) + Two(size) + [nameLength] && central[..30] == Bytes(now)
  {
    hide Bytes, Two;
    now := WriteUInt32LE(central, crc, 16, written);
    now := WriteUInt32LE(central, size, 20, now);
    now := WriteUInt32LE(central, size, 24, now);
    now := WriteUInt16LE(central, nameLength, 28, now);
  }

  method WriteCentralTail(central: array<byte>, ghost written: seq<word16>) returns (ghost now: seq<word16>)
    requires central.Length == 46 && central[..30] == Bytes(written)
    modifies central
    ensures now == written + [0, 0, 0, 0] + Two(REGULAR_FILE_MODE * 0x1_0000) + Two(0)
    ensures central[..46] == Bytes(now)
  {
    hide Bytes, Two;
    now := WriteUInt16LE(central, 0, 30, written);
    now := WriteUInt16LE(central, 0, 32, now);
    now := WriteUInt16LE(central, 0, 34, now);
    now := WriteUInt16LE(central, 0, 36, now);
    now := WriteUInt32LE(central, REGULAR_FILE_MODE * 0x1_0000, 38, now);
    now := WriteUInt32LE(central, 0, 42, now);
  }

  method WriteEndRecord(centralSize: nat, centralOffset: nat) returns (record: seq<byte>)
    requires centralSize < WORD_SIZE && centralOffset < WORD_SIZE
    ensures record == Bytes(EndWords(centralSize, centralOffset))
  {
    hide Bytes, Two;
    var end := new byte[22](_ => 0);
    assert end[..0] == Bytes([]);
    ghost var w := WriteUInt32LE(end, END_SIGNATURE, 0, []);
    w := WriteUInt16LE(end, 0, 4, w);
    w := WriteUInt16LE(end, 0, 6, w);
    w := WriteUInt16LE(end, 1, 8, w);
    w := WriteUInt16LE(end, 1, 10, w);
    assert w == Two(END_SIGNATURE) + [0, 0, 1, 1];
    w := WriteUInt32LE(end, centralSize, 12, w);
    w := WriteUInt32LE(end, centralOffset, 16, w);
    w := WriteUInt16LE(end, 0, 20, w);
    assert w == EndWords(centralSize, centralOffset);
    record := end[..22];
  }

  /**
   The exporter. Its own guard admits contents whose end-record offset needs more than 32
   bits; the offset write then refuses, so the archive exists exactly when `Fits` holds.
   */
  method CreateStoredZip(name: seq<byte>, contents: seq<byte>) returns (r: Result<seq<byte>, ZipError>)
    ensures r.Ok? <==> Fits(name, contents)
    ensures r.Ok? ==> r.value == Layout(name, Crc32.Checksum(contents), contents)
    ensures r == Err(EntryExceedsLimits) <==> |name| > 0xffff || |contents| > 0xffffffff
  {
    hide Bytes, LocalWords, CentralWords, EndWords;
    if |name| > 0xffff || |contents| > 0xffffffff {
      return Err(EntryExceedsLimits);
    }
    var register := Crc32.Compute(contents);
    WordNumber(register);
    var checksum := ToNat(register);
    var local := WriteLocalHeader(checksum, |contents|, |name|);
    var central := WriteCentralHeader(checksum, |contents|, |name|);
    var centralSize, centralOffset := |central| + |name|, |local| + |name| + |contents|;
    if centralOffset >= WORD_SIZE {
      return Err(OffsetOutOfRange);
    }
    var end := WriteEndRecord(centralSize, centralOffset);
    r := Ok(local + name + contents + central + name + end);
  }

  // ---------- the reader ----------

  predicate IsEndRecord(a: seq<byte>, p: nat) {
    p + 22 <= |a| && At32(a, p) == END_SIGNATURE && p + 22 + At16(a, p + 20) == |a|
  }

  /** The last end record at or before p. */
  function FindEnd(a: seq<byte>, p: nat): (e: Option<nat>)
    ensures e.Some? ==> IsEndRecord(a, e.value)
  {
    if IsEndRecord(a, p) then Some(p) else if p == 0 then None else FindEnd(a, p - 1)
  }

  /** The bytes of the one stored entry described by the local header at `offset`. */
  function ReadLocal(a: seq<byte>, offset: nat, limit: nat, name: seq<byte>, crc: nat, size: nat): Option<seq<byte>>
    requires limit <= |a|
  {
    if offset + 30 > limit || At32(a, offset) != LOCAL_SIGNATURE || At16(a, offset + 8) != 0 then None
    else
      var data := offset + 30 + At16(a, offset + 26) + At16(a, offset + 28);
      if data + size > limit || At32(a, offset + 14) != crc || At32(a, offset + 18) != size
         || a[offset + 30..offset + 30 + At16(a, offset + 26)] != name
         || Crc32.Checksum(a[data..data + size]) != crc
      then None
      else Some(a[data..data + size])
  }

  /** The central entry at `offset`, which must end exactly at `end`, and the file it leads to. */
  function ReadCentral(a: seq<byte>, offset: nat, end: nat): Option<(seq<byte>, seq<byte>)>
    requires end <= |a|
  {
    if offset + 46 > end || At32(a, offset) != CENTRAL_SIGNATURE || At16(a, offset + 10) != 0
       || offset + 46 + At16(a, offset + 28) + At16(a, offset + 30) + At16(a, offset + 32) != end
       || At32(a, offset + 20) != At32(a, offset + 24)
    then None
    else
      var name := a[offset + 46..offset + 46 + At16(a, offset + 28)];
      match ReadLocal(a, At32(a, offset + 42), offset, name, At32(a, offset + 16), At32(a, offset + 24))
      case Some(data) => Some((name, data))
      case None => None
  }

  function ReadArchive(a: seq<byte>): Option<(seq<byte>, seq<byte>)> {
    if |a| < 22 then None
    else
      match FindEnd(a, |a| - 22)
      case None => None
      case Some(e) =>
        if At16(a, e + 4) != 0 || At16(a, e + 6) != 0 || At16(a, e + 8) != 1 || At16(a, e + 10) != 1
           || At32(a, e + 16) + At32(a, e + 12) != e
        then None
        else ReadCentral(a, At32(a, e + 16), e)
  }

  // ---------- the reader recovers what was written ----------

  // The records field by field, as section 4.3.7, 4.3.12 and 4.3.16 of the APPNOTE lay them out: version 2.0, made by
  // Unix, no flags, stored, midnight of 1 January 1980, a regular file of mode 0644.

  predicate IsLocalHeader(a: seq<byte>, crc: nat, size: nat, nameLength: nat) {
    && 30 <= |a| && At32(a, 0) == 0x0403_4b50 && At16(a, 4) == 20 && At16(a, 6) == 0 && At16(a, 8) == 0
    && At16(a, 10) == 0 && At16(a, 12) == 0x21 && At32(a, 14) == crc && At32(a, 18) == size && At32(a, 22) == size
    && At16(a, 26) == nameLength && At16(a, 28) == 0
  }

  predicate IsCentralHeader(a: seq<byte>, k: nat, crc: nat, size: nat, nameLength: nat) {
    && k + 46 <= |a| && At32(a, k) == 0x0201_4b50 && At16(a, k + 4) == 0x0314 && At16(a, k + 6) == 20
    && At16(a, k + 8) == 0 && At16(a, k + 10) == 0 && At16(a, k + 12) == 0 && At16(a, k + 14) == 0x21
    && At32(a, k + 16) == crc && At32(a, k + 20) == size && At32(a, k + 24) == size && At16(a, k + 28) == nameLength
    && At16(a, k + 30) == 0 && At16(a, k + 32) == 0 && At16(a, k + 34) == 0 && At16(a, k + 36) == 0
    && At32(a, k + 38) == 0x81a4_0000 && At32(a, k + 42) == 0
  }

  predicate IsEnd(a: seq<byte>, e: nat, centralSize: nat, centralOffset: nat) {
    && e + 22 == |a| && At32(a, e) == 0x0605_4b50 && At16(a, e + 4) == 0 && At16(a, e + 6) == 0 && At16(a, e + 8) == 1
    && At16(a, e + 10) == 1 && At32(a, e + 12) == centralSize && At32(a, e + 16) == centralOffset && At16(a, e + 20) == 0
  }

  lemma LocalFields(a: seq<byte>, crc: nat, size: nat, nameLength: nat)
    requires crc < WORD_SIZE && size < WORD_SIZE && nameLength < 0x1_0000
    requires 30 <= |a| && a[0..30] == Bytes(LocalWords(crc, size, nameLength))
    ensures IsLocalHeader(a, crc, size, nameLength)
  {
    var w := LocalWords(crc, size, nameLength);
    WordsReadBack(w, a, 0);
    assert At16(a, 0 + 2 * 2) == w[2] && At16(a, 0 + 2 * 3) == w[3] && At16(a, 0 + 2 * 5) == w[5];
    assert At16(a, 0 + 2 * 6) == w[6] && At16(a, 0 + 2 * 11) == w[11] && At16(a, 0 + 2 * 12) == w[12];
    assert At16(a, 0 + 2 * 0) == w[0] && At16(a, 0 + 2 * 1) == w[1] && At16(a, 0 + 2 * 4) == w[4];
    assert At16(a, 0 + 2 * 7) == w[7] && At16(a, 0 + 2 * 8) == w[8] && At16(a, 0 + 2 * 9) == w[9];
    assert At16(a, 0 + 2 * 10) == w[10] && At16(a, 0 + 2 * 13) == w[13] && At16(a, 0 + 2 * 14) == w[14];
  }

  lemma CentralFields(a: seq<byte>, k: nat, crc: nat, size: nat, nameLength: nat)
    requires crc < WORD_SIZE && size < WORD_SIZE && nameLength < 0x1_0000
    requires k + 46 <= |a| && a[k..k + 46] == Bytes(CentralWords(crc, size, nameLength))
    ensures IsCentralHeader(a, k, crc, size, nameLength)
  {
    var w := CentralWords(crc, size, nameLength);
    WordsReadBack(w, a, k);
    assert At16(a, k + 2 * 2) == w[2] && At16(a, k + 2 * 3) == w[3] && At16(a, k + 2 * 4) == w[4];
    assert At16(a, k + 2 * 6) == w[6] && At16(a, k + 2 * 7) == w[7] && At16(a, k + 2 * 17) == w[17];
    assert At16(a, k + 2 * 18) == w[18] && At16(a, k + 2 * 19) == w[19] && At16(a, k + 2 * 20) == w[20];
    assert At16(a, k + 2 * 0) == w[0] && At16(a, k + 2 * 1) == w[1] && At16(a, k + 2 * 5) == w[5];
    assert At16(a, k + 2 * 8) == w[8] && At16(a, k + 2 * 9) == w[9] && At16(a, k + 2 * 10) == w[10];
    assert At16(a, k + 2 * 11) == w[11] && At16(a, k + 2 * 12) == w[12] && At16(a, k + 2 * 13) == w[13];
    assert At16(a, k + 2 * 14) == w[14] && At16(a, k + 2 * 15) == w[15] && At16(a, k + 2 * 16) == w[16];
    assert At16(a, k + 2 * 21) == w[21] && At16(a, k + 2 * 22) == w[22];
  }

  lemma EndFields(a: seq<byte>, e: nat, centralSize: nat, centralOffset: nat)
    requires centralSize < WORD_SIZE && centralOffset < WORD_SIZE
    requires e + 22 == |a| && a[e..e + 22] == Bytes(EndWords(centralSize, centralOffset))
    ensures IsEnd(a, e, centralSize, centralOffset)
  {
    var w := EndWords(centralSize, centralOffset);
    WordsReadBack(w, a, e);
    assert At16(a, e + 2 * 0) == w[0] && At16(a, e + 2 * 1) == w[1] && At16(a, e + 2 * 2) == w[2];
    assert At16(a, e + 2 * 3) == w[3] && At16(a, e + 2 * 4) == w[4] && At16(a, e + 2 * 5) == w[5];
    assert At16(a, e + 2 * 6) == w[6] && At16(a, e + 2 * 7) == w[7] && At16(a, e + 2 * 8) == w[8];
    assert At16(a, e + 2 * 9) == w[9] && At16(a, e + 2 * 10) == w[10];
  }

  /** The archive is any byte sequence with these parts. */
  predicate HasParts(a: seq<byte>, name: seq<byte>, crc: nat, contents: seq<byte>)
    requires Fits(name, contents) && crc < WORD_SIZE
  {
    var n, c := |name|, |contents|;
    && |a| == 98 + 2 * n + c
    && a[0..30] == Bytes(LocalWords(crc, c, n)) && a[30..30 + n] == name && a[30 + n..30 + n + c] == contents
    && a[30 + n + c..76 + n + c] == Bytes(CentralWords(crc, c, n))
    && a[76 + n + c..76 + 2 * n + c] == name
    && a[76 + 2 * n + c..98 + 2 * n + c] == Bytes(EndWords(46 + n, 30 + n + c))
  }

  lemma LayoutParts(name: seq<byte>, crc: nat, contents: seq<byte>)
    requires Fits(name, contents) && crc < WORD_SIZE
    ensures HasParts(Layout(name, crc, contents), name, crc, contents)
  {
  }

  /** The three records, with the name after both headers and the contents between them. */
  predicate HasFields(a: seq<byte>, name: seq<byte>, crc: nat, contents: seq<byte>) {
    var n, c := |name|, |contents|;
    && |a| == 98 + 2 * n + c && IsLocalHeader(a, crc, c, n) && IsCentralHeader(a, 30 + n + c, crc, c, n)
    && IsEnd(a, 76 + 2 * n + c, 46 + n, 30 + n + c)
    && a[30..30 + n] == name && a[30 + n..30 + n + c] == contents && a[76 + n + c..76 + 2 * n + c] == name
  }

  lemma PartsHaveFields(a: seq<byte>, name: seq<byte>, crc: nat, contents: seq<byte>)
    requires Fits(name, contents) && crc < WORD_SIZE && HasParts(a, name, crc, contents)
    ensures HasFields(a, name, crc, contents)
  {
    var n, c := |name|, |contents|;
    hide Bytes, LocalWords, CentralWords, EndWords, IsLocalHeader, IsCentralHeader, IsEnd;
    LocalFields(a, crc, c, n);
    CentralFields(a, 30 + n + c, crc, c, n);
    EndFields(a, 76 + 2 * n + c, 46 + n, 30 + n + c);
  }

  lemma LayoutFields(name: seq<byte>, crc: nat, contents: seq<byte>)
    requires Fits(name, contents) && crc < WORD_SIZE
    ensures HasFields(Layout(name, crc, contents), name, crc, contents)
  {
    hide *;
    LayoutParts(name, crc, contents);
    PartsHaveFields(Layout(name, crc, contents), name, crc, contents);
  }

  lemma ReadLocalPart(a: seq<byte>, name: seq<byte>, crc: nat, contents: seq<byte>)
    requires 30 + |name| + |contents| <= |a| && IsLocalHeader(a, crc, |contents|, |name|)
    requires a[30..30 + |name|] == name && a[30 + |name|..30 + |name| + |contents|] == contents
    ensures ReadLocal(a, 0, 30 + |name| + |contents|, name, crc, |contents|)
         == if Crc32.Checksum(contents) == crc then Some(contents) else None
  {
  }

  lemma ReadCentralPart(a: seq<byte>, k: nat, name: seq<byte>, crc: nat, contents: seq<byte>)
    requires k == 30 + |name| + |contents| && k + 46 + |name| <= |a|
    requires IsLocalHeader(a, crc, |contents|, |name|) && IsCentralHeader(a, k, crc, |contents|, |name|)
    requires a[30..30 + |name|] == name && a[30 + |name|..k] == contents && a[k + 46..k + 46 + |name|] == name
    ensures ReadCentral(a, k, k + 46 + |name|)
         == if Crc32.Checksum(contents) == crc then Some((name, contents)) else None
  {
    ReadLocalPart(a, name, crc, contents);
  }

  lemma EndIsRead(a: seq<byte>, name: seq<byte>, crc: nat, contents: seq<byte>)
    requires Fits(name, contents) && crc < WORD_SIZE && HasParts(a, name, crc, contents)
    ensures ReadArchive(a) == ReadCentral(a, 30 + |name| + |contents|, 76 + 2 * |name| + |contents|)
  {
    hide Bytes, LocalWords, CentralWords, EndWords, ReadCentral, At16, At32;
    var e := 76 + 2 * |name| + |contents|;
    EndFields(a, e, 46 + |name|, 30 + |name| + |contents|);
    assert FindEnd(a, |a| - 22) == Some(e);
  }

  lemma ReadParts(a: seq<byte>, name: seq<byte>, crc: nat, contents: seq<byte>)
    requires Fits(name, contents) && crc < WORD_SIZE && HasParts(a, name, crc, contents)
    ensures ReadArchive(a) == if Crc32.Checksum(contents) == crc then Some((name, contents)) else None
  {
    hide Bytes, LocalWords, CentralWords, EndWords, ReadCentral, ReadArchive, At16, At32;
    LocalFields(a, crc, |contents|, |name|);
    CentralFields(a, 30 + |name| + |contents|, crc, |contents|, |name|);
    EndIsRead(a, name, crc, contents);
    var k := 30 + |name| + |contents|;
    ReadCentralPart(a, k, name, crc, contents);
  }

  lemma ReadLayout(name: seq<byte>, crc: nat, contents: seq<byte>)
    requires Fits(name, contents) && crc < WORD_SIZE
    ensures ReadArchive(Layout(name, crc, contents))
         == if Crc32.Checksum(contents) == crc then Some((name, contents)) else None
  {
    LayoutParts(name, crc, contents);
    ReadParts(Layout(name, crc, contents), name, crc, contents);
  }

  /** Round trip: a reader of the produced archive gets back the name and the contents. */
  lemma RoundTrip(name: seq<byte>, contents: seq<byte>)
    requires Fits(name, contents)
    ensures ReadArchive(Layout(name, Crc32.Checksum(contents), contents)) == Some((name, contents))
    ensures |Layout(name, Crc32.Checksum(contents), contents)| == 98 + 2 * |name| + |contents|
  {
    ReadLayout(name, Crc32.Checksum(contents), contents);
    LayoutParts(name, Crc32.Checksum(contents), contents);
  }

  /** Damage to the file data confined to a window of four bytes never yields a file. */
  lemma DamagedWindowIsRejected(name: seq<byte>, before: seq<byte>, u: seq<byte>, v: seq<byte>, after: seq<byte>)
    requires Fits(name, before + u + after)
    requires |u| == |v| <= 4 && u != v
    ensures Fits(name, before + v + after)
    ensures ReadArchive(Layout(name, Crc32.Checksum(before + u + after), before + v + after)) == None
  {
    Crc32.FourByteWindowIsDetected(before, u, v, after);
    ReadLayout(name, Crc32.Checksum(before + u + after), before + v + after);
  }
}
