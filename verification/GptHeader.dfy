/**
  The 512-byte GPT header (external/gptfdisk/gpt.h, section 5.3.2 of the UEFI
  Specification): its little-endian layout, the checksum that covers it, and what a
  half-written or damaged header can still be read as.
 */
module GptHeader {
  import opened Crc32

  const GPT_SIGNATURE: nat := 0x5452415020494645
  const GPT_REVISION: nat := 0x00010000
  const HEADER_SIZE: nat := 92
  const HEADER_BYTES: nat := 512
  const GPT_SIZE: nat := 128

  /** Any checksum at all; `Crc32.Checksum32` is the one the program uses. */
  type Summer = Bytes -> U32

  lemma SliceOfSlice<T>(s: seq<T>, lo: nat, hi: nat, i: nat, j: nat)
    requires i <= j && lo + j <= hi <= |s|
    ensures s[lo..hi][i..j] == s[lo + i..lo + j]
  {
    var a, b := s[lo..hi][i..j], s[lo + i..lo + j];
    forall k | 0 <= k < j - i ensures a[k] == b[k] {
      assert a[k] == s[lo..hi][i + k] == s[lo + (i + k)];
    }
  }

  // ----- little-endian numbers -----

  function Pow256(w: nat): nat {
    if w == 0 then 1 else 256 * Pow256(w - 1)
  }

  function LE(n: nat, w: nat): (b: Bytes)
    ensures |b| == w
  {
    if w == 0 then [] else [n % 256] + LE(n / 256, w - 1)
  }

  function FromLE(b: Bytes): nat {
    if b == [] then 0 else b[0] + 256 * FromLE(b[1..])
  }

  lemma {:induction false} LERoundTrip(n: nat, w: nat)
    requires n < Pow256(w)
    ensures FromLE(LE(n, w)) == n
  {
    if w > 0 {
      LERoundTrip(n / 256, w - 1);
      assert LE(n, w)[1..] == LE(n / 256, w - 1);
    }
  }

  // ----- the header record -----

  datatype Header = Header(
    signature: nat, revision: nat, headerSize: nat, headerCRC: nat, reserved: nat,
    currentLBA: nat, backupLBA: nat, firstUsableLBA: nat, lastUsableLBA: nat, diskGUID: Bytes,
    partitionEntriesLBA: nat, numParts: nat, sizeOfPartitionEntries: nat, partitionEntriesCRC: nat,
    reserved2: Bytes)

  /** Every field fits its place in the packed structure. */
  predicate Fits(h: Header) {
    && h.signature < Pow256(8) && h.revision < Pow256(4) && h.headerSize < Pow256(4)
    && h.headerCRC < Pow256(4) && h.reserved < Pow256(4)
    && h.currentLBA < Pow256(8) && h.backupLBA < Pow256(8)
    && h.firstUsableLBA < Pow256(8) && h.lastUsableLBA < Pow256(8)
    && |h.diskGUID| == 16
    && h.partitionEntriesLBA < Pow256(8) && h.numParts < Pow256(4)
    && h.sizeOfPartitionEntries < Pow256(4) && h.partitionEntriesCRC < Pow256(4)
    && |h.reserved2| == 420
  }

  function EncodeStart(h: Header): (b: Bytes)
    ensures |b| == 24
  {
    LE(h.signature, 8) + LE(h.revision, 4) + LE(h.headerSize, 4) + LE(h.headerCRC, 4) + LE(h.reserved, 4)
  }

  function EncodePlace(h: Header): (b: Bytes)
    ensures |b| == 32
  {
    LE(h.currentLBA, 8) + LE(h.backupLBA, 8) + LE(h.firstUsableLBA, 8) + LE(h.lastUsableLBA, 8)
  }

  function EncodeTable(h: Header): (b: Bytes)
    ensures |b| == 20
  {
    LE(h.partitionEntriesLBA, 8) + LE(h.numParts, 4) + LE(h.sizeOfPartitionEntries, 4) + LE(h.partitionEntriesCRC, 4)
  }

  function Encode(h: Header): (b: Bytes)
    requires |h.diskGUID| == 16 && |h.reserved2| == 420
    ensures |b| == HEADER_BYTES
  {
    EncodeStart(h) + EncodePlace(h) + h.diskGUID + EncodeTable(h) + h.reserved2
  }

  function Field(b: Bytes, at: nat, w: nat): nat
    requires at + w <= |b|
  {
    FromLE(b[at..at + w])
  }

  function Decode(b: Bytes): Header
    requires |b| == HEADER_BYTES
  {
    Header(Field(b, 0, 8), Field(b, 8, 4), Field(b, 12, 4), Field(b, 16, 4), Field(b, 20, 4),
           Field(b, 24, 8), Field(b, 32, 8), Field(b, 40, 8), Field(b, 48, 8), b[56..72],
           Field(b, 72, 8), Field(b, 80, 4), Field(b, 84, 4), Field(b, 88, 4), b[92..])
  }

  lemma EncodeParts(h: Header)
    requires |h.diskGUID| == 16 && |h.reserved2| == 420
    ensures var b := Encode(h);
            b[0..24] == EncodeStart(h) && b[24..56] == EncodePlace(h) && b[56..72] == h.diskGUID
            && b[72..92] == EncodeTable(h) && b[92..] == h.reserved2
  {}

  lemma FieldOfPart(b: Bytes, part: Bytes, from: nat, at: nat, w: nat)
    requires from + |part| <= |b| && b[from..from + |part|] == part && at + w <= |part|
    ensures Field(b, from + at, w) == Field(part, at, w)
  {
    SliceOfSlice(b, from, from + |part|, at, at + w);
  }

  lemma StartFields(h: Header)
    requires Fits(h)
    ensures var p := EncodeStart(h);
            && Field(p, 0, 8) == h.signature && Field(p, 8, 4) == h.revision && Field(p, 12, 4) == h.headerSize
            && Field(p, 16, 4) == h.headerCRC && Field(p, 20, 4) == h.reserved
  {
    var p := EncodeStart(h);
    assert p[0..8] == LE(h.signature, 8) && p[8..12] == LE(h.revision, 4) && p[12..16] == LE(h.headerSize, 4);
    assert p[16..20] == LE(h.headerCRC, 4) && p[20..24] == LE(h.reserved, 4);
    LERoundTrip(h.signature, 8);
    LERoundTrip(h.revision, 4);
    LERoundTrip(h.headerSize, 4);
    LERoundTrip(h.headerCRC, 4);
    LERoundTrip(h.reserved, 4);
  }

  lemma PlaceFields(h: Header)
    requires Fits(h)
    ensures var p := EncodePlace(h);
            && Field(p, 0, 8) == h.currentLBA && Field(p, 8, 8) == h.backupLBA
            && Field(p, 16, 8) == h.firstUsableLBA && Field(p, 24, 8) == h.lastUsableLBA
  {
    var p := EncodePlace(h);
    assert p[0..8] == LE(h.currentLBA, 8) && p[8..16] == LE(h.backupLBA, 8);
    assert p[16..24] == LE(h.firstUsableLBA, 8) && p[24..32] == LE(h.lastUsableLBA, 8);
    LERoundTrip(h.currentLBA, 8);
    LERoundTrip(h.backupLBA, 8);
    LERoundTrip(h.firstUsableLBA, 8);
    LERoundTrip(h.lastUsableLBA, 8);
  }

  lemma TableFields(h: Header)
    requires Fits(h)
    ensures var p := EncodeTable(h);
            && Field(p, 0, 8) == h.partitionEntriesLBA && Field(p, 8, 4) == h.numParts
            && Field(p, 12, 4) == h.sizeOfPartitionEntries && Field(p, 16, 4) == h.partitionEntriesCRC
  {
    var p := EncodeTable(h);
    assert p[0..8] == LE(h.partitionEntriesLBA, 8) && p[8..12] == LE(h.numParts, 4);
    assert p[12..16] == LE(h.sizeOfPartitionEntries, 4) && p[16..20] == LE(h.partitionEntriesCRC, 4);
    LERoundTrip(h.partitionEntriesLBA, 8);
    LERoundTrip(h.numParts, 4);
    LERoundTrip(h.sizeOfPartitionEntries, 4);
    LERoundTrip(h.partitionEntriesCRC, 4);
  }

  /** Reading back a written header gives every field back. */
  lemma HeaderRoundTrip(h: Header)
    requires Fits(h)
    ensures Decode(Encode(h)) == h
  {
    var b := Encode(h);
    EncodeParts(h);
    StartFields(h);
    PlaceFields(h);
    TableFields(h);
    var s, p, t := EncodeStart(h), EncodePlace(h), EncodeTable(h);
    FieldOfPart(b, s, 0, 0, 8);
    FieldOfPart(b, s, 0, 8, 4);
    FieldOfPart(b, s, 0, 12, 4);
    FieldOfPart(b, s, 0, 16, 4);
    FieldOfPart(b, s, 0, 20, 4);
    FieldOfPart(b, p, 24, 0, 8);
    FieldOfPart(b, p, 24, 8, 8);
    FieldOfPart(b, p, 24, 16, 8);
    FieldOfPart(b, p, 24, 24, 8);
    FieldOfPart(b, t, 72, 0, 8);
    FieldOfPart(b, t, 72, 8, 4);
    FieldOfPart(b, t, 72, 12, 4);
    FieldOfPart(b, t, 72, 16, 4);
  }

  // ----- the other direction: a header in memory is exactly the bytes that were read -----

  lemma {:induction false} FromLERoundTrip(b: Bytes)
    ensures LE(FromLE(b), |b|) == b && FromLE(b) < Pow256(|b|)
  {
    if b != [] {
      FromLERoundTrip(b[1..]);
      assert b == [b[0]] + b[1..];
    }
  }

  lemma DecodeFits(b: Bytes)
    requires |b| == HEADER_BYTES
    ensures Fits(Decode(b))
  {
    FromLERoundTrip(b[0..8]);
    FromLERoundTrip(b[8..12]);
    FromLERoundTrip(b[12..16]);
    FromLERoundTrip(b[16..20]);
    FromLERoundTrip(b[20..24]);
    FromLERoundTrip(b[24..32]);
    FromLERoundTrip(b[32..40]);
    FromLERoundTrip(b[40..48]);
    FromLERoundTrip(b[48..56]);
    FromLERoundTrip(b[72..80]);
    FromLERoundTrip(b[80..84]);
    FromLERoundTrip(b[84..88]);
    FromLERoundTrip(b[88..92]);
  }

  lemma DecodedStart(b: Bytes)
    requires |b| == HEADER_BYTES
    ensures EncodeStart(Decode(b)) == b[0..24]
  {
    FromLERoundTrip(b[0..8]);
    FromLERoundTrip(b[8..12]);
    FromLERoundTrip(b[12..16]);
    FromLERoundTrip(b[16..20]);
    FromLERoundTrip(b[20..24]);
    assert b[0..24] == b[0..8] + b[8..12] + b[12..16] + b[16..20] + b[20..24];
  }

  lemma DecodedPlace(b: Bytes)
    requires |b| == HEADER_BYTES
    ensures EncodePlace(Decode(b)) == b[24..56]
  {
    FromLERoundTrip(b[24..32]);
    FromLERoundTrip(b[32..40]);
    FromLERoundTrip(b[40..48]);
    FromLERoundTrip(b[48..56]);
    assert b[24..56] == b[24..32] + b[32..40] + b[40..48] + b[48..56];
  }

  lemma DecodedTable(b: Bytes)
    requires |b| == HEADER_BYTES
    ensures EncodeTable(Decode(b)) == b[72..92]
  {
    FromLERoundTrip(b[72..80]);
    FromLERoundTrip(b[80..84]);
    FromLERoundTrip(b[84..88]);
    FromLERoundTrip(b[88..92]);
    assert b[72..92] == b[72..80] + b[80..84] + b[84..88] + b[88..92];
  }

  lemma BytesRoundTrip(b: Bytes)
    requires |b| == HEADER_BYTES
    ensures Encode(Decode(b)) == b
  {
    DecodedStart(b);
    DecodedPlace(b);
    DecodedTable(b);
    assert b == b[0..24] + b[24..56] + b[56..72] + b[72..92] + b[92..];
  }

  // ----- header checks -----

  function Zeros(n: nat): (z: Bytes)
    ensures |z| == n
  {
    seq(n, _ => 0)
  }

  /** The block the header checksum covers: n bytes of the structure with its own checksum zeroed. */
  function Image(h: Header, n: nat): (b: Bytes)
    requires |h.diskGUID| == 16 && |h.reserved2| == 420
    ensures |b| == n
  {
    var raw := Encode(h.(headerCRC := 0));
    if n <= HEADER_BYTES then raw[..n] else raw + Zeros(n - HEADER_BYTES)
  }

  /** How many bytes CheckHeaderCRC covers: an impossible size is replaced by 92. */
  function Span(h: Header, blockSize: nat): nat {
    if h.headerSize > blockSize || h.headerSize < HEADER_SIZE then HEADER_SIZE else h.headerSize
  }

  /** CheckHeaderCRC. */
  predicate CrcOk(crc: Summer, blockSize: nat, h: Header)
    requires |h.diskGUID| == 16 && |h.reserved2| == 420
  {
    h.headerCRC == crc(Image(h, Span(h, blockSize)))
  }

  /** RecomputeCRCs, for one header: same size for both copies, then both checksums. */
  function Sealed(crc: Summer, h: Header, mainSize: nat, tableCrc: U32): (r: Header)
    requires |h.diskGUID| == 16 && |h.reserved2| == 420
    ensures |r.diskGUID| == 16 && |r.reserved2| == 420
  {
    var size := if mainSize > HEADER_BYTES then HEADER_SIZE else mainSize;
    var blank := h.(headerSize := size, partitionEntriesCRC := tableCrc, headerCRC := 0);
    blank.(headerCRC := crc(Encode(blank)[..size]))
  }

  /**
    A header sealed for saving passes CheckHeaderCRC when it is read again exactly when the
    size field is one the reader believes (between 92 and the block size), unless the
    checksums of the two different spans happen to agree.
   */
  lemma SealedPasses(crc: Summer, blockSize: nat, h: Header, mainSize: nat, tableCrc: U32)
    requires blockSize >= HEADER_BYTES && |h.diskGUID| == 16 && |h.reserved2| == 420
    ensures var r := Sealed(crc, h, mainSize, tableCrc);
            CrcOk(crc, blockSize, r)
            <==> (mainSize >= HEADER_SIZE || crc(Image(r, mainSize)) == crc(Image(r, HEADER_SIZE)))
  {
    var r := Sealed(crc, h, mainSize, tableCrc);
    var size := if mainSize > HEADER_BYTES then HEADER_SIZE else mainSize;
    var blank := h.(headerSize := size, partitionEntriesCRC := tableCrc, headerCRC := 0);
    assert r.(headerCRC := 0) == blank;
    assert Image(r, size) == Encode(blank)[..size];
  }

  // ----- half-written and damaged headers -----

  /** The bytes that place the tables: everything but checksums, size, GUID and padding. */
  predicate SameLayout(a: Bytes, b: Bytes)
    requires |a| == |b| == HEADER_BYTES
  {
    a[0..12] == b[0..12] && a[24..56] == b[24..56] && a[72..88] == b[72..88]
  }

  predicate SameLayoutFields(g: Header, h: Header) {
    && g.signature == h.signature && g.revision == h.revision
    && g.currentLBA == h.currentLBA && g.backupLBA == h.backupLBA
    && g.firstUsableLBA == h.firstUsableLBA && g.lastUsableLBA == h.lastUsableLBA
    && g.partitionEntriesLBA == h.partitionEntriesLBA && g.numParts == h.numParts
    && g.sizeOfPartitionEntries == h.sizeOfPartitionEntries
  }

  lemma FieldOfSlice(a: Bytes, b: Bytes, lo: nat, hi: nat, at: nat, w: nat)
    requires hi <= |a| && hi <= |b| && lo <= at && at + w <= hi && a[lo..hi] == b[lo..hi]
    ensures Field(a, at, w) == Field(b, at, w)
  {
    SliceOfSlice(a, lo, hi, at - lo, at - lo + w);
    SliceOfSlice(b, lo, hi, at - lo, at - lo + w);
  }

  lemma LayoutFields(a: Bytes, b: Bytes)
    requires |a| == |b| == HEADER_BYTES && SameLayout(a, b)
    ensures SameLayoutFields(Decode(a), Decode(b))
  {
    FieldOfSlice(a, b, 0, 12, 0, 8);
    FieldOfSlice(a, b, 0, 12, 8, 4);
    FieldOfSlice(a, b, 24, 56, 24, 8);
    FieldOfSlice(a, b, 24, 56, 32, 8);
    FieldOfSlice(a, b, 24, 56, 40, 8);
    FieldOfSlice(a, b, 24, 56, 48, 8);
    FieldOfSlice(a, b, 72, 88, 72, 8);
    FieldOfSlice(a, b, 72, 88, 80, 4);
    FieldOfSlice(a, b, 72, 88, 84, 4);
  }

  lemma EncodeSameLayout(g: Header, h: Header)
    requires |g.diskGUID| == 16 && |g.reserved2| == 420 && |h.diskGUID| == 16 && |h.reserved2| == 420
    requires SameLayoutFields(g, h)
    ensures SameLayout(Encode(g), Encode(h))
  {
    var a, b := Encode(g), Encode(h);
    EncodeParts(g);
    EncodeParts(h);
    assert EncodeStart(g)[0..12] == LE(g.signature, 8) + LE(g.revision, 4);
    assert EncodeStart(h)[0..12] == LE(h.signature, 8) + LE(h.revision, 4);
    assert a[0..12] == a[0..24][0..12] && b[0..12] == b[0..24][0..12];
    assert EncodeTable(g)[0..16] == LE(g.partitionEntriesLBA, 8) + LE(g.numParts, 4) + LE(g.sizeOfPartitionEntries, 4);
    assert EncodeTable(h)[0..16] == LE(h.partitionEntriesLBA, 8) + LE(h.numParts, 4) + LE(h.sizeOfPartitionEntries, 4);
    assert a[72..88] == a[72..92][0..16] && b[72..88] == b[72..92][0..16];
  }

  /** Any interleaving of the bytes of two headers for the same layout is laid out the same. */
  lemma TornSameLayout(g: Header, h: Header, j: nat)
    requires Fits(g) && Fits(h) && SameLayoutFields(g, h) && j <= HEADER_BYTES
    ensures SameLayoutFields(Decode(Encode(g)[..j] + Encode(h)[j..]), h)
  {
    var a, b := Encode(g), Encode(h);
    var t := a[..j] + b[j..];
    EncodeSameLayout(g, h);
    forall i | 0 <= i < 12 ensures t[i] == b[i] {
      assert a[0..12][i] == b[0..12][i];
    }
    forall i | 24 <= i < 56 ensures t[i] == b[i] {
      assert a[24..56][i - 24] == b[24..56][i - 24];
    }
    forall i | 72 <= i < 88 ensures t[i] == b[i] {
      assert a[72..88][i - 72] == b[72..88][i - 72];
    }
    assert SameLayout(t, b);
    LayoutFields(t, b);
    HeaderRoundTrip(h);
  }
}
