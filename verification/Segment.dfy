/** The artifact segment: a sorted binary index and the bodies (internal/artifactsegment/segment.go). */
module Segments {
  // Everything is in one byte array. SHA-256 is the parameter `hash`.

  import opened Wrappers
  import opened ByteStrings
  import opened Documents

  const HEADER_BYTES: nat := 40
  const ENTRY_BYTES: nat := 48
  const MAX_ENTRIES: nat := 65536
  const MAX_SEGMENT_BYTES: nat := 0x1000_0000
  const MAX_ARTIFACT_BYTES: nat := 0x40_0000

  type Hash = Bytes -> Digest

  datatype Entry = Entry(digest: Digest, cbor: Bytes)

  datatype SegmentError = ErrInvalid

  // ----- the segment format --------------------------------------------------

  predicate ValidKind(kind: nat) {
    kind == 1 || kind == 2
  }

  /** An artifact small enough to store, filed under its own hash. */
  predicate ValidEntry(hash: Hash, e: Entry) {
    0 < |e.cbor| <= MAX_ARTIFACT_BYTES && hash(e.cbor) == e.digest
  }

  predicate SortedEntries(entries: seq<Entry>) {
    forall i :: 0 < i < |entries| ==> Less(entries[i - 1].digest, entries[i].digest)
  }

  function Bodies(entries: seq<Entry>): Bytes {
    if entries == [] then [] else Bodies(entries[..|entries| - 1]) + entries[|entries| - 1].cbor
  }

  function IndexEntry(e: Entry, offset: nat): (b: Bytes)
    ensures |b| == ENTRY_BYTES
  {
    e.digest + PutBigEndian(offset, 8) + PutBigEndian(|e.cbor|, 4) + PutBigEndian(0, 4)
  }

  /** The index of entries whose bodies start at `base`. */
  function Index(entries: seq<Entry>, base: nat): (b: Bytes)
    ensures |b| == ENTRY_BYTES * |entries|
  {
    if entries == [] then []
    else
      var init := entries[..|entries| - 1];
      Index(init, base) + IndexEntry(entries[|entries| - 1], base + |Bodies(init)|)
  }

  function BodyBase(count: nat): nat {
    HEADER_BYTES + ENTRY_BYTES * count
  }

  function Magic(): (b: Bytes)
    ensures |b| == 8
  {
    Ascii("TWAS0001")
  }

  function Header(kind: nat, count: nat, total: nat): (b: Bytes)
    ensures |b| == HEADER_BYTES
  {
    Magic() + PutBigEndian(kind, 4) + PutBigEndian(count, 4) + PutBigEndian(HEADER_BYTES, 8)
    + PutBigEndian(BodyBase(count), 8) + PutBigEndian(total, 8)
  }

  function Total(entries: seq<Entry>): nat {
    BodyBase(|entries|) + |Bodies(entries)|
  }

  /** Header, index, bodies, with nothing between or after them. */
  function SegmentBytes(kind: nat, entries: seq<Entry>): (b: Bytes)
    ensures |b| == Total(entries)
  {
    Header(kind, |entries|, Total(entries)) + Index(entries, BodyBase(|entries|)) + Bodies(entries)
  }

  ghost predicate ValidSegment(hash: Hash, kind: nat, entries: seq<Entry>) {
    && ValidKind(kind) && 0 < |entries| <= MAX_ENTRIES
    && (forall e :: e in entries ==> ValidEntry(hash, e))
    && SortedEntries(entries) && Total(entries) <= MAX_SEGMENT_BYTES
  }

  // ----- slices of a segment -------------------------------------------------

  lemma {:induction false} BodyAt(entries: seq<Entry>, i: nat)
    requires i < |entries|
    ensures var start := |Bodies(entries[..i])|;
            && start + |entries[i].cbor| <= |Bodies(entries)|
            && Bodies(entries)[..start] == Bodies(entries[..i])
            && Bodies(entries)[start..start + |entries[i].cbor|] == entries[i].cbor
  {
    var init := entries[..|entries| - 1];
    if i < |init| {
      BodyAt(init, i);
      assert init[..i] == entries[..i];
    }
  }

  lemma {:induction false} IndexAt(entries: seq<Entry>, base: nat, i: nat)
    requires i < |entries|
    ensures Index(entries, base)[ENTRY_BYTES * i..ENTRY_BYTES * i + ENTRY_BYTES]
         == IndexEntry(entries[i], base + |Bodies(entries[..i])|)
  {
    hide IndexEntry, Bodies;
    var init := entries[..|entries| - 1];
    var at := ENTRY_BYTES * i;
    if i < |init| {
      IndexAt(init, base, i);
      assert init[..i] == entries[..i];
      assert Index(entries, base)[at..at + ENTRY_BYTES] == Index(init, base)[at..at + ENTRY_BYTES];
    } else {
      assert Index(entries, base)[at..] == IndexEntry(entries[i], base + |Bodies(init)|);
    }
  }

  /** The fields of an index entry. */
  lemma EntryFields(e: Entry, offset: nat)
    requires offset <= MAX_SEGMENT_BYTES && |e.cbor| <= MAX_ARTIFACT_BYTES
    ensures var b := IndexEntry(e, offset);
            && b[..32] == e.digest
            && BigEndian(b[32..40]) == offset && BigEndian(b[40..44]) == |e.cbor| && BigEndian(b[44..48]) == 0
  {
    var b := IndexEntry(e, offset);
    assert b[32..40] == PutBigEndian(offset, 8) && b[40..44] == PutBigEndian(|e.cbor|, 4) && b[44..48] == PutBigEndian(0, 4);
    Pow256Values();
    BigEndianOfPut(offset, 8);
    BigEndianOfPut(|e.cbor|, 4);
    BigEndianOfPut(0, 4);
  }

  /** The fields of index entry bytes determine them. */
  lemma EntryFromFields(b: Bytes, e: Entry, offset: nat)
    requires |b| == ENTRY_BYTES && b[..32] == e.digest
    requires BigEndian(b[32..40]) == offset && BigEndian(b[40..44]) == |e.cbor| && BigEndian(b[44..48]) == 0
    ensures b == IndexEntry(e, offset)
  {
    PutOfBigEndian(b[32..40]);
    PutOfBigEndian(b[40..44]);
    PutOfBigEndian(b[44..48]);
    hide BigEndian, PutBigEndian;
    assert b == b[..32] + b[32..40] + b[40..44] + b[44..48];
  }

  predicate HeaderFields(b: Bytes, kind: nat, count: nat, total: nat) {
    && |b| == HEADER_BYTES && b[..8] == Magic()
    && BigEndian(b[8..12]) == kind && BigEndian(b[12..16]) == count && BigEndian(b[16..24]) == HEADER_BYTES
    && BigEndian(b[24..32]) == BodyBase(count) && BigEndian(b[32..40]) == total
  }

  lemma HeaderHasFields(kind: nat, count: nat, total: nat)
    requires kind <= 2 && count <= MAX_ENTRIES && total <= MAX_SEGMENT_BYTES
    ensures HeaderFields(Header(kind, count, total), kind, count, total)
  {
    var b := Header(kind, count, total);
    assert b[8..12] == PutBigEndian(kind, 4) && b[12..16] == PutBigEndian(count, 4)
        && b[16..24] == PutBigEndian(HEADER_BYTES, 8) && b[24..32] == PutBigEndian(BodyBase(count), 8)
        && b[32..40] == PutBigEndian(total, 8);
    Pow256Values();
    BigEndianOfPut(kind, 4);
    BigEndianOfPut(count, 4);
    BigEndianOfPut(HEADER_BYTES, 8);
    BigEndianOfPut(BodyBase(count), 8);
    BigEndianOfPut(total, 8);
    hide BigEndian, PutBigEndian, Pow256, Magic;
  }

  lemma HeaderFromFields(b: Bytes, kind: nat, count: nat, total: nat)
    requires HeaderFields(b, kind, count, total)
    ensures b == Header(kind, count, total)
  {
    PutOfBigEndian(b[8..12]);
    PutOfBigEndian(b[12..16]);
    PutOfBigEndian(b[16..24]);
    PutOfBigEndian(b[24..32]);
    PutOfBigEndian(b[32..40]);
    hide BigEndian, PutBigEndian, Magic;
    HeaderParts(b);
  }

  lemma HeaderParts(b: Bytes)
    requires |b| == HEADER_BYTES
    ensures b == b[..8] + b[8..12] + b[12..16] + b[16..24] + b[24..32] + b[32..40]
  {
  }

  // ----- opening -------------------------------------------------------------

  /** The fields of `data`'s `i`-th index entry. */
  function RawEntry(data: Bytes, i: nat): (raw: Bytes)
    requires BodyBase(i + 1) <= |data|
    ensures |raw| == ENTRY_BYTES
  {
    data[BodyBase(i)..BodyBase(i) + ENTRY_BYTES]
  }

  /** What a verified prefix of the index says: the first entries, tiling the
      body region up to `end`. */
  ghost predicate Verified(hash: Hash, data: Bytes, count: nat, entries: seq<Entry>, end: nat) {
    && |entries| <= count && BodyBase(count) <= end <= |data|
    && data[HEADER_BYTES..BodyBase(|entries|)] == Index(entries, BodyBase(count))
    && data[BodyBase(count)..end] == Bodies(entries)
    && (forall e :: e in entries ==> ValidEntry(hash, e))
    && SortedEntries(entries)
  }

  /** Whether index entry `raw` continues `entries`, and the entry it stands for. */
  predicate Continues(hash: Hash, data: Bytes, entries: seq<Entry>, end: nat, raw: Bytes): (yes: bool)
    requires |raw| == ENTRY_BYTES && end <= |data|
    ensures yes ==> end + BigEndian(raw[40..44]) <= |data|
  {
    var length := BigEndian(raw[40..44]);
    && (entries != [] ==> Less(entries[|entries| - 1].digest, raw[..32]))
    && BigEndian(raw[32..40]) == end && 0 < length <= MAX_ARTIFACT_BYTES && BigEndian(raw[44..48]) == 0
    && end + length <= |data| && hash(data[end..end + length]) == raw[..32]
  }

  /** The entry that index entry `raw` announces at offset `end`. */
  function Announced(data: Bytes, end: nat, raw: Bytes): Entry
    requires |raw| == ENTRY_BYTES
  {
    var stop := end + BigEndian(raw[40..44]);
    Entry(raw[..32], if stop <= |data| then data[end..stop] else [])
  }

  lemma IndexStep(data: Bytes, entries: seq<Entry>, base: nat, e: Entry)
    requires BodyBase(|entries| + 1) <= |data|
    requires data[HEADER_BYTES..BodyBase(|entries|)] == Index(entries, base)
    requires RawEntry(data, |entries|) == IndexEntry(e, base + |Bodies(entries)|)
    ensures data[HEADER_BYTES..BodyBase(|entries| + 1)] == Index(entries + [e], base)
  {
    hide IndexEntry, Bodies;
    assert (entries + [e])[..|entries|] == entries;
    JoinSlices(data, HEADER_BYTES, BodyBase(|entries|), BodyBase(|entries| + 1));
  }

  lemma BodiesStep(entries: seq<Entry>, e: Entry)
    ensures Bodies(entries + [e]) == Bodies(entries) + e.cbor
  {
    assert (entries + [e])[..|entries|] == entries;
  }

  lemma BodyStep(data: Bytes, entries: seq<Entry>, base: nat, end: nat, e: Entry)
    requires base <= end && end + |e.cbor| <= |data|
    requires data[base..end] == Bodies(entries) && data[end..end + |e.cbor|] == e.cbor
    ensures data[base..end + |e.cbor|] == Bodies(entries + [e])
  {
    hide Bodies;
    BodiesStep(entries, e);
    JoinSlices(data, base, end, end + |e.cbor|);
  }

  lemma VerifiedStep(hash: Hash, data: Bytes, count: nat, entries: seq<Entry>, end: nat, e: Entry)
    requires Verified(hash, data, count, entries, end) && |entries| < count && BodyBase(count) <= |data|
    requires Continues(hash, data, entries, end, RawEntry(data, |entries|))
    requires e == Announced(data, end, RawEntry(data, |entries|))
    ensures Verified(hash, data, count, entries + [e], end + |e.cbor|)
    ensures end + |e.cbor| <= |data| && |Bodies(entries + [e])| == |Bodies(entries)| + |e.cbor|
  {
    hide IndexEntry, Index, Bodies, RawEntry, BigEndian;
    EntryFromFields(RawEntry(data, |entries|), e, end);
    IndexStep(data, entries, BodyBase(count), e);
    BodyStep(data, entries, BodyBase(count), end, e);
  }

  lemma JoinSlices(data: Bytes, i: nat, j: nat, k: nat)
    requires i <= j <= k <= |data|
    ensures data[i..k] == data[i..j] + data[j..k]
  {}

  lemma SegmentParts(kind: nat, all: seq<Entry>)
    ensures var data, base := SegmentBytes(kind, all), BodyBase(|all|);
            && data[..HEADER_BYTES] == Header(kind, |all|, Total(all))
            && data[HEADER_BYTES..base] == Index(all, base) && data[base..|data|] == Bodies(all)
  {
    hide Header, Index, Bodies;
  }

  /** Where a segment of `all` keeps its `i`-th entry. */
  lemma SegmentEntryAt(kind: nat, all: seq<Entry>, i: nat)
    requires i < |all|
    ensures var data, end := SegmentBytes(kind, all), BodyBase(|all|) + |Bodies(all[..i])|;
            && end + |all[i].cbor| == BodyBase(|all|) + |Bodies(all[..i + 1])| <= |data|
            && RawEntry(data, i) == IndexEntry(all[i], end)
            && data[end..end + |all[i].cbor|] == all[i].cbor
  {
    hide SegmentBytes, Header, IndexEntry, Index;
    var data, base := SegmentBytes(kind, all), BodyBase(|all|);
    SegmentParts(kind, all);
    IndexAt(all, base, i);
    BodyAt(all, i);
    var start := |Bodies(all[..i])|;
    assert all[..i + 1][..i] == all[..i];
    SliceOfSlice(data, HEADER_BYTES, base, ENTRY_BYTES * i, ENTRY_BYTES * i + ENTRY_BYTES);
    SliceOfSlice(data, base, |data|, start, start + |all[i].cbor|);
  }

  /** Data that is a segment of `all` passes the check of every index entry. */
  lemma SegmentContinues(hash: Hash, kind: nat, all: seq<Entry>, i: nat)
    requires ValidSegment(hash, kind, all) && i < |all|
    ensures var data, end := SegmentBytes(kind, all), BodyBase(|all|) + |Bodies(all[..i])|;
            var raw := RawEntry(data, i);
            && end + |all[i].cbor| == BodyBase(|all|) + |Bodies(all[..i + 1])| <= |data|
            && Continues(hash, data, all[..i], end, raw)
            && all[i] == Announced(data, end, raw)
  {
    hide SegmentBytes, Header, IndexEntry, Index, Bodies;
    SegmentEntryAt(kind, all, i);
    assert ValidEntry(hash, all[i]);
    EntryFields(all[i], BodyBase(|all|) + |Bodies(all[..i])|);
  }

  datatype Segment = Segment(data: Bytes, kind: nat, count: nat, indexBase: nat, bodyBase: nat)

  /** A segment read from bytes that store exactly `entries`. */
  ghost predicate Stores(hash: Hash, s: Segment, entries: seq<Entry>) {
    && ValidSegment(hash, s.kind, entries) && s.data == SegmentBytes(s.kind, entries)
    && s.count == |entries| && s.indexBase == HEADER_BYTES && s.bodyBase == BodyBase(s.count)
  }

  ghost predicate IsSegment(hash: Hash, data: Bytes) {
    exists kind, entries :: ValidSegment(hash, kind, entries) && data == SegmentBytes(kind, entries)
  }

  /** `all` is the content of a valid segment whose bytes are `data`. */
  ghost predicate Candidate(hash: Hash, data: Bytes, count: nat, all: seq<Entry>) {
    |all| == count && exists kind :: ValidSegment(hash, kind, all) && data == SegmentBytes(kind, all)
  }

  /** One entry as the loop reads it, `entries` before it and `end` its offset. */
  lemma CandidateStep(hash: Hash, data: Bytes, count: nat, all: seq<Entry>, entries: seq<Entry>, end: nat)
    requires Candidate(hash, data, count, all)
    requires |entries| < count && entries == all[..|entries|] && end == BodyBase(count) + |Bodies(entries)|
    ensures BodyBase(|entries| + 1) <= |data| && end <= |data|
    ensures Continues(hash, data, entries, end, RawEntry(data, |entries|))
    ensures all[..|entries| + 1] == entries + [Announced(data, end, RawEntry(data, |entries|))]
  {
    hide SegmentBytes, Continues, Announced, RawEntry, Bodies;
    var kind :| ValidSegment(hash, kind, all) && data == SegmentBytes(kind, all);
    SegmentContinues(hash, kind, all, |entries|);
  }

  /** The checks on one index entry, given the digest before it. */
  method CheckEntry(hash: Hash, s: Segment, index: nat, expectedOffset: nat, prior: Digest, ghost entries: seq<Entry>)
    returns (ok: bool, e: Entry)
    requires s.indexBase == HEADER_BYTES && BodyBase(index + 1) <= |s.data| && expectedOffset <= |s.data|
    requires |entries| == index && (index > 0 ==> prior == entries[index - 1].digest)
    ensures ok <==> Continues(hash, s.data, entries, expectedOffset, RawEntry(s.data, index))
    ensures ok ==> e == Announced(s.data, expectedOffset, RawEntry(s.data, index))
  {
    hide BigEndian, Less;
    var position, data := s.indexBase + index * ENTRY_BYTES, s.data;
    var digest: Digest := data[position..position + 32];
    var offset := BigEndian(data[position + 32..position + 40]);
    var length := BigEndian(data[position + 40..position + 44]);
    var reserved := BigEndian(data[position + 44..position + 48]);
    RawSlices(data, index);
    if (index > 0 && !Less(prior, digest)) || offset != expectedOffset || length == 0 || length > MAX_ARTIFACT_BYTES
       || reserved != 0 || offset + length > |data| {
      return false, Entry(digest, []);
    }
    e := Entry(digest, data[offset..offset + length]);
    ok := hash(e.cbor) == digest;
  }

  /** The loop state of `verifyEntries`; `target`, if there is one, is the
      content of a valid segment with these bytes. */
  ghost predicate Scanned(hash: Hash, s: Segment, entries: seq<Entry>, end: nat, target: Option<seq<Entry>>) {
    && s.indexBase == HEADER_BYTES && s.bodyBase == BodyBase(s.count)
    && Verified(hash, s.data, s.count, entries, end) && end == s.bodyBase + |Bodies(entries)|
    && (target.Some? ==> Candidate(hash, s.data, s.count, target.value) && entries == target.value[..|entries|])
  }

  method ScanEntry(
    hash: Hash, s: Segment, index: nat, expectedOffset: nat, prior: Digest, ghost entries: seq<Entry>,
    ghost target: Option<seq<Entry>>)
    returns (ok: bool, e: Entry)
    requires Scanned(hash, s, entries, expectedOffset, target) && |entries| == index < s.count
    requires index > 0 ==> prior == entries[index - 1].digest
    ensures ok ==> Scanned(hash, s, entries + [e], expectedOffset + |e.cbor|, target)
    ensures !ok ==> target.None?
  {
    hide Bodies, Verified, Candidate, Continues, Announced, RawEntry, BigEndian;
    VerifiedBounds(hash, s.data, s.count, entries, expectedOffset);
    if target.Some? { CandidateStep(hash, s.data, s.count, target.value, entries, expectedOffset); }
    ok, e := CheckEntry(hash, s, index, expectedOffset, prior, entries);
    if ok { VerifiedStep(hash, s.data, s.count, entries, expectedOffset, e); }
  }

  lemma VerifiedBounds(hash: Hash, data: Bytes, count: nat, entries: seq<Entry>, end: nat)
    requires Verified(hash, data, count, entries, end)
    ensures BodyBase(count) <= end <= |data|
  {}

  /** `verifyEntries`: succeeds with the entries exactly when the index and the
      bodies of `data` are those of a valid segment. */
  method VerifyEntries(hash: Hash, s: Segment) returns (ok: bool, ghost entries: seq<Entry>)
    requires s.indexBase == HEADER_BYTES && s.bodyBase == BodyBase(s.count) <= |s.data|
    ensures ok ==> Verified(hash, s.data, s.count, entries, |s.data|) && |entries| == s.count
    ensures !ok ==> forall all :: !Candidate(hash, s.data, s.count, all)
  {
    hide Bodies, Candidate, Verified;
    entries := [];
    var prior := ZeroDigest();
    var expectedOffset: nat := s.bodyBase;
    ghost var target: Option<seq<Entry>> :=
      if all :| Candidate(hash, s.data, s.count, all) then Some(all) else None;
    EmptyVerified(hash, s, target);
    for index := 0 to s.count
      invariant Scanned(hash, s, entries, expectedOffset, target) && |entries| == index
      invariant index > 0 ==> prior == entries[index - 1].digest
    {
      var good, e := ScanEntry(hash, s, index, expectedOffset, prior, entries, target);
      if !good {
        return false, entries;
      }
      entries := entries + [e];
      expectedOffset := expectedOffset + |e.cbor|;
      prior := e.digest;
    }
    ok := expectedOffset == |s.data|;
    if target.Some? { CandidateLength(hash, s.data, target.value, entries); }
  }

  lemma CandidateLength(hash: Hash, data: Bytes, all: seq<Entry>, entries: seq<Entry>)
    requires Candidate(hash, data, |entries|, all) && entries == all[..|entries|]
    ensures |data| == BodyBase(|entries|) + |Bodies(entries)|
  {
    assert all[..|entries|] == all;
  }

  lemma EmptyVerified(hash: Hash, s: Segment, target: Option<seq<Entry>>)
    requires s.indexBase == HEADER_BYTES && s.bodyBase == BodyBase(s.count) <= |s.data|
    requires target.Some? ==> Candidate(hash, s.data, s.count, target.value)
    ensures Scanned(hash, s, [], s.bodyBase, target)
  {}

  lemma RawSlices(data: Bytes, i: nat)
    requires BodyBase(i + 1) <= |data|
    ensures var raw, at := RawEntry(data, i), BodyBase(i);
            && raw[..32] == data[at..at + 32] && raw[32..40] == data[at + 32..at + 40]
            && raw[40..44] == data[at + 40..at + 44] && raw[44..48] == data[at + 44..at + 48]
  {
    var at := BodyBase(i);
    SliceOfSlice(data, at, at + ENTRY_BYTES, 0, 32);
    SliceOfSlice(data, at, at + ENTRY_BYTES, 32, 40);
    SliceOfSlice(data, at, at + ENTRY_BYTES, 40, 44);
    SliceOfSlice(data, at, at + ENTRY_BYTES, 44, 48);
  }

  lemma HeaderSlices(data: Bytes)
    requires HEADER_BYTES <= |data|
    ensures var h := data[..HEADER_BYTES];
            && h[..8] == data[..8] && h[8..12] == data[8..12] && h[12..16] == data[12..16]
            && h[16..24] == data[16..24] && h[24..32] == data[24..32] && h[32..40] == data[32..40]
  {}

  /** A verified index and body behind a checked header are a segment. */
  lemma VerifiedIsSegment(hash: Hash, s: Segment, entries: seq<Entry>)
    requires HEADER_BYTES <= |s.data| <= MAX_SEGMENT_BYTES && ValidKind(s.kind) && 0 < s.count <= MAX_ENTRIES
    requires HeaderFields(s.data[..HEADER_BYTES], s.kind, s.count, |s.data|)
    requires Verified(hash, s.data, s.count, entries, |s.data|) && |entries| == s.count
    ensures ValidSegment(hash, s.kind, entries) && s.data == SegmentBytes(s.kind, entries)
  {
    hide Header, Index, Bodies;
    HeaderFromFields(s.data[..HEADER_BYTES], s.kind, s.count, |s.data|);
    JoinSlices(s.data, 0, HEADER_BYTES, BodyBase(s.count));
    JoinSlices(s.data, 0, BodyBase(s.count), |s.data|);
    assert s.data[0..|s.data|] == s.data;
  }

  /** The header checks of `Open` hold of every segment. */
  lemma SegmentHeader(hash: Hash, kind: nat, all: seq<Entry>)
    requires ValidSegment(hash, kind, all)
    ensures var data := SegmentBytes(kind, all);
            HeaderFields(data[..HEADER_BYTES], kind, |all|, |data|) && BodyBase(|all|) < |data| <= MAX_SEGMENT_BYTES
  {
    hide Header, Index, Bodies;
    SegmentParts(kind, all);
    HeaderHasFields(kind, |all|, Total(all));
    BodyAt(all, 0);
    assert ValidEntry(hash, all[0]);
  }

  /** Only byte strings that are a segment open, under their hash, and the
      segment stores the entries they are made of. */
  method Open(hash: Hash, data: Bytes, expected: Digest) returns (r: Result<Segment, SegmentError>, ghost entries: seq<Entry>)
    ensures r.Success? <==> hash(data) == expected && IsSegment(hash, data)
    ensures r.Success? ==> r.value.data == data && Stores(hash, r.value, entries)
  {
    hide SegmentBytes, ValidSegment, Verified, Candidate, BigEndian;
    entries := [];
    if |data| < HEADER_BYTES || |data| > MAX_SEGMENT_BYTES || hash(data) != expected || data[..8] != Magic() {
      forall kind, all | ValidSegment(hash, kind, all) && data == SegmentBytes(kind, all) ensures hash(data) != expected {
        SegmentHeader(hash, kind, all);
        HeaderSlices(data);
      }
      return Failure(ErrInvalid), entries;
    }
    var kind := BigEndian(data[8..12]);
    var count := BigEndian(data[12..16]);
    var indexBase := BigEndian(data[16..24]);
    var bodyBase := BigEndian(data[24..32]);
    var end := BigEndian(data[32..40]);
    HeaderSlices(data);
    if !ValidKind(kind) || count == 0 || count > MAX_ENTRIES || indexBase != HEADER_BYTES
       || bodyBase != HEADER_BYTES + count * ENTRY_BYTES || end != |data| || bodyBase >= end {
      forall kind', all | ValidSegment(hash, kind', all) && data == SegmentBytes(kind', all) ensures false {
        SegmentHeader(hash, kind', all);
        CountsOf(hash, kind', all);
      }
      return Failure(ErrInvalid), entries;
    }
    var s := Segment(data, kind, count, indexBase, bodyBase);
    var ok;
    ok, entries := VerifyEntries(hash, s);
    if !ok {
      forall kind', all | ValidSegment(hash, kind', all) && data == SegmentBytes(kind', all) ensures false {
        SegmentHeader(hash, kind', all);
        CandidateOf(hash, kind', all);
      }
      return Failure(ErrInvalid), entries;
    }
    VerifiedIsSegment(hash, s, entries);
    r := Success(s);
  }

  lemma CountsOf(hash: Hash, kind: nat, all: seq<Entry>)
    requires ValidSegment(hash, kind, all)
    ensures ValidKind(kind) && 0 < |all| <= MAX_ENTRIES
  {}

  lemma CandidateOf(hash: Hash, kind: nat, all: seq<Entry>)
    requires ValidSegment(hash, kind, all)
    ensures Candidate(hash, SegmentBytes(kind, all), |all|, all)
  {}

  // ----- reading an opened segment -------------------------------------------

  lemma {:induction false} EntriesApart(entries: seq<Entry>, i: nat, j: nat)
    requires SortedEntries(entries) && i < j < |entries|
    ensures Less(entries[i].digest, entries[j].digest)
  {
    if i + 1 < j {
      EntriesApart(entries, i, j - 1);
      LessTransitive(entries[i].digest, entries[j - 1].digest, entries[j].digest);
    }
  }

  lemma EntriesDistinct(entries: seq<Entry>)
    requires SortedEntries(entries)
    ensures forall i, j :: 0 <= i < j < |entries| ==> entries[i].digest != entries[j].digest
  {
    forall i, j | 0 <= i < j < |entries| ensures entries[i].digest != entries[j].digest {
      EntriesApart(entries, i, j);
      LessIrreflexive(entries[i].digest);
    }
  }

  /** The finite map a list of entries is. */
  function Contents(entries: seq<Entry>): map<Digest, Bytes> {
    if entries == [] then map[]
    else
      var last := entries[|entries| - 1];
      Contents(entries[..|entries| - 1])[last.digest := last.cbor]
  }

  /** Sorted entries are a map: no digest twice, nothing else in it. */
  lemma {:induction false} ContentsExact(entries: seq<Entry>)
    requires SortedEntries(entries)
    ensures forall d, b :: d in Contents(entries) && Contents(entries)[d] == b <==> Entry(d, b) in entries
  {
    if entries != [] {
      var init, last := entries[..|entries| - 1], entries[|entries| - 1];
      ContentsExact(init);
      EntriesDistinct(entries);
      assert entries == init + [last];
      assert forall e :: e in init ==> e.digest != last.digest;
    }
  }

  /** `(*Segment).Entry`. */
  method EntryAt(hash: Hash, s: Segment, index: nat, ghost entries: seq<Entry>) returns (r: Result<Entry, SegmentError>)
    requires Stores(hash, s, entries)
    ensures r == if index < |entries| then Success(entries[index]) else Failure(ErrInvalid)
  {
    hide Header, Index, Bodies, IndexEntry, BigEndian, SegmentBytes;
    if index >= s.count {
      return Failure(ErrInvalid);
    }
    SegmentContinues(hash, s.kind, entries, index);
    RawSlices(s.data, index);
    var position := s.indexBase + index * ENTRY_BYTES;
    var digest: Digest := s.data[position..position + 32];
    var offset := BigEndian(s.data[position + 32..position + 40]);
    var length := BigEndian(s.data[position + 40..position + 44]);
    r := Success(Entry(digest, s.data[offset..offset + length]));
  }

  /** The digest at index position `i`, read from the bytes. */
  lemma DigestAt(hash: Hash, s: Segment, i: nat, entries: seq<Entry>)
    requires Stores(hash, s, entries) && i < |entries|
    ensures var position := s.indexBase + i * ENTRY_BYTES;
            position + 32 <= |s.data| && s.data[position..position + 32] == entries[i].digest
  {
    hide Header, Index, Bodies, IndexEntry, BigEndian, SegmentBytes;
    SegmentContinues(hash, s.kind, entries, i);
    RawSlices(s.data, i);
  }

  /** Binary search over the index: the stored body of every present digest, and
      nothing for an absent one. */
  method Find(hash: Hash, s: Segment, digest: Digest, ghost entries: seq<Entry>) returns (r: Option<Bytes>)
    requires Stores(hash, s, entries)
    ensures r == if digest in Contents(entries) then Some(Contents(entries)[digest]) else None
  {
    hide ValidEntry, SegmentBytes, Contents;
    ContentsExact(entries);
    var lo: nat, hi: nat := 0, s.count;
    while lo < hi
      invariant lo <= hi <= |entries|
      invariant forall i :: 0 <= i < lo ==> Less(entries[i].digest, digest)
      invariant hi < |entries| ==> !Less(entries[hi].digest, digest)
    {
      var mid := (lo + hi) / 2;
      var position := s.indexBase + mid * ENTRY_BYTES;
      DigestAt(hash, s, mid, entries);
      if Less(s.data[position..position + 32], digest) {
        forall i | 0 <= i < mid ensures Less(entries[i].digest, digest) {
          EntriesApart(entries, i, mid);
          LessTransitive(entries[i].digest, entries[mid].digest, digest);
        }
        lo := mid + 1;
      } else {
        hi := mid;
      }
    }
    AbsentOutside(entries, lo, digest);
    assert digest in Contents(entries) ==> Entry(digest, Contents(entries)[digest]) in entries;
    if lo == s.count {
      return None;
    }
    var e := EntryAt(hash, s, lo, entries);
    if e.Failure? || e.value.digest != digest {
      return None;
    }
    r := Some(e.value.cbor);
  }

  lemma AbsentOutside(entries: seq<Entry>, lo: nat, digest: Digest)
    requires SortedEntries(entries) && lo <= |entries|
    requires forall i :: 0 <= i < lo ==> Less(entries[i].digest, digest)
    requires lo < |entries| ==> !Less(entries[lo].digest, digest)
    ensures forall b :: Entry(digest, b) in entries ==> lo < |entries| && entries[lo] == Entry(digest, b)
  {
    forall b | Entry(digest, b) in entries ensures lo < |entries| && entries[lo] == Entry(digest, b) {
      var i: nat :| i < |entries| && entries[i] == Entry(digest, b);
      LessIrreflexive(digest);
      if lo < i { EntriesApart(entries, lo, i); }
    }
  }

  // ----- building ------------------------------------------------------------

  /** Insertion by digest; with `Sorted` it stands for `sort.Slice`. */
  function Insert(e: Entry, entries: seq<Entry>): seq<Entry> {
    if entries != [] && Less(entries[0].digest, e.digest) then [entries[0]] + Insert(e, entries[1..]) else [e] + entries
  }

  function Sorted(source: seq<Entry>): seq<Entry> {
    if source == [] then [] else Insert(source[0], Sorted(source[1..]))
  }

  predicate Ascending(entries: seq<Entry>) {
    forall i :: 0 < i < |entries| ==> !Less(entries[i].digest, entries[i - 1].digest)
  }

  lemma {:induction false} InsertMembers(e: Entry, entries: seq<Entry>)
    ensures |Insert(e, entries)| == |entries| + 1
    ensures forall x :: x in Insert(e, entries) <==> x == e || x in entries
  {
    if entries != [] {
      assert entries == [entries[0]] + entries[1..];
      InsertMembers(e, entries[1..]);
    }
  }

  lemma {:induction false} InsertAscending(e: Entry, entries: seq<Entry>)
    requires Ascending(entries)
    ensures Ascending(Insert(e, entries))
    ensures Insert(e, entries)[0] == e || (entries != [] && Insert(e, entries)[0] == entries[0])
  {
    if entries != [] && Less(entries[0].digest, e.digest) {
      InsertAscending(e, entries[1..]);
      if Less(e.digest, entries[0].digest) {
        LessTransitive(e.digest, entries[0].digest, e.digest);
        LessIrreflexive(e.digest);
      }
    }
  }

  /** Insertion keeps a strict order exactly when the digest is new. */
  lemma {:induction false} InsertStrict(e: Entry, entries: seq<Entry>)
    requires Ascending(entries)
    ensures SortedEntries(Insert(e, entries)) <==> SortedEntries(entries) && forall x :: x in entries ==> x.digest != e.digest
  {
    var inserted := Insert(e, entries);
    if entries != [] {
      var first, rest := entries[0], entries[1..];
      assert entries == [first] + rest && first in entries;
      LessIrreflexive(e.digest);
      if Less(first.digest, e.digest) {
        InsertStrict(e, rest);
        InsertAscending(e, rest);
        StrictCons(first, rest);
        StrictCons(first, Insert(e, rest));
        if rest != [] && Insert(e, rest) == [e] + rest {
          StrictCons(e, rest);
          if Less(e.digest, rest[0].digest) { LessTransitive(first.digest, e.digest, rest[0].digest); }
        }
      } else {
        LessTotal(first.digest, e.digest);
        StrictCons(e, entries);
        if SortedEntries(entries) && Less(e.digest, first.digest) { AboveFirst(e, entries); }
      }
    }
  }

  lemma StrictCons(first: Entry, rest: seq<Entry>)
    ensures SortedEntries([first] + rest) <==> SortedEntries(rest) && (rest != [] ==> Less(first.digest, rest[0].digest))
  {
    var all := [first] + rest;
    if SortedEntries(all) {
      forall i | 0 < i < |rest| ensures Less(rest[i - 1].digest, rest[i].digest) {
        assert rest[i - 1] == all[i] && rest[i] == all[i + 1];
      }
      if rest != [] {
        var one := 1;
        assert all[one] == rest[0] && Less(all[one - 1].digest, all[one].digest);
      }
    } else {
      var i: nat :| 0 < i < |all| && !Less(all[i - 1].digest, all[i].digest);
      assert i > 1 ==> rest[i - 2] == all[i - 1] && rest[i - 1] == all[i];
    }
  }

  lemma AboveFirst(e: Entry, entries: seq<Entry>)
    requires SortedEntries(entries) && entries != [] && Less(e.digest, entries[0].digest)
    ensures forall x :: x in entries ==> x.digest != e.digest
  {
    forall i | 0 <= i < |entries| ensures entries[i].digest != e.digest {
      if i > 0 {
        EntriesApart(entries, 0, i);
        LessTransitive(e.digest, entries[0].digest, entries[i].digest);
      }
      LessIrreflexive(e.digest);
    }
  }

  lemma {:induction false} SortedMembers(source: seq<Entry>)
    ensures |Sorted(source)| == |source| && Ascending(Sorted(source))
    ensures forall x :: x in Sorted(source) <==> x in source
  {
    if source != [] {
      assert source == [source[0]] + source[1..];
      SortedMembers(source[1..]);
      InsertMembers(source[0], Sorted(source[1..]));
      InsertAscending(source[0], Sorted(source[1..]));
    }
  }

  predicate DistinctDigests(source: seq<Entry>) {
    forall i, j :: 0 <= i < j < |source| ==> source[i].digest != source[j].digest
  }

  /** Sorting leaves no two equal digests side by side exactly when there are
      no two equal digests. */
  lemma {:induction false} SortedStrict(source: seq<Entry>)
    ensures SortedEntries(Sorted(source)) <==> DistinctDigests(source)
  {
    if source != [] {
      var first, rest := source[0], source[1..];
      SortedStrict(rest);
      SortedMembers(rest);
      InsertStrict(first, Sorted(rest));
      DistinctCons(first, rest);
      assert source == [first] + rest;
      hide DistinctDigests, SortedEntries, Ascending;
    }
  }

  lemma DistinctCons(first: Entry, rest: seq<Entry>)
    ensures DistinctDigests([first] + rest) <==> DistinctDigests(rest) && forall x :: x in rest ==> x.digest != first.digest
  {
    var source := [first] + rest;
    assert forall i :: 0 <= i < |rest| ==> rest[i] == source[i + 1];
    if DistinctDigests(source) {
      forall i | 0 <= i < |rest| ensures rest[i].digest != first.digest {
        assert source[0].digest != source[i + 1].digest;
      }
      forall i, j | 0 <= i < j < |rest| ensures rest[i].digest != rest[j].digest {
        assert source[i + 1].digest != source[j + 1].digest;
      }
    }
  }

  lemma {:induction false} SortedOfSorted(entries: seq<Entry>)
    requires SortedEntries(entries)
    ensures Sorted(entries) == entries
  {
    if entries != [] {
      var rest := entries[1..];
      assert entries == [entries[0]] + rest;
      SortedOfSorted(rest);
      if rest != [] && Less(rest[0].digest, entries[0].digest) {
        LessTransitive(entries[0].digest, rest[0].digest, entries[0].digest);
        LessIrreflexive(entries[0].digest);
      }
    }
  }

  /** The sources `Build` takes. */
  predicate Accepts(hash: Hash, kind: nat, source: seq<Entry>) {
    && ValidKind(kind) && 0 < |source| <= MAX_ENTRIES
    && (forall e :: e in source ==> ValidEntry(hash, e))
    && DistinctDigests(source)
    && Total(Sorted(source)) <= MAX_SEGMENT_BYTES
  }

  lemma AcceptedIsValid(hash: Hash, kind: nat, source: seq<Entry>)
    ensures Accepts(hash, kind, source) <==> ValidSegment(hash, kind, Sorted(source))
  {
    SortedMembers(source);
    SortedStrict(source);
  }

  /** The byte strings `Open` accepts are exactly those `Build` produces. */
  lemma SegmentsAreBuilt(hash: Hash, data: Bytes)
    ensures IsSegment(hash, data) <==>
            exists kind, source :: Accepts(hash, kind, source) && data == SegmentBytes(kind, Sorted(source))
  {
    hide SegmentBytes, Accepts, ValidSegment;
    if kind, entries :| ValidSegment(hash, kind, entries) && data == SegmentBytes(kind, entries) {
      ValidIsSorted(hash, kind, entries);
      SortedOfSorted(entries);
      AcceptedIsValid(hash, kind, entries);
    }
    if kind, source :| Accepts(hash, kind, source) && data == SegmentBytes(kind, Sorted(source)) {
      AcceptedIsValid(hash, kind, source);
    }
  }

  lemma ValidIsSorted(hash: Hash, kind: nat, entries: seq<Entry>)
    requires ValidSegment(hash, kind, entries)
    ensures SortedEntries(entries)
  {}

  function Digests(entries: seq<Entry>): seq<Digest> {
    seq(|entries|, i requires 0 <= i < |entries| => entries[i].digest)
  }

  /** The bytes of a segment do not depend on the order its source was given
      in, only on the set of entries. */
  lemma BuildOrderFree(a: seq<Entry>, b: seq<Entry>)
    requires DistinctDigests(a) && DistinctDigests(b) && forall x :: x in a <==> x in b
    ensures Sorted(a) == Sorted(b)
  {
    hide Sorted;
    var s, t := Sorted(a), Sorted(b);
    SortedMembers(a);
    SortedMembers(b);
    SortedStrict(a);
    SortedStrict(b);
    SameDigests(s, t);
    SameDigests(t, s);
    SortedUnique(Digests(s), Digests(t));
    assert |s| == |Digests(s)| == |Digests(t)| == |t|;
    EntriesDistinct(t);
    forall i | 0 <= i < |s| ensures s[i] == t[i] {
      assert s[i] in t && Digests(s)[i] == Digests(t)[i];
    }
  }

  lemma SameDigests(s: seq<Entry>, t: seq<Entry>)
    requires forall x :: x in s ==> x in t
    ensures forall d :: d in Digests(s) ==> d in Digests(t)
    ensures SortedEntries(s) ==> StrictlySorted(Digests(s))
  {
    forall d | d in Digests(s) ensures d in Digests(t) {
      var i: nat :| i < |s| && Digests(s)[i] == d;
      assert s[i] in t;
      var j: nat :| j < |t| && t[j] == s[i];
      assert Digests(t)[j] == d;
    }
  }

  /** Go's `copy(dst[at:], src)`. */
  method CopyInto(dst: array<byte>, at: nat, src: Bytes)
    requires at + |src| <= dst.Length
    modifies dst
    ensures forall k :: 0 <= k < dst.Length ==> dst[k] == if at <= k < at + |src| then src[k - at] else old(dst[k])
  {
    for n := 0 to |src|
      invariant forall k :: 0 <= k < dst.Length ==> dst[k] == if at <= k < at + n then src[k - at] else old(dst[k])
    {
      dst[at + n] := src[n];
    }
  }

  /** The array while `Build` fills it: header, `n` index entries, zeros up to
      the body base, the first bodies. */
  ghost predicate Filled(data: Bytes, header: Bytes, entries: seq<Entry>, count: nat, offset: nat) {
    && |entries| <= count && |header| == HEADER_BYTES && BodyBase(count) <= offset <= |data|
    && data[..HEADER_BYTES] == header
    && data[HEADER_BYTES..BodyBase(|entries|)] == Index(entries, BodyBase(count))
    && (forall k :: BodyBase(|entries|) <= k < BodyBase(count) ==> data[k] == 0)
    && data[BodyBase(count)..offset] == Bodies(entries)
  }

  /** Writes one index entry and one body. */
  method FillEntry(dst: array<byte>, position: nat, offset: nat, e: Entry)
    requires position + ENTRY_BYTES <= offset && offset + |e.cbor| <= dst.Length
    requires forall k :: position <= k < position + ENTRY_BYTES ==> dst[k] == 0
    modifies dst
    ensures forall k :: 0 <= k < dst.Length ==>
              dst[k] == if position <= k < position + ENTRY_BYTES then IndexEntry(e, offset)[k - position]
                        else if offset <= k < offset + |e.cbor| then e.cbor[k - offset]
                        else old(dst[k])
  {
    hide PutBigEndian;
    CopyInto(dst, position, e.digest);
    CopyInto(dst, position + 32, PutBigEndian(offset, 8));
    CopyInto(dst, position + 40, PutBigEndian(|e.cbor|, 4));
    CopyInto(dst, offset, e.cbor);
    ZeroBytes();
  }

  lemma ZeroBytes()
    ensures PutBigEndian(0, 4) == [0, 0, 0, 0]
  {
    assert PutBigEndian(0, 1) == [0] && PutBigEndian(0, 2) == [0, 0] && PutBigEndian(0, 3) == [0, 0, 0];
  }

  /** What `FillEntry` does to a filled array. */
  lemma FilledStep(before: Bytes, after: Bytes, header: Bytes, entries: seq<Entry>, count: nat, offset: nat, e: Entry)
    requires Filled(before, header, entries, count, offset) && |entries| < count
    requires |after| == |before| && offset + |e.cbor| <= |after|
    requires forall k :: 0 <= k < |after| ==>
               after[k] == if BodyBase(|entries|) <= k < BodyBase(|entries| + 1) then IndexEntry(e, offset)[k - BodyBase(|entries|)]
                           else if offset <= k < offset + |e.cbor| then e.cbor[k - offset]
                           else before[k]
    requires offset == BodyBase(count) + |Bodies(entries)|
    ensures Filled(after, header, entries + [e], count, offset + |e.cbor|)
    ensures offset + |e.cbor| == BodyBase(count) + |Bodies(entries + [e])|
  {
    hide IndexEntry, Index, Bodies;
    var at := BodyBase(|entries|);
    assert after[..HEADER_BYTES] == before[..HEADER_BYTES];
    assert after[HEADER_BYTES..at] == before[HEADER_BYTES..at];
    assert after[at..at + ENTRY_BYTES] == IndexEntry(e, offset);
    assert after[BodyBase(count)..offset] == before[BodyBase(count)..offset];
    assert after[offset..offset + |e.cbor|] == e.cbor;
    BodiesStep(entries, e);
    BodyStep(after, entries, BodyBase(count), offset, e);
    IndexStep(after, entries, BodyBase(count), e);
  }

  lemma FilledIsSegment(data: Bytes, kind: nat, entries: seq<Entry>)
    requires |data| == Total(entries)
    requires Filled(data, Header(kind, |entries|, Total(entries)), entries, |entries|, |data|)
    ensures data == SegmentBytes(kind, entries)
  {
    hide Header, Index, Bodies;
    var base := BodyBase(|entries|);
    JoinSlices(data, 0, HEADER_BYTES, base);
    JoinSlices(data, 0, base, |data|);
    assert data[0..|data|] == data && data[0..HEADER_BYTES] == data[..HEADER_BYTES];
  }

  /** Writes a segment of sorted entries into a fresh array. */
  method Fill(kind: nat, entries: seq<Entry>, total: nat) returns (result: array<byte>)
    requires total == Total(entries)
    ensures fresh(result) && result[..] == SegmentBytes(kind, entries)
  {
    hide Header, Index, Bodies, IndexEntry, SegmentBytes, PutBigEndian, Filled;
    var count, bodyBase := |entries|, BodyBase(|entries|);
    result := new byte[total](_ => 0);
    var header := Header(kind, count, total);
    CopyInto(result, 0, header);
    assert result[..][..HEADER_BYTES] == header;
    FilledNothing(result[..], header, count);
    var offset: nat := bodyBase;
    for index := 0 to count
      invariant Filled(result[..], header, entries[..index], count, offset)
      invariant offset == bodyBase + |Bodies(entries[..index])|
      invariant result.Length == total
    {
      var e, position := entries[index], HEADER_BYTES + index * ENTRY_BYTES;
      BodyAt(entries, index);
      assert entries[..index + 1] == entries[..index] + [e];
      ghost var before := result[..];
      FilledGap(before, header, entries[..index], count, offset);
      assert forall k :: position <= k < position + ENTRY_BYTES ==> before[k] == 0;
      FillEntry(result, position, offset, e);
      FilledStep(before, result[..], header, entries[..index], count, offset, e);
      offset := offset + |e.cbor|;
    }
    assert entries[..count] == entries;
    FilledIsSegment(result[..], kind, entries);
  }

  lemma FilledNothing(data: Bytes, header: Bytes, count: nat)
    requires BodyBase(count) <= |data| && |header| == HEADER_BYTES && data[..HEADER_BYTES] == header
    requires forall k :: HEADER_BYTES <= k < |data| ==> data[k] == 0
    ensures Filled(data, header, [], count, BodyBase(count)) && Bodies([]) == []
  {}

  lemma NoBodies(entries: seq<Entry>)
    ensures Bodies(entries[..0]) == []
  {}

  lemma FilledGap(data: Bytes, header: Bytes, entries: seq<Entry>, count: nat, offset: nat)
    requires Filled(data, header, entries, count, offset)
    ensures BodyBase(count) <= offset <= |data|
    ensures forall k :: BodyBase(|entries|) <= k < BodyBase(count) ==> data[k] == 0
  {}

  /** `Build`: the canonical bytes of the sorted source and their digest, for
      exactly the sources `Accepts` describes. */
  method Build(hash: Hash, kind: nat, source: seq<Entry>) returns (r: Result<(Bytes, Digest), SegmentError>)
    ensures r == if Accepts(hash, kind, source)
                 then Success((SegmentBytes(kind, Sorted(source)), hash(SegmentBytes(kind, Sorted(source)))))
                 else Failure(ErrInvalid)
  {
    hide SegmentBytes, Sorted, Bodies;
    if !ValidKind(kind) || |source| == 0 || |source| > MAX_ENTRIES {
      return Failure(ErrInvalid);
    }
    for index := 0 to |source|
      invariant forall e :: e in source[..index] ==> ValidEntry(hash, e)
    {
      if !ValidEntry(hash, source[index]) {
        return Failure(ErrInvalid);
      }
      assert source[..index + 1] == source[..index] + [source[index]];
    }
    assert source[..|source|] == source;
    var entries := Sorted(source);
    SortedMembers(source);
    SortedStrict(source);
    for index := 1 to |entries|
      invariant SortedEntries(entries[..index])
    {
      LessTotal(entries[index - 1].digest, entries[index].digest);
      if entries[index - 1].digest == entries[index].digest {
        LessIrreflexive(entries[index].digest);
        return Failure(ErrInvalid);
      }
    }
    assert entries[..|entries|] == entries;
    var total := BodyBase(|entries|);
    NoBodies(entries);
    for index := 0 to |entries|
      invariant total == BodyBase(|entries|) + |Bodies(entries[..index])| <= MAX_SEGMENT_BYTES
    {
      BodyAt(entries, index);
      assert entries[..index + 1][..index] == entries[..index];
      BodiesStep(entries[..index], entries[index]);
      assert entries[..index + 1] == entries[..index] + [entries[index]];
      if total > MAX_SEGMENT_BYTES - |entries[index].cbor| {
        return Failure(ErrInvalid);
      }
      total := total + |entries[index].cbor|;
    }
    var result := Fill(kind, entries, total);
    r := Success((result[..], hash(result[..])));
  }
}
