/** Where everything stands in an artifact segment, in plain offsets. */
module SegmentLayout {
  import opened ByteStrings
  import opened Documents
  import opened Segments

  /** The bytes that the bodies of the first entries take. */
  function Used(entries: seq<Entry>, n: nat): nat
    requires n <= |entries|
  {
    if n == 0 then 0 else Used(entries, n - 1) + |entries[n - 1].cbor|
  }

  lemma {:induction false} UsedIsBodies(entries: seq<Entry>, n: nat)
    requires n <= |entries|
    ensures Used(entries, n) == |Bodies(entries[..n])|
  {
    if n > 0 {
      UsedIsBodies(entries, n - 1);
      assert entries[..n][..n - 1] == entries[..n - 1];
    }
  }

  lemma MagicIs()
    ensures Magic() == [84, 87, 65, 83, 48, 48, 48, 49]
  {
  }

  /** The header: eight bytes of magic, then kind, number of entries, its own size, where the bodies
    * begin, and the size of the whole segment, all big-endian. */
  lemma HeaderLayout(hash: Hash, kind: nat, all: seq<Entry>)
    requires ValidSegment(hash, kind, all)
    ensures var data := SegmentBytes(kind, all);
            && |data| >= 40 + 48 * |all| && data[..8] == [84, 87, 65, 83, 48, 48, 48, 49]
            && BigEndian(data[8..12]) == kind && BigEndian(data[12..16]) == |all| && BigEndian(data[16..24]) == 40
            && BigEndian(data[24..32]) == 40 + 48 * |all| && BigEndian(data[32..40]) == |data|
  {
    hide Header, SegmentBytes, Index, Bodies, BigEndian, Magic;
    SegmentParts(kind, all);
    HeaderHasFields(kind, |all|, Total(all));
    FieldsOf(SegmentBytes(kind, all), kind, |all|, Total(all));
  }

  lemma FieldsOf(data: Bytes, kind: nat, count: nat, total: nat)
    requires |data| >= 40 && HeaderFields(data[..40], kind, count, total)
    ensures data[..8] == [84, 87, 65, 83, 48, 48, 48, 49]
    ensures BigEndian(data[8..12]) == kind && BigEndian(data[12..16]) == count && BigEndian(data[16..24]) == 40
    ensures BigEndian(data[24..32]) == 40 + 48 * count && BigEndian(data[32..40]) == total
  {
    MagicIs();
    hide BigEndian, Magic;
    var head := data[..40];
    assert head[..8] == data[..8] && head[8..12] == data[8..12] && head[12..16] == data[12..16];
    assert head[16..24] == data[16..24] && head[24..32] == data[24..32] && head[32..40] == data[32..40];
  }

  /** Entry `i` of the index: the digest, where the body begins, how long it is, and four zero bytes;
    * and the body stands there, right behind the one before it. */
  lemma EntryLayout(hash: Hash, kind: nat, all: seq<Entry>, i: nat)
    requires ValidSegment(hash, kind, all) && i < |all|
    ensures var data, at := SegmentBytes(kind, all), 40 + 48 * i;
            var offset := 40 + 48 * |all| + Used(all, i);
            && at + 48 <= offset && offset + |all[i].cbor| <= |data|
            && data[at..at + 32] == all[i].digest && BigEndian(data[at + 32..at + 40]) == offset
            && BigEndian(data[at + 40..at + 44]) == |all[i].cbor| && BigEndian(data[at + 44..at + 48]) == 0
            && data[offset..offset + |all[i].cbor|] == all[i].cbor
  {
    hide *;
    Stored(hash, kind, all, i);
    FieldsAt(SegmentBytes(kind, all), i, all[i], 40 + 48 * |all| + Used(all, i));
  }

  lemma Stored(hash: Hash, kind: nat, all: seq<Entry>, i: nat)
    requires ValidSegment(hash, kind, all) && i < |all|
    ensures var data, offset, size := SegmentBytes(kind, all), 40 + 48 * |all| + Used(all, i), |all[i].cbor|;
            && size <= MAX_ARTIFACT_BYTES && offset <= MAX_SEGMENT_BYTES && 40 + 48 * (i + 1) <= offset
            && offset + size <= |data| && data[offset..offset + size] == all[i].cbor
            && RawEntry(data, i) == IndexEntry(all[i], offset)
  {
    hide *;
    var offset := 40 + 48 * |all| + Used(all, i);
    OffsetIs(all, i);
    InSize(hash, kind, all, i);
    StoredAt(kind, all, i, offset);
  }

  lemma OffsetIs(all: seq<Entry>, i: nat)
    requires i < |all|
    ensures BodyBase(|all|) + |Bodies(all[..i])| == 40 + 48 * |all| + Used(all, i)
    ensures 40 + 48 * (i + 1) <= 40 + 48 * |all| + Used(all, i)
  {
    hide Bodies;
    UsedIsBodies(all, i);
  }

  lemma InSize(hash: Hash, kind: nat, all: seq<Entry>, i: nat)
    requires ValidSegment(hash, kind, all) && i < |all|
    ensures |all[i].cbor| <= MAX_ARTIFACT_BYTES && |SegmentBytes(kind, all)| <= MAX_SEGMENT_BYTES
  {
    hide Bodies, SortedEntries;
    assert ValidEntry(hash, all[i]);
  }

  lemma StoredAt(kind: nat, all: seq<Entry>, i: nat, offset: nat)
    requires i < |all| && offset == BodyBase(|all|) + |Bodies(all[..i])|
    ensures BodyBase(i + 1) <= |SegmentBytes(kind, all)|
    ensures var data, size := SegmentBytes(kind, all), |all[i].cbor|;
            && offset + size <= |data| && data[offset..offset + size] == all[i].cbor
            && RawEntry(data, i) == IndexEntry(all[i], offset)
  {
    hide Bodies, IndexEntry, RawEntry, SegmentBytes;
    SegmentEntryAt(kind, all, i);
  }

  lemma FieldsAt(data: Bytes, i: nat, e: Entry, offset: nat)
    requires 40 + 48 * (i + 1) <= |data| && RawEntry(data, i) == IndexEntry(e, offset)
    requires offset <= MAX_SEGMENT_BYTES && |e.cbor| <= MAX_ARTIFACT_BYTES
    ensures var at := 40 + 48 * i;
            && data[at..at + 32] == e.digest && BigEndian(data[at + 32..at + 40]) == offset
            && BigEndian(data[at + 40..at + 44]) == |e.cbor| && BigEndian(data[at + 44..at + 48]) == 0
  {
    hide RawEntry, IndexEntry, BigEndian;
    EntryFields(e, offset);
    RawSlices(data, i);
  }

  /** The bodies fill the segment to its end. */
  lemma BodiesFill(hash: Hash, kind: nat, all: seq<Entry>)
    requires ValidSegment(hash, kind, all)
    ensures |SegmentBytes(kind, all)| == 40 + 48 * |all| + Used(all, |all|)
  {
    UsedIsBodies(all, |all|);
    assert all[..|all|] == all;
    hide Bodies, Index, Header;
  }
}
