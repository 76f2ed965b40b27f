/** The Semantic Frame document and its codec (internal/dataplane/ontology.go). */
module Frames {
  import opened Wrappers
  import opened ByteStrings
  import opened Cbor
  import opened Lexical
  import opened Documents
  import opened Sorting
  import opened P = Packets

  datatype Slot = Slot(
    roleID: Text, status: Text, cardinality: Text, values: Slice<TypedValue>, packetDigests: Slice<Digest>,
    mappingIDs: Slice<Text>, conflict: Text)

  datatype FrameTime = FrameTime(composedAt: Text, validFrom: OptionalText, validUntil: OptionalText)

  datatype FrameEpistemic = FrameEpistemic(lane: Text, completenessMillionths: uint64, conflictStatus: Text)

  datatype FrameDerivation = FrameDerivation(
    packetDigests: Slice<Digest>, moduleSetDigest: Digest, mappingIDs: Slice<Text>, compilerContractDigest: Digest,
    compilerVersion: Text)

  datatype Frame = Frame(
    version: Text, universeID: Text, frameType: Text, nativeKey: Text, canonicalCandidates: Slice<Text>,
    slots: Slice<Slot>, context: Context, time: FrameTime, epistemic: FrameEpistemic, derivation: FrameDerivation,
    lifecycle: Lifecycle)

  // ----- slots ---------------------------------------------------------------

  function Cardinalities(): seq<string> {
    ["one", "many"]
  }

  function Conflicts(): seq<string> {
    ["none", "preserved", "unresolved"]
  }

  /** Values ordered by their own canonical encodings. */
  predicate CanonicallySorted(values: seq<TypedValue>) {
    forall i :: 0 < i < |values| ==> Less(PutTypedValue(values[i - 1], []), PutTypedValue(values[i], []))
  }

  predicate ValidSlot(s: Slot) {
    && ValidIdentifier(s.roleID) && OneOf(s.status, Statuses()) && OneOf(s.cardinality, Cardinalities())
    && |s.values| <= 64
    && (s.status == Ascii("resolved") <==> |s.values| > 0)
    && (s.cardinality == Ascii("one") ==> |s.values| <= 1)
    && (forall v :: v in s.values ==> ValidTypedValue(v))
    && CanonicallySorted(s.values)
    && ValidSortedDigests(s.packetDigests, 256, 1)
    && ValidSortedTexts(s.mappingIDs, 32)
    && OneOf(s.conflict, Conflicts())
    && (s.status == Ascii("contradictory") ==> s.conflict != Ascii("none"))
  }

  function PutValues(values: Slice<TypedValue>, tail: Bytes): Bytes {
    PutArray(|values|, PutItems(PutTypedValue, values, tail))
  }

  function PutSlot(s: Slot, tail: Bytes): Bytes {
    PutArray(7, PutText(s.roleID, PutText(s.status, PutText(s.cardinality, PutValues(s.values,
      PutDigestSet(s.packetDigests, PutTextSet(s.mappingIDs, PutText(s.conflict, tail))))))))
  }

  function ReadValues(d: Bytes): (r: Parsed<Slice<TypedValue>>)
    ensures r.Read? ==> d == PutValues(r.value, r.rest)
  {
    var (n, d0) :- ReadCount(d, 0, 64);
    var r := ReadItems(ReadTypedValue, d0, n);
    if r.Bad? then r
    else
      ItemsCanonical(PutTypedValue, ReadTypedValue, d0, n);
      Read(r.value, r.rest)
  }

  function ReadSlot(d: Bytes): (r: Parsed<Slot>)
    ensures r.Read? ==> d == PutSlot(r.value, r.rest)
  {
    var (_, d0) :- ReadFixed(d, 7);
    var (role, d1) :- ReadText(d0, MAX_IDENTIFIER);
    var (status, d2) :- ReadText(d1, MAX_IDENTIFIER);
    var (cardinality, d3) :- ReadText(d2, MAX_IDENTIFIER);
    var (values, d4) :- ReadValues(d3);
    var (digests, d5) :- ReadDigestSet(d4, 256, 1);
    var (mappings, d6) :- ReadTextSet(d5, 32, 0);
    var (conflict, d7) :- ReadText(d6, MAX_IDENTIFIER);
    Read(Slot(role, status, cardinality, values, digests, mappings, conflict), d7)
  }

  lemma ValuesRoundTrip(values: Slice<TypedValue>, tail: Bytes)
    requires |values| <= 64 && forall v :: v in values ==> ValidTypedValue(v)
    ensures ReadValues(PutValues(values, tail)) == Read(values, tail)
  {
    hide ReadTypedValue, PutTypedValue, ValidTypedValue;
    ArrayRoundTrip(|values|, PutItems(PutTypedValue, values, tail));
    forall v, t: Bytes | v in values ensures ReadTypedValue(PutTypedValue(v, t)) == Read(v, t) {
      TypedValueRoundTrip(v, t);
    }
    ItemsRoundTrip(PutTypedValue, ReadTypedValue, values, tail);
  }

  lemma SlotRoundTrip(s: Slot, tail: Bytes)
    requires ValidSlot(s)
    ensures ReadSlot(PutSlot(s, tail)) == Read(s, tail)
  {
    hide ReadFixed, ReadText, ReadValues, ReadDigestSet, ReadTextSet;
    hide PutArray, PutText, PutValues, PutDigestSet, PutTextSet;
    hide OneOf, ValidIdentifier, ValidTypedValue, CanonicallySorted, ValidSortedDigests, ValidSortedTexts;
    EnumRoundTrip(s.conflict, Conflicts(), tail);
    var t6 := PutText(s.conflict, tail);
    TextSetRoundTrip(s.mappingIDs, 32, t6);
    var t5 := PutTextSet(s.mappingIDs, t6);
    DigestSetRoundTrip(s.packetDigests, 256, 1, t5);
    var t4 := PutDigestSet(s.packetDigests, t5);
    ValuesRoundTrip(s.values, t4);
    var t3 := PutValues(s.values, t4);
    EnumRoundTrip(s.cardinality, Cardinalities(), t3);
    var t2 := PutText(s.cardinality, t3);
    EnumRoundTrip(s.status, Statuses(), t2);
    var t1 := PutText(s.status, t2);
    IdentifierRoundTrip(s.roleID, t1);
    FixedRoundTrip(7, PutText(s.roleID, t1));
  }

  method EncodeValues(enc: Encoder, values: Slice<TypedValue>)
    modifies enc
    ensures forall t: Bytes :: enc.buf + t == old(enc.buf) + PutValues(values, t)
  {
    hide PutArray, PutTypedValue;
    enc.Array(|values|);
    for i := 0 to |values|
      invariant forall t: Bytes :: enc.buf + PutItems(PutTypedValue, values[i..], t) == old(enc.buf) + PutValues(values, t)
    {
      label before:
      EncodeTypedValue(enc, values[i]);
      forall t: Bytes ensures enc.buf + PutItems(PutTypedValue, values[i + 1..], t) == old(enc.buf) + PutValues(values, t) {
        PutItemsStep(PutTypedValue, values, i, t);
        assert old@before(enc.buf) + PutItems(PutTypedValue, values[i..], t) == old(enc.buf) + PutValues(values, t);
      }
    }
    forall t: Bytes ensures enc.buf + t == old(enc.buf) + PutValues(values, t) {
      assert PutItems(PutTypedValue, values[|values|..], t) == t;
    }
  }

  method EncodeSlot(enc: Encoder, s: Slot)
    modifies enc
    ensures forall t: Bytes :: enc.buf + t == old(enc.buf) + PutSlot(s, t)
  {
    hide PutArray, PutText, PutValues, PutDigestSet, PutTextSet;
    enc.Array(7);
    enc.Text(s.roleID);
    enc.Text(s.status);
    enc.Text(s.cardinality);
    EncodeValues(enc, s.values);
    EncodeDigestSet(enc, s.packetDigests);
    EncodeTexts(enc, s.mappingIDs);
    enc.Text(s.conflict);
  }

  method DecodeValues(dec: Decoder) returns (r: Result<Slice<TypedValue>, CodecError>)
    requires dec.Valid()
    modifies dec`off
    ensures dec.Valid() && Follows(r, ReadValues(old(dec.Rest())), dec.Rest())
  {
    hide ReadArray, ReadTypedValue, ReadItems, PutTypedValue, ValidTypedValue;
    var count := dec.Array();
    if count.Failure? || count.value > 64 {
      return Failure(Invalid);
    }
    var n, values := count.value, [];
    ghost var all := ReadItems(ReadTypedValue, dec.Rest(), n);
    PrependNothing([], dec.Rest(), ReadTypedValue);
    for i := 0 to n
      invariant dec.Valid() && |values| == i
      invariant all == Prepend(values, ReadItems(ReadTypedValue, dec.Rest(), n - i))
    {
      ReadItemsStep(ReadTypedValue, values, dec.Rest(), n - i - 1);
      var v :- DecodeTypedValue(dec);
      values := values + [v];
    }
    PrependNothing(values, dec.Rest(), ReadTypedValue);
    r := Success(values);
  }

  method DecodeSlot(dec: Decoder) returns (r: Result<Slot, CodecError>)
    requires dec.Valid()
    modifies dec`off
    ensures dec.Valid() && Follows(r, ReadSlot(old(dec.Rest())), dec.Rest())
  {
    hide ReadFixed, ReadText, ReadValues, ReadDigestSet, ReadTextSet;
    hide PutArray, PutText, PutValues, PutDigestSet, PutTextSet, PutSlot;
    var _ :- DecodeFixed(dec, 7);
    var role :- dec.Text(MAX_IDENTIFIER);
    var status :- dec.Text(MAX_IDENTIFIER);
    var cardinality :- dec.Text(MAX_IDENTIFIER);
    var values :- DecodeValues(dec);
    var digests :- DecodeDigestSet(dec, 256, 1);
    var mappings :- DecodeTextSet(dec, 32, 0);
    var conflict :- dec.Text(MAX_IDENTIFIER);
    r := Success(Slot(role, status, cardinality, values, digests, mappings, conflict));
  }

  function PutSlots(slots: Slice<Slot>, tail: Bytes): Bytes {
    PutArray(|slots|, PutItems(PutSlot, slots, tail))
  }

  function ReadSlots(d: Bytes): (r: Parsed<Slice<Slot>>)
    ensures r.Read? ==> d == PutSlots(r.value, r.rest)
  {
    var (n, d0) :- ReadCount(d, 1, 256);
    var r := ReadItems(ReadSlot, d0, n);
    if r.Bad? then r
    else
      ItemsCanonical(PutSlot, ReadSlot, d0, n);
      Read(r.value, r.rest)
  }

  lemma SlotsRoundTrip(slots: Slice<Slot>, tail: Bytes)
    requires 1 <= |slots| <= 256 && forall s :: s in slots ==> ValidSlot(s)
    ensures ReadSlots(PutSlots(slots, tail)) == Read(slots, tail)
  {
    hide ReadSlot, PutSlot, ValidSlot;
    ArrayRoundTrip(|slots|, PutItems(PutSlot, slots, tail));
    forall s, t: Bytes | s in slots ensures ReadSlot(PutSlot(s, t)) == Read(s, t) {
      SlotRoundTrip(s, t);
    }
    ItemsRoundTrip(PutSlot, ReadSlot, slots, tail);
  }

  method EncodeSlots(enc: Encoder, slots: Slice<Slot>)
    modifies enc
    ensures forall t: Bytes :: enc.buf + t == old(enc.buf) + PutSlots(slots, t)
  {
    hide PutArray, PutSlot;
    enc.Array(|slots|);
    for i := 0 to |slots|
      invariant forall t: Bytes :: enc.buf + PutItems(PutSlot, slots[i..], t) == old(enc.buf) + PutSlots(slots, t)
    {
      label before:
      EncodeSlot(enc, slots[i]);
      forall t: Bytes ensures enc.buf + PutItems(PutSlot, slots[i + 1..], t) == old(enc.buf) + PutSlots(slots, t) {
        PutItemsStep(PutSlot, slots, i, t);
        assert old@before(enc.buf) + PutItems(PutSlot, slots[i..], t) == old(enc.buf) + PutSlots(slots, t);
      }
    }
    forall t: Bytes ensures enc.buf + t == old(enc.buf) + PutSlots(slots, t) {
      assert PutItems(PutSlot, slots[|slots|..], t) == t;
    }
  }

  method DecodeSlots(dec: Decoder) returns (r: Result<Slice<Slot>, CodecError>)
    requires dec.Valid()
    modifies dec`off
    ensures dec.Valid() && Follows(r, ReadSlots(old(dec.Rest())), dec.Rest())
  {
    hide ReadArray, ReadSlot, ReadItems, PutSlot;
    var count := dec.Array();
    if count.Failure? || count.value < 1 || count.value > 256 {
      return Failure(Invalid);
    }
    var n, slots := count.value, [];
    ghost var all := ReadItems(ReadSlot, dec.Rest(), n);
    PrependNothing([], dec.Rest(), ReadSlot);
    for i := 0 to n
      invariant dec.Valid() && |slots| == i
      invariant all == Prepend(slots, ReadItems(ReadSlot, dec.Rest(), n - i))
    {
      ReadItemsStep(ReadSlot, slots, dec.Rest(), n - i - 1);
      var s :- DecodeSlot(dec);
      slots := slots + [s];
    }
    PrependNothing(slots, dec.Rest(), ReadSlot);
    r := Success(slots);
  }

  // ----- derivation, time, epistemic state -----------------------------------

  predicate ValidFrameDerivation(v: FrameDerivation) {
    ValidSortedDigests(v.packetDigests, 4096, 1) && ValidSortedTexts(v.mappingIDs, 256) && ValidIdentifier(v.compilerVersion)
  }

  predicate ValidFrameTime(t: FrameTime) {
    && ValidUTCSecond(t.composedAt) && ValidOptionalUTCSecond(t.validFrom) && ValidOptionalUTCSecond(t.validUntil)
    && NotAfter(t.validFrom, t.validUntil)
  }

  predicate ValidFrameEpistemic(e: FrameEpistemic) {
    OneOf(e.lane, Lanes()) && e.completenessMillionths <= 1_000_000 && OneOf(e.conflictStatus, Conflicts())
  }

  function PutFrameDerivation(v: FrameDerivation, tail: Bytes): Bytes {
    PutArray(5, PutDigestSet(v.packetDigests, PutDigest(v.moduleSetDigest, PutTextSet(v.mappingIDs,
      PutDigest(v.compilerContractDigest, PutText(v.compilerVersion, tail))))))
  }

  function PutFrameTime(t: FrameTime, tail: Bytes): Bytes {
    PutArray(3, PutText(t.composedAt, PutOptionalText(t.validFrom, PutOptionalText(t.validUntil, tail))))
  }

  function PutFrameEpistemic(e: FrameEpistemic, tail: Bytes): Bytes {
    PutArray(3, PutText(e.lane, PutUint(e.completenessMillionths, PutText(e.conflictStatus, tail))))
  }

  function ReadFrameDerivation(d: Bytes): (r: Parsed<FrameDerivation>)
    ensures r.Read? ==> d == PutFrameDerivation(r.value, r.rest)
  {
    var (_, d0) :- ReadFixed(d, 5);
    var (digests, d1) :- ReadDigestSet(d0, 4096, 1);
    var (moduleSet, d2) :- ReadDigest(d1);
    var (mappings, d3) :- ReadTextSet(d2, 256, 0);
    var (contract, d4) :- ReadDigest(d3);
    var (version, d5) :- ReadText(d4, MAX_IDENTIFIER);
    Read(FrameDerivation(digests, moduleSet, mappings, contract, version), d5)
  }

  function ReadFrameTime(d: Bytes): (r: Parsed<FrameTime>)
    ensures r.Read? ==> d == PutFrameTime(r.value, r.rest)
  {
    var (_, d0) :- ReadFixed(d, 3);
    var (composed, d1) :- ReadText(d0, 20);
    var (from, d2) :- ReadOptionalText(d1, 20);
    var (until, d3) :- ReadOptionalText(d2, 20);
    Read(FrameTime(composed, from, until), d3)
  }

  function ReadFrameEpistemic(d: Bytes): (r: Parsed<FrameEpistemic>)
    ensures r.Read? ==> d == PutFrameEpistemic(r.value, r.rest)
  {
    var (_, d0) :- ReadFixed(d, 3);
    var (lane, d1) :- ReadText(d0, MAX_IDENTIFIER);
    var (completeness, d2) :- ReadUint(d1);
    var (conflict, d3) :- ReadText(d2, MAX_IDENTIFIER);
    Read(FrameEpistemic(lane, completeness, conflict), d3)
  }

  lemma FrameDerivationRoundTrip(v: FrameDerivation, tail: Bytes)
    requires ValidFrameDerivation(v)
    ensures ReadFrameDerivation(PutFrameDerivation(v, tail)) == Read(v, tail)
  {
    hide ReadFixed, ReadText, ReadDigest, ReadDigestSet, ReadTextSet;
    hide PutArray, PutText, PutDigest, PutDigestSet, PutTextSet, ValidIdentifier, ValidSortedDigests, ValidSortedTexts;
    IdentifierRoundTrip(v.compilerVersion, tail);
    var t4 := PutText(v.compilerVersion, tail);
    DigestRoundTrip(v.compilerContractDigest, t4);
    var t3 := PutDigest(v.compilerContractDigest, t4);
    TextSetRoundTrip(v.mappingIDs, 256, t3);
    var t2 := PutTextSet(v.mappingIDs, t3);
    DigestRoundTrip(v.moduleSetDigest, t2);
    var t1 := PutDigest(v.moduleSetDigest, t2);
    DigestSetRoundTrip(v.packetDigests, 4096, 1, t1);
    FixedRoundTrip(5, PutDigestSet(v.packetDigests, t1));
  }

  lemma FrameTimeRoundTrip(t: FrameTime, tail: Bytes)
    requires ValidFrameTime(t)
    ensures ReadFrameTime(PutFrameTime(t, tail)) == Read(t, tail)
  {
    hide ReadFixed, ReadText, ReadOptionalText, ValidUTCSecond, PutArray, PutText, PutOptionalText;
    OptionalTimeRoundTrip(t.validUntil, tail);
    var t2 := PutOptionalText(t.validUntil, tail);
    OptionalTimeRoundTrip(t.validFrom, t2);
    var t1 := PutOptionalText(t.validFrom, t2);
    UTCSecondFits(t.composedAt);
    TextRoundTrip(t.composedAt, 20, t1);
    FixedRoundTrip(3, PutText(t.composedAt, t1));
  }

  lemma FrameEpistemicRoundTrip(e: FrameEpistemic, tail: Bytes)
    requires ValidFrameEpistemic(e)
    ensures ReadFrameEpistemic(PutFrameEpistemic(e, tail)) == Read(e, tail)
  {
    hide ReadFixed, ReadText, ReadUint, PutArray, PutText, PutUint, OneOf;
    EnumRoundTrip(e.conflictStatus, Conflicts(), tail);
    var t2 := PutText(e.conflictStatus, tail);
    UintRoundTrip(e.completenessMillionths, t2);
    var t1 := PutUint(e.completenessMillionths, t2);
    EnumRoundTrip(e.lane, Lanes(), t1);
    FixedRoundTrip(3, PutText(e.lane, t1));
  }

  method EncodeFrameDerivation(enc: Encoder, v: FrameDerivation)
    modifies enc
    ensures forall t: Bytes :: enc.buf + t == old(enc.buf) + PutFrameDerivation(v, t)
  {
    hide PutArray, PutText, PutDigest, PutDigestSet, PutTextSet;
    enc.Array(5);
    EncodeDigestSet(enc, v.packetDigests);
    EncodeDigest(enc, v.moduleSetDigest);
    EncodeTexts(enc, v.mappingIDs);
    EncodeDigest(enc, v.compilerContractDigest);
    enc.Text(v.compilerVersion);
  }

  method EncodeFrameTime(enc: Encoder, t: FrameTime)
    modifies enc
    ensures forall u: Bytes :: enc.buf + u == old(enc.buf) + PutFrameTime(t, u)
  {
    hide PutArray, PutText, PutOptionalText;
    enc.Array(3);
    enc.Text(t.composedAt);
    EncodeOptionalText(enc, t.validFrom);
    EncodeOptionalText(enc, t.validUntil);
  }

  method EncodeFrameEpistemic(enc: Encoder, e: FrameEpistemic)
    modifies enc
    ensures forall t: Bytes :: enc.buf + t == old(enc.buf) + PutFrameEpistemic(e, t)
  {
    hide PutArray, PutText, PutUint;
    enc.Array(3);
    enc.Text(e.lane);
    enc.Uint(e.completenessMillionths);
    enc.Text(e.conflictStatus);
  }

  method DecodeFrameDerivation(dec: Decoder) returns (r: Result<FrameDerivation, CodecError>)
    requires dec.Valid()
    modifies dec`off
    ensures dec.Valid() && Follows(r, ReadFrameDerivation(old(dec.Rest())), dec.Rest())
  {
    hide ReadFixed, ReadText, ReadDigest, ReadDigestSet, ReadTextSet;
    hide PutArray, PutText, PutDigest, PutDigestSet, PutTextSet, PutFrameDerivation;
    var _ :- DecodeFixed(dec, 5);
    var digests :- DecodeDigestSet(dec, 4096, 1);
    var moduleSet :- DecodeDigest(dec);
    var mappings :- DecodeTextSet(dec, 256, 0);
    var contract :- DecodeDigest(dec);
    var version :- dec.Text(MAX_IDENTIFIER);
    r := Success(FrameDerivation(digests, moduleSet, mappings, contract, version));
  }

  method DecodeFrameTime(dec: Decoder) returns (r: Result<FrameTime, CodecError>)
    requires dec.Valid()
    modifies dec`off
    ensures dec.Valid() && Follows(r, ReadFrameTime(old(dec.Rest())), dec.Rest())
  {
    hide ReadFixed, ReadText, ReadOptionalText;
    var _ :- DecodeFixed(dec, 3);
    var composed :- dec.Text(20);
    var from :- DecodeOptionalText(dec, 20);
    var until :- DecodeOptionalText(dec, 20);
    r := Success(FrameTime(composed, from, until));
  }

  method DecodeFrameEpistemic(dec: Decoder) returns (r: Result<FrameEpistemic, CodecError>)
    requires dec.Valid()
    modifies dec`off
    ensures dec.Valid() && Follows(r, ReadFrameEpistemic(old(dec.Rest())), dec.Rest())
  {
    hide ReadFixed, ReadText, ReadUint;
    var _ :- DecodeFixed(dec, 3);
    var lane :- dec.Text(MAX_IDENTIFIER);
    var completeness :- dec.Uint();
    var conflict :- dec.Text(MAX_IDENTIFIER);
    r := Success(FrameEpistemic(lane, completeness, conflict));
  }

  // ----- the frame -----------------------------------------------------------

  function FrameVersions(): seq<string> {
    ["tw.semantic-frame/0.1"]
  }

  function Members<T>(values: seq<T>): (s: set<T>) {
    set v | v in values
  }

  /** Every packet some slot rests on. */
  function UsedPackets(slots: seq<Slot>): set<Digest> {
    set i, d | 0 <= i < |slots| && d in slots[i].packetDigests :: d
  }

  /** Slots are valid, sorted by role, rest on the derivation's evidence only,
      and between them use every packet of it. */
  predicate ValidSlots(slots: seq<Slot>, derivation: FrameDerivation) {
    && (forall s :: s in slots ==> ValidSlot(s))
    && (forall i :: 0 < i < |slots| ==> Less(slots[i - 1].roleID, slots[i].roleID))
    && (forall s, d :: s in slots && d in s.packetDigests ==> d in derivation.packetDigests)
    && (forall s, id :: s in slots && id in s.mappingIDs ==> id in derivation.mappingIDs)
    && |UsedPackets(slots)| == |Members(derivation.packetDigests)|
  }

  predicate ValidFrame(f: Frame) {
    && OneOf(f.version, FrameVersions())
    && ValidIdentifier(f.universeID) && ValidIdentifier(f.frameType) && ValidIdentifier(f.nativeKey)
    && ValidSortedTexts(f.canonicalCandidates, 32)
    && 1 <= |f.slots| <= 256
    && ValidContext(f.context) && ValidFrameTime(f.time) && ValidFrameEpistemic(f.epistemic)
    && ValidFrameDerivation(f.derivation)
    && (f.epistemic.lane == Ascii("observed_native") <==> |f.derivation.mappingIDs| == 0)
    && ValidSlots(f.slots, f.derivation)
    && ValidLifecycle(f.lifecycle)
  }

  function PutFrame(f: Frame, tail: Bytes): Bytes {
    PutArray(12, PutText(f.version, PutText(f.universeID, PutText(f.frameType, PutText(f.nativeKey,
      PutTextSet(f.canonicalCandidates, PutFrameTail(f, tail)))))))
  }

  function PutFrameTail(f: Frame, tail: Bytes): Bytes {
    PutFrameDerivation(f.derivation, PutSlots(f.slots, PutContext(f.context, PutFrameTime(f.time,
      PutFrameEpistemic(f.epistemic, PutLifecycle(f.lifecycle, PutArray(0, tail)))))))
  }

  /** The fields after the canonical candidates, joined to those already read. */
  function ReadFrameTail(
    d: Bytes, version: Text, universeID: Text, frameType: Text, nativeKey: Text, candidates: Slice<Text>)
    : (r: Parsed<Frame>)
    ensures r.Read? ==>
              && d == PutFrameTail(r.value, r.rest)
              && r.value.version == version && r.value.universeID == universeID && r.value.frameType == frameType
              && r.value.nativeKey == nativeKey && r.value.canonicalCandidates == candidates
  {
    var (derivation, d1) :- ReadFrameDerivation(d);
    var (slots, d2) :- ReadSlots(d1);
    var (context, d3) :- ReadContext(d2);
    var (time, d4) :- ReadFrameTime(d3);
    var (epistemic, d5) :- ReadFrameEpistemic(d4);
    var (lifecycle, d6) :- ReadLifecycle(d5);
    var (_, d7) :- ReadFixed(d6, 0);
    Read(Frame(version, universeID, frameType, nativeKey, candidates, slots, context, time, epistemic, derivation,
               lifecycle), d7)
  }

  function ReadFrame(d: Bytes): (r: Parsed<Frame>)
    ensures r.Read? ==> d == PutFrame(r.value, r.rest)
  {
    var (_, d0) :- ReadFixed(d, 12);
    var (version, d1) :- ReadText(d0, MAX_IDENTIFIER);
    var (universeID, d2) :- ReadText(d1, MAX_IDENTIFIER);
    var (frameType, d3) :- ReadText(d2, MAX_IDENTIFIER);
    var (nativeKey, d4) :- ReadText(d3, MAX_IDENTIFIER);
    var (candidates, d5) :- ReadTextSet(d4, 32, 0);
    ReadFrameTail(d5, version, universeID, frameType, nativeKey, candidates)
  }

  /** The canonical bytes of a frame: absent for an invalid or oversized one. */
  function Marshal(f: Frame): Result<Bytes, CodecError> {
    if ValidFrame(f) && |PutFrame(f, [])| <= MAX_DOCUMENT_BYTES then Success(PutFrame(f, [])) else Failure(Invalid)
  }

  function Unmarshal(data: Bytes): Result<Frame, CodecError> {
    if data == [] || |data| > MAX_DOCUMENT_BYTES then Failure(Invalid)
    else
      var r := ReadFrame(data);
      if r.Bad? then Failure(r.error)
      else if r.rest != [] then Failure(TrailingBytes)
      else if !ValidFrame(r.value) then Failure(Invalid)
      else Success(r.value)
  }

  lemma ReadFrameTailRoundTrip(f: Frame, tail: Bytes)
    requires ValidFrame(f)
    ensures ReadFrameTail(PutFrameTail(f, tail), f.version, f.universeID, f.frameType, f.nativeKey, f.canonicalCandidates)
         == Read(f, tail)
  {
    hide ReadFixed, ReadFrameDerivation, ReadSlots, ReadContext, ReadFrameTime, ReadFrameEpistemic, ReadLifecycle;
    hide PutArray, PutFrameDerivation, PutSlots, PutContext, PutFrameTime, PutFrameEpistemic, PutLifecycle;
    hide OneOf, ValidIdentifier, ValidContext, ValidFrameTime, ValidFrameEpistemic, ValidFrameDerivation, ValidSlot;
    hide ValidLifecycle, ValidSortedTexts, UsedPackets;
    FixedRoundTrip(0, tail);
    var t6 := PutArray(0, tail);
    LifecycleRoundTrip(f.lifecycle, t6);
    var t5 := PutLifecycle(f.lifecycle, t6);
    FrameEpistemicRoundTrip(f.epistemic, t5);
    var t4 := PutFrameEpistemic(f.epistemic, t5);
    FrameTimeRoundTrip(f.time, t4);
    var t3 := PutFrameTime(f.time, t4);
    ContextRoundTrip(f.context, t3);
    var t2 := PutContext(f.context, t3);
    SlotsRoundTrip(f.slots, t2);
    var t1 := PutSlots(f.slots, t2);
    FrameDerivationRoundTrip(f.derivation, t1);
  }

  lemma ReadFrameRoundTrip(f: Frame, tail: Bytes)
    requires ValidFrame(f)
    ensures ReadFrame(PutFrame(f, tail)) == Read(f, tail)
  {
    hide ReadFixed, ReadText, ReadTextSet, ReadFrameTail, PutArray, PutText, PutTextSet, PutFrameTail;
    hide OneOf, ValidIdentifier, ValidContext, ValidFrameTime, ValidFrameEpistemic, ValidFrameDerivation, ValidSlots;
    hide ValidLifecycle, ValidSortedTexts;
    ReadFrameTailRoundTrip(f, tail);
    var t5 := PutFrameTail(f, tail);
    TextSetRoundTrip(f.canonicalCandidates, 32, t5);
    var t4 := PutTextSet(f.canonicalCandidates, t5);
    IdentifierRoundTrip(f.nativeKey, t4);
    var t3 := PutText(f.nativeKey, t4);
    IdentifierRoundTrip(f.frameType, t3);
    var t2 := PutText(f.frameType, t3);
    IdentifierRoundTrip(f.universeID, t2);
    var t1 := PutText(f.universeID, t2);
    EnumRoundTrip(f.version, FrameVersions(), t1);
    FixedRoundTrip(12, PutText(f.version, t1));
  }

  /** Every frame the encoder writes, the decoder reads back unchanged. */
  lemma FrameRoundTrip(f: Frame)
    requires Marshal(f).Success?
    ensures Unmarshal(Marshal(f).value) == Success(f)
  {
    hide ReadFrame, ValidFrame;
    ReadFrameRoundTrip(f, []);
    assert PutFrame(f, []) != [];
  }

  /** Every byte string the decoder accepts is the encoder's only encoding of
      the frame it stands for. */
  lemma FrameCanonical(data: Bytes)
    requires Unmarshal(data).Success?
    ensures Marshal(Unmarshal(data).value) == Success(data)
  {
    hide PutFrame, ValidFrame;
  }

  lemma FrameBijection(data: Bytes)
    ensures Unmarshal(data).Success? <==> exists f :: Marshal(f) == Success(data)
    ensures forall f, g :: Marshal(f) == Success(data) && Marshal(g) == Success(data) ==> f == g
  {
    hide Marshal, Unmarshal;
    if Unmarshal(data).Success? { FrameCanonical(data); }
    forall f | Marshal(f) == Success(data) ensures Unmarshal(data) == Success(f) { FrameRoundTrip(f); }
  }

  method EncodeFrameTail(enc: Encoder, f: Frame)
    modifies enc
    ensures forall t: Bytes :: enc.buf + t == old(enc.buf) + PutFrameTail(f, t)
  {
    hide PutArray, PutFrameDerivation, PutSlots, PutContext, PutFrameTime, PutFrameEpistemic, PutLifecycle;
    EncodeFrameDerivation(enc, f.derivation);
    EncodeSlots(enc, f.slots);
    EncodeContext(enc, f.context);
    EncodeFrameTime(enc, f.time);
    EncodeFrameEpistemic(enc, f.epistemic);
    EncodeLifecycle(enc, f.lifecycle);
    enc.Array(0);
  }

  method EncodeFrame(enc: Encoder, f: Frame)
    modifies enc
    ensures forall t: Bytes :: enc.buf + t == old(enc.buf) + PutFrame(f, t)
  {
    hide PutArray, PutText, PutTextSet, PutFrameTail;
    enc.Array(12);
    enc.Text(f.version);
    enc.Text(f.universeID);
    enc.Text(f.frameType);
    enc.Text(f.nativeKey);
    EncodeTexts(enc, f.canonicalCandidates);
    EncodeFrameTail(enc, f);
  }

  method MarshalFrame(f: Frame) returns (r: Result<Bytes, CodecError>)
    ensures r == Marshal(f)
  {
    hide PutFrame, ValidFrame;
    if !ValidFrame(f) {
      return Failure(Invalid);
    }
    var enc := new Encoder();
    EncodeFrame(enc, f);
    var encoded := enc.Bytes();
    assert encoded == encoded + [] == [] + PutFrame(f, []) == PutFrame(f, []);
    if |encoded| > MAX_DOCUMENT_BYTES {
      return Failure(Invalid);
    }
    r := Success(encoded);
  }

  method DecodeFrameTail(
    dec: Decoder, version: Text, universeID: Text, frameType: Text, nativeKey: Text, candidates: Slice<Text>)
    returns (r: Result<Frame, CodecError>)
    requires dec.Valid()
    modifies dec`off
    ensures dec.Valid()
    ensures Follows(r, ReadFrameTail(old(dec.Rest()), version, universeID, frameType, nativeKey, candidates), dec.Rest())
  {
    hide ReadFixed, ReadFrameDerivation, ReadSlots, ReadContext, ReadFrameTime, ReadFrameEpistemic, ReadLifecycle;
    hide PutArray, PutFrameDerivation, PutSlots, PutContext, PutFrameTime, PutFrameEpistemic, PutLifecycle, PutFrameTail;
    var derivation :- DecodeFrameDerivation(dec);
    var slots :- DecodeSlots(dec);
    var context :- DecodeContext(dec);
    var time :- DecodeFrameTime(dec);
    var epistemic :- DecodeFrameEpistemic(dec);
    var lifecycle :- DecodeLifecycle(dec);
    var _ :- DecodeFixed(dec, 0);
    r := Success(Frame(version, universeID, frameType, nativeKey, candidates, slots, context, time, epistemic,
                       derivation, lifecycle));
  }

  method DecodeFrame(dec: Decoder) returns (r: Result<Frame, CodecError>)
    requires dec.Valid()
    modifies dec`off
    ensures dec.Valid() && Follows(r, ReadFrame(old(dec.Rest())), dec.Rest())
  {
    hide ReadFixed, ReadText, ReadTextSet, ReadFrameTail, PutFrame, PutArray, PutText, PutTextSet, PutFrameTail;
    var _ :- DecodeFixed(dec, 12);
    var version :- dec.Text(MAX_IDENTIFIER);
    var universeID :- dec.Text(MAX_IDENTIFIER);
    var frameType :- dec.Text(MAX_IDENTIFIER);
    var nativeKey :- dec.Text(MAX_IDENTIFIER);
    var candidates :- DecodeTextSet(dec, 32, 0);
    r := DecodeFrameTail(dec, version, universeID, frameType, nativeKey, candidates);
  }

  method UnmarshalFrame(data: Bytes) returns (r: Result<Frame, CodecError>)
    ensures r == Unmarshal(data)
  {
    hide ReadFrame, ValidFrame, PutFrame;
    if |data| == 0 || |data| > MAX_DOCUMENT_BYTES {
      return Failure(Invalid);
    }
    var dec := new Decoder(data);
    var f :- DecodeFrame(dec);
    if dec.Remaining() != 0 {
      return Failure(TrailingBytes);
    }
    if !ValidFrame(f) {
      return Failure(Invalid);
    }
    r := Success(f);
  }

  // ----- the evidence of a frame ---------------------------------------------

  predicate DigestBefore(a: Digest, b: Digest) {
    Less(a, b)
  }

  lemma DigestOrder()
    ensures StrictOrder(DigestBefore)
    ensures forall a: Digest, b: Digest :: a != b ==> DigestBefore(a, b) || DigestBefore(b, a)
  {
    forall a: Digest, b: Digest | DigestBefore(a, b) ensures !DigestBefore(b, a) {
      if Less(b, a) {
        LessTransitive(a, b, a);
        LessIrreflexive(a);
      }
    }
    forall a: Digest, b: Digest, c: Digest | DigestBefore(a, b) && DigestBefore(b, c) ensures DigestBefore(a, c) {
      LessTransitive(a, b, c);
    }
    forall a: Digest, b: Digest | a != b ensures DigestBefore(a, b) || DigestBefore(b, a) {
      LessTotal(a, b);
    }
  }

  /** The digests of all slots, without repetition and in order: a set is filled slot by slot,
      listed in any order, and sorted. */
  method SortedDigestUnion(slots: seq<Slot>) returns (values: seq<Digest>)
    ensures StrictlySorted(values) && forall d :: d in values <==> d in UsedPackets(slots)
  {
    hide Less, UsedPackets, StrictOrder;
    var union: set<Digest> := {};
    NothingUsed(slots);
    for n := 0 to |slots|
      invariant union == UsedPackets(slots[..n])
    {
      UsedNext(slots, n);
      union := union + set d | d in slots[n].packetDigests;
    }
    assert slots[..|slots|] == slots;
    values := [];
    var rest := union;
    while rest != {}
      invariant forall d :: d in union <==> d in values || d in rest
      invariant forall i :: 0 <= i < |values| ==> values[i] !in rest
      invariant Unrepeated(values)
      decreases |rest|
    {
      var d :| d in rest;
      values := values + [d];
      rest := rest - {d};
    }
    values := SortDigests(values);
  }

  method SortDigests(listed: seq<Digest>) returns (values: seq<Digest>)
    requires Unrepeated(listed)
    ensures StrictlySorted(values) && forall d :: d in values <==> d in listed
  {
    hide Less, StrictOrder;
    DigestOrder();
    values := SortBy(DigestBefore, listed);
    PermutedApart(listed, values);
    assert forall d :: d in values <==> d in multiset(values);
    assert forall d :: d in listed <==> d in multiset(listed);
    assert forall i :: 0 < i < |values| ==> DigestBefore(values[i - 1], values[i]);
  }

  lemma NothingUsed(slots: seq<Slot>)
    ensures UsedPackets(slots[..0]) == {}
  {
  }

  lemma UsedNext(slots: seq<Slot>, n: nat)
    requires n < |slots|
    ensures UsedPackets(slots[..n + 1]) == UsedPackets(slots[..n]) + set d | d in slots[n].packetDigests
  {
    var added := set d | d in slots[n].packetDigests;
    forall d: Digest ensures d in UsedPackets(slots[..n + 1]) <==> d in UsedPackets(slots[..n]) + added {
      if d in added {
        assert slots[..n + 1][n] == slots[n];
      }
      if d in UsedPackets(slots[..n]) {
        var i :| 0 <= i < n && d in slots[..n][i].packetDigests;
        assert slots[..n + 1][i] == slots[..n][i];
      }
    }
  }

  /** A valid frame derives from exactly the packets its slots rest on: its evidence list is the
      sorted union of the slots' lists. */
  lemma EvidenceIsUnion(f: Frame, values: seq<Digest>)
    requires ValidFrame(f) && StrictlySorted(values) && forall d :: d in values <==> d in UsedPackets(f.slots)
    ensures values == f.derivation.packetDigests
  {
    hide ValidSlot, ValidContext, ValidFrameTime, ValidFrameEpistemic, ValidLifecycle, OneOf, ValidIdentifier, Less;
    var evidence := f.derivation.packetDigests;
    forall d | d in UsedPackets(f.slots) ensures d in Members(evidence) {
      var i :| 0 <= i < |f.slots| && d in f.slots[i].packetDigests;
      assert f.slots[i] in f.slots;
    }
    SubsetSize(UsedPackets(f.slots), Members(evidence));
    SortedUnique(values, evidence);
  }
}
