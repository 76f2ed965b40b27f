/** A frame and an envelope of the conformance corpus, byte by byte.
  *
  * The frame is in conformance/e4-ontology/vectors.tsv, the envelope in
  * conformance/observation/vectors.json; its body digest is left open.
  */
module FrameVectors {
  import opened Wrappers
  import opened ByteStrings
  import opened Cbor
  import opened Lexical
  import opened Documents
  import opened Packets
  import opened PacketVectors
  import O = Observations
  import F = Frames
  import Instants

  // ----- the envelope --------------------------------------------------------

  function EnvelopeOf(body: Digest): O.Envelope {
    O.Envelope(1, Ascii("https://example.org/minimal"), Ascii("https://example.org/minimal"), Ascii("GET"), 200,
               Ascii("application/json"), Ascii("2026-08-10T00:00:00Z"), body, 55, Ascii("tw.fetch.public-v0"),
               Ascii("tw.fixture/0.1"))
  }

  /** The document of the corpus, for any body digest. */
  function EnvelopeVector(body: Digest): Bytes {
    [0x8b] + ([0x01] + (T("https://example.org/minimal") + (T("https://example.org/minimal") + (T("GET") + ([0x18, 0xc8]
      + (T("application/json") + (T("2026-08-10T00:00:00Z") + (([0x58, 0x20] + body) + ([0x18, 0x37]
        + (T("tw.fetch.public-v0") + T("tw.fixture/0.1")))))))))))
  }

  lemma SmallUint(n: nat, tail: Bytes)
    requires n < 256
    ensures PutUint(n, tail) == (if n < 24 then [n] else [0x18, n]) + tail
  {
    assert PutBigEndian(n / 256, 0) == [];
    assert n >= 24 ==> PutBigEndian(n, 1) == [n];
  }

  lemma AnyDigest(d: Digest, tail: Bytes)
    ensures PutDigest(d, tail) == ([0x58, 0x20] + d) + tail
  {
    assert PutBigEndian(32, 1) == [32];
  }

  /** The encoder writes the envelope of the corpus. */
  lemma CorpusEnvelope(body: Digest)
    ensures O.MarshalEnvelope(EnvelopeOf(body)) == EnvelopeVector(body)
  {
    hide PutText, T, PutArray, PutUint, PutDigest, Ascii;
    TextIs("tw.fixture/0.1", []);
    assert T("tw.fixture/0.1") + [] == T("tw.fixture/0.1");
    TextIs("tw.fetch.public-v0", T("tw.fixture/0.1"));
    var t := T("tw.fetch.public-v0") + T("tw.fixture/0.1");
    SmallUint(55, t);
    AnyDigest(body, [0x18, 0x37] + t);
    var u := ([0x58, 0x20] + body) + ([0x18, 0x37] + t);
    TextIs("2026-08-10T00:00:00Z", u);
    TextIs("application/json", T("2026-08-10T00:00:00Z") + u);
    var v := T("application/json") + (T("2026-08-10T00:00:00Z") + u);
    SmallUint(200, v);
    TextIs("GET", [0x18, 0xc8] + v);
    var w := T("GET") + ([0x18, 0xc8] + v);
    TextIs("https://example.org/minimal", w);
    TextIs("https://example.org/minimal", T("https://example.org/minimal") + w);
    var x := T("https://example.org/minimal") + (T("https://example.org/minimal") + w);
    SmallUint(1, x);
    ArrayIs(11, [0x01] + x);
  }

  // ----- the frame -----------------------------------------------------------

  function Code(): TypedValue { TypedValue(Ascii("identifier"), Ascii("POP"), Absent(), Absent()) }

  function FirstSlot(): F.Slot {
    F.Slot(Ascii("world:indicator"), Ascii("resolved"), Ascii("one"), [Code()], [Same(1)], [Ascii("mapping:world/a@0.1")],
           Ascii("none"))
  }

  function SecondSlot(): F.Slot {
    F.Slot(Ascii("world:value"), Ascii("resolved"), Ascii("one"), [Population()], [Same(2)], [Ascii("mapping:world/b@0.1")],
           Ascii("none"))
  }

  function FrameDerivationOf(): F.FrameDerivation {
    F.FrameDerivation([Same(1), Same(2)], Same(3), [Ascii("mapping:world/a@0.1"), Ascii("mapping:world/b@0.1")], Same(4),
                      Ascii("twirx-ontology@0.1"))
  }

  function FrameContextOf(): Context { Context([], Present("geo:CL"), Present("en"), Absent()) }
  function FrameTimeOf(): F.FrameTime { F.FrameTime(Ascii("2026-08-12T00:00:00Z"), Absent(), Absent()) }
  function FrameEpistemicOf(): F.FrameEpistemic { F.FrameEpistemic(Ascii("attested_semantic"), 1_000_000, Ascii("none")) }

  function FrameOf(): F.Frame {
    F.Frame(Ascii("tw.semantic-frame/0.1"), Ascii("tw:world-state"), Ascii("world:IndicatorObservation"),
            Ascii("world-bank:CL/POP/2024"), [Ascii("world:observation/CL/POP/2024")], [FirstSlot(), SecondSlot()],
            FrameContextOf(), FrameTimeOf(), FrameEpistemicOf(), FrameDerivationOf(), LifecycleOf())
  }

  // ----- its bytes -----------------------------------------------------------

  function CodeBytes(tail: Bytes): (b: Bytes)
    ensures |b| == 18 + |tail|
  {
    [0x84] + (T("identifier") + (T("POP") + (NIL + (NIL + tail))))
  }

  function FirstBytes(tail: Bytes): (b: Bytes)
    ensures |b| == 110 + |tail|
  {
    [0x87] + (T("world:indicator") + (T("resolved") + (T("one") + ([0x81] + CodeBytes([0x81] + (D(1) + ([0x81]
      + (T("mapping:world/a@0.1") + (T("none") + tail)))))))))
  }

  function SecondBytes(tail: Bytes): (b: Bytes)
    ensures |b| == 119 + |tail|
  {
    [0x87] + (T("world:value") + (T("resolved") + (T("one") + ([0x81] + ValueBytes([0x81] + (D(2) + ([0x81]
      + (T("mapping:world/b@0.1") + (T("none") + tail)))))))))
  }

  function FrameDerivationBytes(tail: Bytes): (b: Bytes)
    ensures |b| == 198 + |tail|
  {
    [0x85] + ([0x82] + (D(1) + (D(2) + (D(3) + ([0x82] + (T("mapping:world/a@0.1") + (T("mapping:world/b@0.1")
      + (D(4) + (T("twirx-ontology@0.1") + tail)))))))))
  }

  function FrameContextBytes(tail: Bytes): Bytes {
    [0x84] + ([0x80] + (T("geo:CL") + (T("en") + (NIL + tail))))
  }

  function FrameTimeBytes(tail: Bytes): Bytes {
    [0x83] + (T("2026-08-12T00:00:00Z") + (NIL + (NIL + tail)))
  }

  function FrameEpistemicBytes(tail: Bytes): Bytes {
    [0x83] + (T("attested_semantic") + ([0x1a, 0x00, 0x0f, 0x42, 0x40] + (T("none") + tail)))
  }

  function FrameTail(): (b: Bytes)
    ensures |b| == 505
  {
    FrameDerivationBytes([0x82] + FirstBytes(SecondBytes(FrameContextBytes(FrameTimeBytes(FrameEpistemicBytes(
      LifecycleBytes([0x80])))))))
  }

  /** The document of the corpus. */
  function FrameVector(): (b: Bytes)
    ensures |b| == 626
  {
    [0x8c] + (T("tw.semantic-frame/0.1") + (T("tw:world-state") + (T("world:IndicatorObservation")
      + (T("world-bank:CL/POP/2024") + ([0x81] + (T("world:observation/CL/POP/2024") + FrameTail()))))))
  }

  // ----- part by part --------------------------------------------------------

  lemma OneDigest(b: byte, tail: Bytes)
    ensures PutDigestSet([Same(b)], tail) == [0x81] + (D(b) + tail)
  {
    hide PutDigest, D, Same;
    DigestIs(b, tail);
    ArrayIs(1, D(b) + tail);
    var one: seq<Digest> := [Same(b)];
    assert one[1..] == [];
    assert PutItems(PutDigest, one, tail) == PutDigest(one[0], PutItems(PutDigest, [], tail));
  }

  lemma OneValue(v: TypedValue, tail: Bytes)
    ensures F.PutValues([v], tail) == [0x81] + PutTypedValue(v, tail)
  {
    hide PutTypedValue;
    ArrayIs(1, PutTypedValue(v, tail));
    var one: seq<TypedValue> := [v];
    assert one[1..] == [];
    assert PutItems(PutTypedValue, one, tail) == PutTypedValue(one[0], PutItems(PutTypedValue, [], tail));
  }

  lemma CodeIs(tail: Bytes)
    ensures PutTypedValue(Code(), tail) == CodeBytes(tail)
  {
    hide PutText, T, PutArray, PutNil, NIL, Ascii;
    NilIs(tail);
    NilIs(NIL + tail);
    TextIs("POP", NIL + (NIL + tail));
    var t := T("POP") + (NIL + (NIL + tail));
    TextIs("identifier", t);
    ArrayIs(4, T("identifier") + t);
  }

  lemma FirstIs(tail: Bytes)
    ensures F.PutSlot(FirstSlot(), tail) == FirstBytes(tail)
  {
    hide PutText, T, PutArray, PutTextSet, PutDigestSet, PutTypedValue, F.PutValues, Code, CodeBytes, D, Same, Ascii;
    TextIs("none", tail);
    OneText("mapping:world/a@0.1", T("none") + tail);
    var t := [0x81] + (T("mapping:world/a@0.1") + (T("none") + tail));
    OneDigest(1, t);
    var u := [0x81] + (D(1) + t);
    OneValue(Code(), u);
    CodeIs(u);
    var v := [0x81] + CodeBytes(u);
    TextIs("one", v);
    TextIs("resolved", T("one") + v);
    TextIs("world:indicator", T("resolved") + (T("one") + v));
    ArrayIs(7, T("world:indicator") + (T("resolved") + (T("one") + v)));
  }

  lemma SecondIs(tail: Bytes)
    ensures F.PutSlot(SecondSlot(), tail) == SecondBytes(tail)
  {
    hide PutText, T, PutArray, PutTextSet, PutDigestSet, PutTypedValue, F.PutValues, Population, ValueBytes, D, Same, Ascii;
    TextIs("none", tail);
    OneText("mapping:world/b@0.1", T("none") + tail);
    var t := [0x81] + (T("mapping:world/b@0.1") + (T("none") + tail));
    OneDigest(2, t);
    var u := [0x81] + (D(2) + t);
    OneValue(Population(), u);
    ValueIs(u);
    var v := [0x81] + ValueBytes(u);
    TextIs("one", v);
    TextIs("resolved", T("one") + v);
    TextIs("world:value", T("resolved") + (T("one") + v));
    ArrayIs(7, T("world:value") + (T("resolved") + (T("one") + v)));
  }

  lemma SlotsAre(tail: Bytes)
    ensures F.PutSlots([FirstSlot(), SecondSlot()], tail) == [0x82] + FirstBytes(SecondBytes(tail))
  {
    hide F.PutSlot, FirstSlot, SecondSlot, FirstBytes, SecondBytes;
    SecondIs(tail);
    FirstIs(SecondBytes(tail));
    ArrayIs(2, FirstBytes(SecondBytes(tail)));
    var both: seq<F.Slot> := [FirstSlot(), SecondSlot()];
    var last: seq<F.Slot> := [SecondSlot()];
    assert both[1..] == last && last[1..] == [];
    assert PutItems(F.PutSlot, last, tail) == F.PutSlot(last[0], PutItems(F.PutSlot, [], tail));
    assert PutItems(F.PutSlot, both, tail) == F.PutSlot(both[0], PutItems(F.PutSlot, last, tail));
  }

  lemma TwoTexts(a: string, b: string, tail: Bytes)
    requires |a| < 256 && |b| < 256
    ensures PutTextSet([Ascii(a), Ascii(b)], tail) == [0x82] + (T(a) + (T(b) + tail))
  {
    hide PutText, T, Ascii;
    TextIs(b, tail);
    TextIs(a, T(b) + tail);
    ArrayIs(2, T(a) + (T(b) + tail));
    var both: seq<Text> := [Ascii(a), Ascii(b)];
    var last: seq<Text> := [Ascii(b)];
    assert both[1..] == last && last[1..] == [];
    assert PutItems(PutText, last, tail) == PutText(last[0], PutItems(PutText, [], tail));
    assert PutItems(PutText, both, tail) == PutText(both[0], PutItems(PutText, last, tail));
  }

  lemma TwoDigests(a: byte, b: byte, tail: Bytes)
    ensures PutDigestSet([Same(a), Same(b)], tail) == [0x82] + (D(a) + (D(b) + tail))
  {
    hide PutDigest, D, Same;
    DigestIs(b, tail);
    DigestIs(a, D(b) + tail);
    ArrayIs(2, D(a) + (D(b) + tail));
    var both: seq<Digest> := [Same(a), Same(b)];
    var last: seq<Digest> := [Same(b)];
    assert both[1..] == last && last[1..] == [];
    assert PutItems(PutDigest, last, tail) == PutDigest(last[0], PutItems(PutDigest, [], tail));
    assert PutItems(PutDigest, both, tail) == PutDigest(both[0], PutItems(PutDigest, last, tail));
  }

  lemma FrameDerivationIs(tail: Bytes)
    ensures F.PutFrameDerivation(FrameDerivationOf(), tail) == FrameDerivationBytes(tail)
  {
    hide PutText, T, PutArray, PutTextSet, PutDigestSet, PutDigest, D, Same, Ascii;
    TextIs("twirx-ontology@0.1", tail);
    var t := T("twirx-ontology@0.1") + tail;
    DigestIs(4, t);
    TwoTexts("mapping:world/a@0.1", "mapping:world/b@0.1", D(4) + t);
    var u := [0x82] + (T("mapping:world/a@0.1") + (T("mapping:world/b@0.1") + (D(4) + t)));
    DigestIs(3, u);
    TwoDigests(1, 2, D(3) + u);
    ArrayIs(5, [0x82] + (D(1) + (D(2) + (D(3) + u))));
  }

  lemma FrameContextIs(tail: Bytes)
    ensures PutContext(FrameContextOf(), tail) == FrameContextBytes(tail)
  {
    hide PutText, T, PutArray, PutNil, NIL, Ascii;
    NilIs(tail);
    TextIs("en", NIL + tail);
    TextIs("geo:CL", T("en") + (NIL + tail));
    var t := T("geo:CL") + (T("en") + (NIL + tail));
    ArrayIs(0, t);
    ArrayIs(4, [0x80] + t);
  }

  lemma FrameTimeIs(tail: Bytes)
    ensures F.PutFrameTime(FrameTimeOf(), tail) == FrameTimeBytes(tail)
  {
    hide PutText, T, PutArray, PutNil, NIL, Ascii;
    NilIs(tail);
    NilIs(NIL + tail);
    TextIs("2026-08-12T00:00:00Z", NIL + (NIL + tail));
    ArrayIs(3, T("2026-08-12T00:00:00Z") + (NIL + (NIL + tail)));
  }

  lemma MillionIs(tail: Bytes)
    ensures PutUint(1_000_000, tail) == [0x1a, 0x00, 0x0f, 0x42, 0x40] + tail
  {
    assert PutBigEndian(15, 2) == [0, 15];
    assert PutBigEndian(1_000_000, 4) == [0x00, 0x0f, 0x42, 0x40];
  }

  lemma FrameEpistemicIs(tail: Bytes)
    ensures F.PutFrameEpistemic(FrameEpistemicOf(), tail) == FrameEpistemicBytes(tail)
  {
    hide PutText, T, PutArray, PutUint, Ascii;
    TextIs("none", tail);
    MillionIs(T("none") + tail);
    var t := [0x1a, 0x00, 0x0f, 0x42, 0x40] + (T("none") + tail);
    TextIs("attested_semantic", t);
    ArrayIs(3, T("attested_semantic") + t);
  }

  lemma FrameTailIs()
    ensures F.PutFrameTail(FrameOf(), []) == FrameTail()
  {
    hide F.PutFrameDerivation, F.PutSlots, PutContext, F.PutFrameTime, F.PutFrameEpistemic, PutLifecycle, PutArray, Ascii;
    hide FrameDerivationOf, FirstSlot, SecondSlot, FrameContextOf, FrameTimeOf, FrameEpistemicOf, LifecycleOf;
    hide FrameDerivationBytes, FirstBytes, SecondBytes, FrameContextBytes, FrameTimeBytes, FrameEpistemicBytes, LifecycleBytes;
    ArrayIs(0, []);
    assert [0x80] + [] == [0x80];
    LifecycleIs([0x80]);
    FrameEpistemicIs(LifecycleBytes([0x80]));
    var t := FrameEpistemicBytes(LifecycleBytes([0x80]));
    FrameTimeIs(t);
    FrameContextIs(FrameTimeBytes(t));
    SlotsAre(FrameContextBytes(FrameTimeBytes(t)));
    FrameDerivationIs([0x82] + FirstBytes(SecondBytes(FrameContextBytes(FrameTimeBytes(t)))));
  }

  lemma FrameIs()
    ensures F.PutFrame(FrameOf(), []) == FrameVector()
  {
    FrameTailIs();
    hide PutText, T, PutArray, PutTextSet, F.PutFrameTail, FrameTail, Ascii;
    hide FrameDerivationOf, FirstSlot, SecondSlot, FrameContextOf, FrameTimeOf, FrameEpistemicOf, LifecycleOf;
    OneText("world:observation/CL/POP/2024", FrameTail());
    var t := [0x81] + (T("world:observation/CL/POP/2024") + FrameTail());
    TextIs("world-bank:CL/POP/2024", t);
    var u := T("world-bank:CL/POP/2024") + t;
    TextIs("world:IndicatorObservation", u);
    var v := T("world:IndicatorObservation") + u;
    TextIs("tw:world-state", v);
    TextIs("tw.semantic-frame/0.1", T("tw:world-state") + v);
    ArrayIs(12, T("tw.semantic-frame/0.1") + (T("tw:world-state") + v));
  }

  // ----- the frame is valid --------------------------------------------------

  lemma CodeValid()
    ensures ValidTypedValue(Code())
  {
    hide ValidText, ValidIdentifier;
    PrintableIsIdentifier("POP");
    PrintableIsText("POP", MAX_LEXICAL);
    Chosen(ValueKinds(), 8);
    KindLengths();
  }

  lemma KindLengths()
    ensures Ascii("identifier") !in {Ascii("boolean"), Ascii("integer"), Ascii("decimal"), Ascii("date"), Ascii("datetime"),
                                     Ascii("duration"), Ascii("uri")}
  {
    assert |Ascii("identifier")| == 10 && |Ascii("boolean")| == 7 && |Ascii("integer")| == 7 && |Ascii("decimal")| == 7;
    assert |Ascii("date")| == 4 && |Ascii("datetime")| == 8 && |Ascii("duration")| == 8 && |Ascii("uri")| == 3;
  }

  lemma SlotWords()
    ensures OneOf(Ascii("resolved"), Statuses()) && OneOf(Ascii("one"), F.Cardinalities()) && OneOf(Ascii("none"), F.Conflicts())
    ensures Ascii("resolved") != Ascii("contradictory")
  {
    Chosen(Statuses(), 0);
    Chosen(F.Cardinalities(), 0);
    Chosen(F.Conflicts(), 0);
    assert |Ascii("resolved")| == 8 && |Ascii("contradictory")| == 13;
  }

  lemma FirstValid()
    ensures F.ValidSlot(FirstSlot())
  {
    hide Ascii, OneOf, ValidIdentifier, ValidTypedValue, Code, Same;
    SlotWords();
    CodeValid();
    PrintableIsIdentifier("world:indicator");
    PrintableIsIdentifier("mapping:world/a@0.1");
  }

  lemma SecondValid()
    ensures F.ValidSlot(SecondSlot())
  {
    hide Ascii, OneOf, ValidIdentifier, ValidTypedValue, Population, Same;
    SlotWords();
    PopulationValid();
    PrintableIsIdentifier("world:value");
    PrintableIsIdentifier("mapping:world/b@0.1");
  }

  lemma DigestsSorted()
    ensures Less(Same(1), Same(2)) && Same(1) != Same(2)
  {
    assert Same(1)[0] == 1 && Same(2)[0] == 2;
  }

  lemma NamesSorted()
    ensures Less(Ascii("world:indicator"), Ascii("world:value"))
    ensures Less(Ascii("mapping:world/a@0.1"), Ascii("mapping:world/b@0.1"))
  {
    SharedPrefix(Ascii("world:indicator"), Ascii("world:value"), 6);
    SharedPrefix(Ascii("mapping:world/a@0.1"), Ascii("mapping:world/b@0.1"), 14);
  }

  lemma {:induction false} SharedPrefix(a: Bytes, b: Bytes, n: nat)
    requires n < |a| && n < |b| && a[..n] == b[..n] && a[n] < b[n]
    ensures Less(a, b)
  {
    if n > 0 {
      assert a[0] == a[..n][0] && b[0] == b[..n][0];
      assert a[1..][..n - 1] == a[..n][1..] && b[1..][..n - 1] == b[..n][1..];
      SharedPrefix(a[1..], b[1..], n - 1);
    }
  }

  lemma SlotsValid()
    ensures F.ValidSlots([FirstSlot(), SecondSlot()], FrameDerivationOf())
  {
    FirstValid();
    SecondValid();
    NamesSorted();
    DigestsSorted();
    hide F.ValidSlot, Less, Ascii, Same, Code, Population;
    var slots := [FirstSlot(), SecondSlot()];
    var used, all := F.UsedPackets(slots), F.Members(FrameDerivationOf().packetDigests);
    F.NothingUsed(slots);
    F.UsedNext(slots, 0);
    F.UsedNext(slots, 1);
    assert slots[..2] == slots;
    assert (set d | d in slots[0].packetDigests) == {Same(1)} && (set d | d in slots[1].packetDigests) == {Same(2)};
    assert used == {Same(1), Same(2)};
    assert FrameDerivationOf().packetDigests[0] == Same(1) && FrameDerivationOf().packetDigests[1] == Same(2);
    assert all == {Same(1), Same(2)};
  }

  lemma FramePartsValid()
    ensures F.ValidFrameDerivation(FrameDerivationOf()) && ValidContext(FrameContextOf()) && F.ValidFrameTime(FrameTimeOf())
  {
    LanguageValid();
    ComposedIs();
    NamesSorted();
    DigestsSorted();
    hide Ascii, Less, ValidIdentifier, ValidUTCSecond, LanguageTag, Same;
    PrintableIsIdentifier("mapping:world/a@0.1");
    PrintableIsIdentifier("mapping:world/b@0.1");
    PrintableIsIdentifier("twirx-ontology@0.1");
    PrintableIsIdentifier("geo:CL");
  }

  lemma ComposedIs()
    ensures ValidUTCSecond(Ascii("2026-08-12T00:00:00Z"))
  {
    ComposedBytes();
    assert Instants.Padded(20, 2) == [50, 48] && Instants.Padded(2026, 4) == [50, 48, 50, 54];
    assert Instants.Padded(8, 2) == [48, 56] && Instants.Padded(12, 2) == [49, 50] && Instants.Padded(0, 2) == [48, 48];
    hide Instants.Padded, Ascii, ValidUTCSecond;
    Instants.WrittenIsValid(Instants.Moment(2026, 8, 12, 0, 0, 0));
  }

  lemma ComposedBytes()
    ensures Ascii("2026-08-12T00:00:00Z")
            == [50, 48, 50, 54] + [45] + [48, 56] + [45] + [49, 50] + [84] + [48, 48] + [58] + [48, 48] + [58] + [48, 48] + [90]
  {
  }

  lemma FrameEnumsValid()
    ensures OneOf(Ascii("tw.semantic-frame/0.1"), F.FrameVersions()) && F.ValidFrameEpistemic(FrameEpistemicOf())
  {
    hide Ascii, OneOf;
    Chosen(F.FrameVersions(), 0);
    Chosen(Lanes(), 2);
    Chosen(F.Conflicts(), 0);
  }

  lemma FrameWordsValid()
    ensures ValidIdentifier(Ascii("tw:world-state")) && ValidIdentifier(Ascii("world:IndicatorObservation"))
    ensures ValidIdentifier(Ascii("world-bank:CL/POP/2024")) && ValidIdentifier(Ascii("world:observation/CL/POP/2024"))
  {
    hide Ascii, ValidIdentifier;
    PrintableIsIdentifier("tw:world-state");
    PrintableIsIdentifier("world:IndicatorObservation");
    PrintableIsIdentifier("world-bank:CL/POP/2024");
    PrintableIsIdentifier("world:observation/CL/POP/2024");
  }

  lemma FrameValid()
    ensures F.ValidFrame(FrameOf())
  {
    FrameEnumsValid();
    FrameWordsValid();
    LaneNames();
    SlotsValid();
    FramePartsValid();
    EpistemicValid(Attested);
    hide Ascii, OneOf, ValidIdentifier, F.ValidSlots, F.ValidFrameDerivation, ValidContext, F.ValidFrameTime, ValidLifecycle;
    hide FirstSlot, SecondSlot, FrameContextOf, FrameTimeOf, LifecycleOf, Same, F.FrameVersions, Less;
  }

  /** The codec is that of the corpus for the frame too, both ways. */
  lemma CorpusFrame()
    ensures F.Marshal(FrameOf()) == Success(FrameVector()) && F.Unmarshal(FrameVector()) == Success(FrameOf())
  {
    hide FrameVector, FrameOf, F.ValidFrame, F.PutFrame;
    FrameIs();
    FrameValid();
    hide F.Unmarshal;
    F.FrameRoundTrip(FrameOf());
  }
}
