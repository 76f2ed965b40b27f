/** Two documents of the conformance corpus (conformance/e3-s1/vectors.tsv), byte by byte.
  *
  * A packet in each of the two semantic lanes: its fields, and the bytes that it is published as.
  * Whatever the codec makes of other packets, these it must encode and decode as the corpus has them.
  */
module PacketVectors {
  import opened Wrappers
  import opened ByteStrings
  import opened Cbor
  import opened Lexical
  import opened Documents
  import opened Packets
  import Instants

  // ----- how the vectors are written -----------------------------------------

  /** A text of the corpus, with the head it has there. */
  function T(s: string): (b: Bytes)
    requires |s| < 256
    ensures |b| == |s| + if |s| < 24 then 1 else 2
  {
    (if |s| < 24 then [0x60 + |s|] else [0x78, |s|]) + Ascii(s)
  }

  /** A digest of the corpus: thirty-two times the same byte. */
  function Same(b: byte): Digest {
    seq(32, _ => b)
  }

  function D(b: byte): (d: Bytes)
    ensures |d| == 34
  {
    [0x58, 0x20] + Same(b)
  }

  function Present(s: string): OptionalText
    requires |s| < 256
  {
    OptionalText(true, Ascii(s))
  }

  function Absent(): OptionalText {
    OptionalText(false, [])
  }

  const NIL: Bytes := [0xf6]

  lemma TextIs(s: string, tail: Bytes)
    requires |s| < 256
    ensures PutText(Ascii(s), tail) == T(s) + tail
  {
    assert |s| >= 24 ==> PutBigEndian(|s|, 1) == [|s|] by {
      assert PutBigEndian(|s| / 256, 0) == [];
    }
  }

  lemma DigestIs(b: byte, tail: Bytes)
    ensures PutDigest(Same(b), tail) == D(b) + tail
  {
    assert PutBigEndian(32, 1) == [32];
  }

  lemma ArrayIs(n: nat, tail: Bytes)
    requires n < 24
    ensures PutArray(n, tail) == [0x80 + n] + tail
  {
  }

  lemma NilIs(tail: Bytes)
    ensures PutNil(tail) == NIL + tail
  {
  }

  // ----- the packet ----------------------------------------------------------

  /** What the two packets differ in. */
  datatype Lane = Attested | Provisional

  function LaneName(l: Lane): string {
    if l.Attested? then "attested_semantic" else "provisional_semantic"
  }

  function MappingName(l: Lane): string {
    if l.Attested? then "reviewed" else "candidate"
  }

  function Population(): TypedValue {
    TypedValue(Ascii("integer"), Ascii("19629590"), Present("unit:person"), Absent())
  }

  function SubjectOf(): Subject { Subject(Ascii("world-bank:country/CHL"), [Ascii("geo:CL")]) }
  function PredicateOf(): Predicate { Predicate(Ascii("SP.POP.TOTL"), Present("statistics:populationTotal")) }

  function ObjectOf(): Object {
    Object(Ascii("resolved"), Ascii("19629590"), Present("application/json"), Present("en"), Some(Population()))
  }

  function ContextOf(): Context { Context([], Present("geo:CL"), Absent(), Absent()) }
  function TimeOf(): Time { Time(Ascii("2026-08-11T00:00:00Z"), Absent(), Absent(), Absent(), Absent()) }
  function SourceOf(): Source { Source(Ascii("world-bank-indicators"), Same(1), Ascii("/1/0/value"), Absent()) }

  function DerivationOf(): Derivation {
    Derivation(Same(2), OptionalDigest(false, ZeroDigest()), Same(3), Same(4), [Ascii("parse:integer")],
               [Ascii("mapping:world-bank-statistics@0.1")], OptionalDigest(true, Same(12)), Same(5),
               Ascii("twirx-compiler@0.1"))
  }

  function EpistemicOf(l: Lane): Epistemic {
    Epistemic(Ascii(LaneName(l)), Ascii("deterministic"), Ascii(MappingName(l)),
              if l.Attested? then None else Some(800_000), Ascii("official_public_api"), Ascii("stale"))
  }

  function LifecycleOf(): Lifecycle { Lifecycle(Ascii("current"), OptionalDigest(false, ZeroDigest())) }

  function PacketOf(l: Lane): Packet {
    Packet(Ascii("tw.semantic-packet/0.1"), Ascii("measurement"), SubjectOf(), PredicateOf(), ObjectOf(), ContextOf(),
           TimeOf(), SourceOf(), DerivationOf(), EpistemicOf(l), LifecycleOf(), Ascii("public_versioned"), Ascii("public"))
  }

  // ----- its bytes -----------------------------------------------------------

  function SubjectBytes(tail: Bytes): (b: Bytes)
    ensures |b| == 32 + |tail|
  {
    [0x82] + (T("world-bank:country/CHL") + ([0x81] + (T("geo:CL") + tail)))
  }

  function PredicateBytes(tail: Bytes): (b: Bytes)
    ensures |b| == 41 + |tail|
  {
    [0x82] + (T("SP.POP.TOTL") + (T("statistics:populationTotal") + tail))
  }

  function ObjectBytes(tail: Bytes): (b: Bytes)
    ensures |b| == 70 + |tail|
  {
    [0x85] + (T("resolved") + (T("19629590") + (T("application/json") + (T("en") + ValueBytes(tail)))))
  }

  function ValueBytes(tail: Bytes): (b: Bytes)
    ensures |b| == 31 + |tail|
  {
    [0x84] + (T("integer") + (T("19629590") + (T("unit:person") + (NIL + tail))))
  }

  function ContextBytes(tail: Bytes): (b: Bytes)
    ensures |b| == 11 + |tail|
  {
    [0x84] + ([0x80] + (T("geo:CL") + (NIL + (NIL + tail))))
  }

  function TimeBytes(tail: Bytes): (b: Bytes)
    ensures |b| == 26 + |tail|
  {
    [0x85] + (T("2026-08-11T00:00:00Z") + (NIL + (NIL + (NIL + (NIL + tail)))))
  }

  function SourceBytes(tail: Bytes): (b: Bytes)
    ensures |b| == 69 + |tail|
  {
    [0x84] + (T("world-bank-indicators") + (D(1) + (T("/1/0/value") + (NIL + tail))))
  }

  function DerivationBytes(tail: Bytes): (b: Bytes)
    ensures |b| == 242 + |tail|
  {
    [0x89] + (D(2) + (NIL + (D(3) + (D(4) + ([0x81] + (T("parse:integer") + ([0x81]
      + (T("mapping:world-bank-statistics@0.1") + (D(12) + (D(5) + (T("twirx-compiler@0.1") + tail)))))))))))
  }

  function EpistemicBytes(l: Lane, tail: Bytes): (b: Bytes)
    ensures |b| == (if l.Attested? then 69 else 77) + |tail|
  {
    [0x86] + (T(LaneName(l)) + (T("deterministic") + (T(MappingName(l)) + (ConfidenceBytes(l)
      + (T("official_public_api") + (T("stale") + tail))))))
  }

  function ConfidenceBytes(l: Lane): Bytes {
    if l.Attested? then NIL else [0x1a, 0x00, 0x0c, 0x35, 0x00]
  }

  function LifecycleBytes(tail: Bytes): (b: Bytes)
    ensures |b| == 10 + |tail|
  {
    [0x82] + (T("current") + (NIL + tail))
  }

  /** The document of the corpus. */
  function Vector(l: Lane): (b: Bytes)
    ensures |b| == if l.Attested? then 631 else 639
  {
    [0x8e] + (T("tw.semantic-packet/0.1") + (T("measurement") + SubjectBytes(PredicateBytes(ObjectBytes(ContextBytes(
      TimeBytes(SourceBytes(VectorTail(l)))))))))
  }

  function VectorTail(l: Lane): (b: Bytes)
    ensures |b| == if l.Attested? then 346 else 354
  {
    DerivationBytes(EpistemicBytes(l, LifecycleBytes(T("public_versioned") + (T("public") + [0x80]))))
  }

  // ----- part by part --------------------------------------------------------

  lemma OneText(s: string, tail: Bytes)
    requires |s| < 256
    ensures PutTextSet([Ascii(s)], tail) == [0x81] + (T(s) + tail)
  {
    hide PutText, T;
    TextIs(s, tail);
    ArrayIs(1, T(s) + tail);
    var one: seq<Text> := [Ascii(s)];
    assert one[1..] == [];
    assert PutItems(PutText, one, tail) == PutText(one[0], PutItems(PutText, [], tail));
  }

  lemma SubjectIs(tail: Bytes)
    ensures PutSubject(SubjectOf(), tail) == SubjectBytes(tail)
  {
    hide PutText, T, PutTextSet, PutArray, Ascii;
    OneText("geo:CL", tail);
    var t := [0x81] + (T("geo:CL") + tail);
    TextIs("world-bank:country/CHL", t);
    ArrayIs(2, T("world-bank:country/CHL") + t);
  }

  lemma PredicateIs(tail: Bytes)
    ensures PutPredicate(PredicateOf(), tail) == PredicateBytes(tail)
  {
    hide PutText, T, PutArray, Ascii;
    TextIs("statistics:populationTotal", tail);
    var t := T("statistics:populationTotal") + tail;
    TextIs("SP.POP.TOTL", t);
    ArrayIs(2, T("SP.POP.TOTL") + t);
  }

  lemma ValueIs(tail: Bytes)
    ensures PutTypedValue(Population(), tail) == ValueBytes(tail)
  {
    hide PutText, T, PutArray, PutNil, NIL, Ascii;
    NilIs(tail);
    TextIs("unit:person", NIL + tail);
    var t := T("unit:person") + (NIL + tail);
    TextIs("19629590", t);
    TextIs("integer", T("19629590") + t);
    ArrayIs(4, T("integer") + (T("19629590") + t));
  }

  lemma ObjectIs(tail: Bytes)
    ensures PutObject(ObjectOf(), tail) == ObjectBytes(tail)
  {
    hide PutText, T, PutArray, PutTypedValue, ValueBytes, Population, Ascii;
    ValueIs(tail);
    TextIs("en", ValueBytes(tail));
    var t := T("en") + ValueBytes(tail);
    TextIs("application/json", t);
    var u := T("application/json") + t;
    TextIs("19629590", u);
    TextIs("resolved", T("19629590") + u);
    ArrayIs(5, T("resolved") + (T("19629590") + u));
  }

  lemma ContextIs(tail: Bytes)
    ensures PutContext(ContextOf(), tail) == ContextBytes(tail)
  {
    hide PutText, T, PutArray, PutNil, NIL, Ascii;
    NilIs(tail);
    NilIs(NIL + tail);
    TextIs("geo:CL", NIL + (NIL + tail));
    var t := T("geo:CL") + (NIL + (NIL + tail));
    ArrayIs(0, t);
    ArrayIs(4, [0x80] + t);
  }

  lemma TimeIs(tail: Bytes)
    ensures PutTime(TimeOf(), tail) == TimeBytes(tail)
  {
    hide PutText, T, PutArray, PutNil, NIL, Ascii;
    NilIs(tail);
    NilIs(NIL + tail);
    NilIs(NIL + (NIL + tail));
    NilIs(NIL + (NIL + (NIL + tail)));
    var t := NIL + (NIL + (NIL + (NIL + tail)));
    TextIs("2026-08-11T00:00:00Z", t);
    ArrayIs(5, T("2026-08-11T00:00:00Z") + t);
  }

  lemma SourceIs(tail: Bytes)
    ensures PutSource(SourceOf(), tail) == SourceBytes(tail)
  {
    hide PutText, T, PutArray, PutNil, NIL, PutDigest, D, Same, Ascii;
    NilIs(tail);
    TextIs("/1/0/value", NIL + tail);
    var t := T("/1/0/value") + (NIL + tail);
    DigestIs(1, t);
    TextIs("world-bank-indicators", D(1) + t);
    ArrayIs(4, T("world-bank-indicators") + (D(1) + t));
  }

  lemma DerivationIs(tail: Bytes)
    ensures PutDerivation(DerivationOf(), tail) == DerivationBytes(tail)
  {
    hide PutText, T, PutArray, PutNil, NIL, PutDigest, D, Same, PutTextSet, ZeroDigest, Ascii;
    TextIs("twirx-compiler@0.1", tail);
    var t := T("twirx-compiler@0.1") + tail;
    DigestIs(5, t);
    DigestIs(12, D(5) + t);
    OneText("mapping:world-bank-statistics@0.1", D(12) + (D(5) + t));
    var u := [0x81] + (T("mapping:world-bank-statistics@0.1") + (D(12) + (D(5) + t)));
    OneText("parse:integer", u);
    var v := [0x81] + (T("parse:integer") + u);
    DigestIs(4, v);
    DigestIs(3, D(4) + v);
    NilIs(D(3) + (D(4) + v));
    DigestIs(2, NIL + (D(3) + (D(4) + v)));
    ArrayIs(9, D(2) + (NIL + (D(3) + (D(4) + v))));
  }

  lemma ConfidenceIs(l: Lane, tail: Bytes)
    ensures PutOptionalUint(EpistemicOf(l).confidenceMillionths, tail) == ConfidenceBytes(l) + tail
  {
    hide Ascii;
    assert PutBigEndian(800_000, 4) == [0x00, 0x0c, 0x35, 0x00] by {
      assert PutBigEndian(12, 2) == [0, 12];
    }
  }

  lemma EpistemicIs(l: Lane, tail: Bytes)
    ensures PutEpistemic(EpistemicOf(l), tail) == EpistemicBytes(l, tail)
  {
    ConfidenceIs(l, T("official_public_api") + (T("stale") + tail));
    hide PutText, T, PutArray, PutOptionalUint, ConfidenceBytes, Ascii;
    TextIs("stale", tail);
    TextIs("official_public_api", T("stale") + tail);
    var t := ConfidenceBytes(l) + (T("official_public_api") + (T("stale") + tail));
    TextIs(MappingName(l), t);
    var u := T(MappingName(l)) + t;
    TextIs("deterministic", u);
    TextIs(LaneName(l), T("deterministic") + u);
    ArrayIs(6, T(LaneName(l)) + (T("deterministic") + u));
  }

  lemma LifecycleIs(tail: Bytes)
    ensures PutLifecycle(LifecycleOf(), tail) == LifecycleBytes(tail)
  {
    hide PutText, T, PutArray, PutNil, NIL, ZeroDigest, Ascii;
    NilIs(tail);
    TextIs("current", NIL + tail);
    ArrayIs(2, T("current") + (NIL + tail));
  }

  /** The encoder writes the document of the corpus. */
  lemma PacketIs(l: Lane)
    ensures PutPacket(PacketOf(l), []) == Vector(l)
  {
    hide PutText, T, PutArray, Ascii;
    hide PutSubject, PutPredicate, PutObject, PutContext, PutTime, PutSource, PutDerivation, PutEpistemic, PutLifecycle;
    hide SubjectOf, PredicateOf, ObjectOf, ContextOf, TimeOf, SourceOf, DerivationOf, EpistemicOf, LifecycleOf;
    hide SubjectBytes, PredicateBytes, ObjectBytes, ContextBytes, TimeBytes, SourceBytes, DerivationBytes, EpistemicBytes;
    hide LifecycleBytes;
    ArrayIs(0, []);
    assert [0x80] + [] == [0x80];
    TextIs("public", [0x80]);
    TextIs("public_versioned", T("public") + [0x80]);
    var t1 := T("public_versioned") + (T("public") + [0x80]);
    LifecycleIs(t1);
    EpistemicIs(l, LifecycleBytes(t1));
    var t2 := EpistemicBytes(l, LifecycleBytes(t1));
    DerivationIs(t2);
    SourceIs(DerivationBytes(t2));
    TimeIs(SourceBytes(DerivationBytes(t2)));
    var t3 := TimeBytes(SourceBytes(DerivationBytes(t2)));
    ContextIs(t3);
    ObjectIs(ContextBytes(t3));
    PredicateIs(ObjectBytes(ContextBytes(t3)));
    SubjectIs(PredicateBytes(ObjectBytes(ContextBytes(t3))));
    var t4 := SubjectBytes(PredicateBytes(ObjectBytes(ContextBytes(t3))));
    TextIs("measurement", t4);
    TextIs("tw.semantic-packet/0.1", T("measurement") + t4);
    ArrayIs(14, T("tw.semantic-packet/0.1") + (T("measurement") + t4));
  }

  // ----- the packet is valid -------------------------------------------------

  predicate Printable(s: string) {
    0 < |s| <= 255 && forall i :: 0 <= i < |s| ==> 32 < s[i] as int < 127
  }

  lemma PrintableIsText(s: string, max: nat)
    requires Printable(s) && |s| <= max
    ensures ValidText(Ascii(s), max, false) && ValidText(Ascii(s), max, true)
  {
    AsciiIsUtf8(Ascii(s));
  }

  lemma PrintableIsIdentifier(s: string)
    requires Printable(s)
    ensures ValidIdentifier(Ascii(s))
  {
    PrintableIsText(s, MAX_IDENTIFIER);
  }

  lemma Chosen(allowed: seq<string>, i: nat)
    requires i < |allowed| && |allowed[i]| <= 255
    ensures OneOf(Ascii(allowed[i]), allowed)
  {
  }

  lemma SubjectValid()
    ensures ValidSubject(SubjectOf()) && ValidPredicate(PredicateOf())
  {
    hide ValidIdentifier, Ascii;
    PrintableIsIdentifier("world-bank:country/CHL");
    PrintableIsIdentifier("geo:CL");
    PrintableIsIdentifier("SP.POP.TOTL");
    PrintableIsIdentifier("statistics:populationTotal");
  }

  lemma PopulationValid()
    ensures ValidTypedValue(Population())
  {
    NumberIsCanonical();
    hide ValidText, ValidIdentifier, CanonicalInteger;
    PrintableIsIdentifier("unit:person");
    PrintableIsText("19629590", MAX_LEXICAL);
    Chosen(ValueKinds(), 1);
    Distinct();
  }

  lemma NumberIsCanonical()
    ensures CanonicalInteger(Ascii("19629590"))
  {
    assert Ascii("19629590")[0] == 49;
  }

  lemma Distinct()
    ensures Ascii("integer") !in {Ascii("boolean"), Ascii("decimal"), Ascii("date"), Ascii("datetime"), Ascii("duration"),
                                  Ascii("uri"), Ascii("identifier")}
  {
    assert |Ascii("integer")| == 7 && |Ascii("boolean")| == 7 && |Ascii("decimal")| == 7 && |Ascii("date")| == 4;
    assert |Ascii("datetime")| == 8 && |Ascii("duration")| == 8 && |Ascii("uri")| == 3 && |Ascii("identifier")| == 10;
    assert Ascii("integer")[0] == 105 && Ascii("boolean")[0] == 98 && Ascii("decimal")[0] == 100;
  }

  lemma ObjectValid()
    ensures ValidObject(ObjectOf())
  {
    LanguageValid();
    PopulationValid();
    hide ValidText, ValidTypedValue, LanguageTag, Population;
    PrintableIsText("19629590", MAX_LEXICAL);
    PrintableIsText("application/json", MAX_SHORT_TEXT);
    Chosen(Statuses(), 0);
  }

  lemma LanguageValid()
    ensures LanguageTag(Ascii("en"))
  {
  }

  lemma ContextValid()
    ensures ValidContext(ContextOf()) && ValidTime(TimeOf()) && ValidSource(SourceOf())
  {
    TimeTextValid();
    hide ValidText, ValidIdentifier, ValidUTCSecond;
    PrintableIsIdentifier("geo:CL");
    PrintableIsIdentifier("world-bank-indicators");
    PrintableIsText("/1/0/value", MAX_LOCATOR);
  }

  lemma TimeTextValid()
    ensures ValidUTCSecond(Ascii("2026-08-11T00:00:00Z"))
  {
    var m := Instants.Moment(2026, 8, 11, 0, 0, 0);
    MidnightIs();
    hide ValidUTCSecond, Ascii, Instants.Written;
    Instants.WrittenIsValid(m);
  }

  lemma MidnightIs()
    ensures Ascii("2026-08-11T00:00:00Z") == Instants.Written(Instants.Moment(2026, 8, 11, 0, 0, 0))
  {
    MidnightBytes();
    assert Instants.Padded(20, 2) == [50, 48] && Instants.Padded(2026, 4) == [50, 48, 50, 54];
    assert Instants.Padded(8, 2) == [48, 56] && Instants.Padded(11, 2) == [49, 49] && Instants.Padded(0, 2) == [48, 48];
    hide Instants.Padded, Ascii;
  }

  lemma MidnightBytes()
    ensures Ascii("2026-08-11T00:00:00Z")
            == [50, 48, 50, 54] + [45] + [48, 56] + [45] + [49, 49] + [84] + [48, 48] + [58] + [48, 48] + [58] + [48, 48] + [90]
  {
  }

  lemma DerivationValid()
    ensures ValidDerivation(DerivationOf())
  {
    hide ValidIdentifier, Ascii;
    PrintableIsIdentifier("parse:integer");
    PrintableIsIdentifier("mapping:world-bank-statistics@0.1");
    PrintableIsIdentifier("twirx-compiler@0.1");
  }

  lemma EpistemicValid(l: Lane)
    ensures ValidEpistemic(EpistemicOf(l)) && ValidLane(PacketOf(l)) && ValidLifecycle(LifecycleOf())
  {
    hide ValidIdentifier, PacketOf, Ascii, ValidLane, ValidLifecycle, OneOf;
    LaneValid(l);
    LifecycleValid();
    PrintableIsIdentifier("official_public_api");
    Chosen(Lanes(), if l.Attested? then 2 else 1);
    Chosen(ExtractionStatuses(), 0);
    Chosen(MappingStatuses(), if l.Attested? then 2 else 1);
    Chosen(FreshnessStatuses(), 1);
  }

  lemma LifecycleValid()
    ensures ValidLifecycle(LifecycleOf())
  {
    hide OneOf;
    Chosen(LifecycleStates(), 0);
    assert |Ascii("current")| == 7 && |Ascii("superseded")| == 10;
  }

  lemma LaneValid(l: Lane)
    ensures ValidLane(PacketOf(l))
  {
    LaneNames();
    Parts(l);
    hide PacketOf, Ascii, Same;
  }

  lemma Parts(l: Lane)
    ensures var p := PacketOf(l);
            && p.predicate_ == PredicateOf() && p.derivation == DerivationOf() && p.epistemic == EpistemicOf(l)
  {
    hide PredicateOf, DerivationOf, EpistemicOf;
  }

  lemma LaneNames()
    ensures Ascii("observed_native") != Ascii("attested_semantic") && Ascii("observed_native") != Ascii("provisional_semantic")
    ensures Ascii("attested_semantic") != Ascii("provisional_semantic")
  {
    assert |Ascii("observed_native")| == 15 && |Ascii("attested_semantic")| == 17 && |Ascii("provisional_semantic")| == 20;
  }

  lemma MappingNames()
    ensures Ascii("current") != Ascii("superseded")
  {
    assert |Ascii("current")| == 7 && |Ascii("superseded")| == 10;
  }

  lemma EnumsValid()
    ensures OneOf(Ascii("tw.semantic-packet/0.1"), Versions()) && OneOf(Ascii("measurement"), Kinds())
    ensures OneOf(Ascii("public_versioned"), Retentions()) && OneOf(Ascii("public"), Disclosures())
  {
    hide OneOf, Ascii;
    Chosen(Versions(), 0);
    Chosen(Kinds(), 6);
    Chosen(Retentions(), 1);
    Chosen(Disclosures(), 0);
  }

  lemma PacketValid(l: Lane)
    ensures ValidPacket(PacketOf(l))
  {
    hide OneOf, Ascii, Versions, Kinds, Retentions, Disclosures;
    EnumsValid();
    hide ValidSubject, ValidPredicate, ValidObject, ValidContext, ValidTime, ValidSource, ValidDerivation;
    hide ValidEpistemic, ValidLane, ValidLifecycle;
    hide SubjectOf, PredicateOf, ObjectOf, ContextOf, TimeOf, SourceOf, DerivationOf, EpistemicOf, LifecycleOf;
    SubjectValid();
    ObjectValid();
    ContextValid();
    DerivationValid();
    EpistemicValid(l);
  }

  /** The codec is that of the corpus: it writes the packet as the document there, and reads the
    * document back as the packet. */
  lemma CorpusPacket(l: Lane)
    ensures Marshal(PacketOf(l)) == Success(Vector(l)) && Unmarshal(Vector(l)) == Success(PacketOf(l))
  {
    hide Vector, PacketOf, ValidPacket, PutPacket;
    PacketIs(l);
    PacketValid(l);
    hide Unmarshal;
    PacketRoundTrip(PacketOf(l));
  }
}
