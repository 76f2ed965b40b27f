/** The Semantic Packet document and its codec (internal/dataplane/packet.go). */
module Packets {
  // One section per nested array: validity, encoding, reader, round trip, and the encoder and
  // decoder steps.

  import opened Wrappers
  import opened ByteStrings
  import opened Cbor
  import opened Lexical
  import opened Documents

  datatype Subject = Subject(native: Text, canonicalCandidates: Slice<Text>)

  datatype Predicate = Predicate(native: Text, semantic: OptionalText)

  datatype Object = Object(
    nativeStatus: Text, nativeLexical: Text, mediaType: OptionalText, language: OptionalText, typed: Option<TypedValue>)

  datatype Dimension = Dimension(key: Text, value: TypedValue)

  datatype Context = Context(
    dimensions: Slice<Dimension>, jurisdiction: OptionalText, language: OptionalText, scope: OptionalText)

  datatype Time = Time(
    observedAt: Text, assertedAt: OptionalText, validFrom: OptionalText, validUntil: OptionalText,
    sourceModified: OptionalText)

  datatype Source = Source(
    originID: Text, representationDigest: Digest, locator: Text, nativeSchemaRef: OptionalText)

  datatype Derivation = Derivation(
    observationDigest: Digest, transportDigest: OptionalDigest, adapterDigest: Digest, extractionPlanDigest: Digest,
    transformationIDs: Slice<Text>, mappingIDs: Slice<Text>, semanticClosureDigest: OptionalDigest,
    compilerContractDigest: Digest, compilerVersion: Text)

  datatype Epistemic = Epistemic(
    lane: Text, extractionStatus: Text, mappingStatus: Text, confidenceMillionths: Option<uint64>,
    authorityClass: Text, freshnessStatus: Text)

  datatype Lifecycle = Lifecycle(state: Text, supersedesDigest: OptionalDigest)

  datatype Packet = Packet(
    version: Text, kind: Text, subject: Subject, predicate_: Predicate, object_: Object, context: Context,
    time: Time, source: Source, derivation: Derivation, epistemic: Epistemic, lifecycle: Lifecycle,
    retention: Text, disclosure: Text)

  // ----- subject -------------------------------------------------------------

  predicate ValidSubject(s: Subject) {
    ValidIdentifier(s.native) && ValidSortedTexts(s.canonicalCandidates, 32)
  }

  function PutSubject(s: Subject, tail: Bytes): Bytes {
    PutArray(2, PutText(s.native, PutTextSet(s.canonicalCandidates, tail)))
  }

  function ReadSubject(d: Bytes): (r: Parsed<Subject>)
    ensures r.Read? ==> d == PutSubject(r.value, r.rest)
  {
    var (_, d0) :- ReadFixed(d, 2);
    var (native, d1) :- ReadText(d0, MAX_IDENTIFIER);
    var (candidates, d2) :- ReadTextSet(d1, 32, 0);
    Read(Subject(native, candidates), d2)
  }

  lemma SubjectRoundTrip(s: Subject, tail: Bytes)
    requires ValidSubject(s)
    ensures ReadSubject(PutSubject(s, tail)) == Read(s, tail)
  {
    hide ReadFixed, ReadText, ReadTextSet, PutArray, PutText, PutTextSet;
    TextSetRoundTrip(s.canonicalCandidates, 32, tail);
    var t := PutTextSet(s.canonicalCandidates, tail);
    TextRoundTrip(s.native, MAX_IDENTIFIER, t);
    FixedRoundTrip(2, PutText(s.native, t));
  }

  method EncodeSubject(enc: Encoder, s: Subject)
    modifies enc
    ensures forall t: Bytes :: enc.buf + t == old(enc.buf) + PutSubject(s, t)
  {
    hide PutArray, PutText, PutTextSet;
    enc.Array(2);
    enc.Text(s.native);
    EncodeTexts(enc, s.canonicalCandidates);
  }

  method DecodeSubject(dec: Decoder) returns (r: Result<Subject, CodecError>)
    requires dec.Valid()
    modifies dec`off
    ensures dec.Valid() && Follows(r, ReadSubject(old(dec.Rest())), dec.Rest())
  {
    hide ReadFixed, ReadText, ReadTextSet;
    var _ :- DecodeFixed(dec, 2);
    var native :- dec.Text(MAX_IDENTIFIER);
    var candidates :- DecodeTextSet(dec, 32, 0);
    r := Success(Subject(native, candidates));
  }

  // ----- predicate -----------------------------------------------------------

  predicate ValidPredicate(p: Predicate) {
    ValidIdentifier(p.native) && ValidOptionalIdentifier(p.semantic)
  }

  function PutPredicate(p: Predicate, tail: Bytes): Bytes {
    PutArray(2, PutText(p.native, PutOptionalText(p.semantic, tail)))
  }

  function ReadPredicate(d: Bytes): (r: Parsed<Predicate>)
    ensures r.Read? ==> d == PutPredicate(r.value, r.rest)
  {
    var (_, d0) :- ReadFixed(d, 2);
    var (native, d1) :- ReadText(d0, MAX_IDENTIFIER);
    var (semantic, d2) :- ReadOptionalText(d1, MAX_IDENTIFIER);
    Read(Predicate(native, semantic), d2)
  }

  lemma PredicateRoundTrip(p: Predicate, tail: Bytes)
    requires ValidPredicate(p)
    ensures ReadPredicate(PutPredicate(p, tail)) == Read(p, tail)
  {
    hide ReadFixed, ReadText, ReadOptionalText, PutArray, PutText, PutOptionalText;
    OptionalTextRoundTrip(p.semantic, MAX_IDENTIFIER, tail);
    var t := PutOptionalText(p.semantic, tail);
    TextRoundTrip(p.native, MAX_IDENTIFIER, t);
    FixedRoundTrip(2, PutText(p.native, t));
  }

  method EncodePredicate(enc: Encoder, p: Predicate)
    modifies enc
    ensures forall t: Bytes :: enc.buf + t == old(enc.buf) + PutPredicate(p, t)
  {
    hide PutArray, PutText, PutOptionalText;
    enc.Array(2);
    enc.Text(p.native);
    EncodeOptionalText(enc, p.semantic);
  }

  method DecodePredicate(dec: Decoder) returns (r: Result<Predicate, CodecError>)
    requires dec.Valid()
    modifies dec`off
    ensures dec.Valid() && Follows(r, ReadPredicate(old(dec.Rest())), dec.Rest())
  {
    hide ReadFixed, ReadText, ReadOptionalText;
    var _ :- DecodeFixed(dec, 2);
    var native :- dec.Text(MAX_IDENTIFIER);
    var semantic :- DecodeOptionalText(dec, MAX_IDENTIFIER);
    r := Success(Predicate(native, semantic));
  }

  // ----- object --------------------------------------------------------------

  function Statuses(): seq<string> {
    ["resolved", "unknown", "not_observed", "not_provided", "not_applicable", "withheld", "redacted", "unresolved",
     "contradictory", "invalid", "confirmed_absent"]
  }

  predicate ValidObject(o: Object) {
    && OneOf(o.nativeStatus, Statuses())
    && (if o.nativeStatus == Ascii("resolved") then ValidText(o.nativeLexical, MAX_LEXICAL, true)
        else o.nativeLexical == [] && o.typed.None?)
    && (o.typed.Some? ==> ValidTypedValue(o.typed.value))
    && (if o.mediaType.present then ValidText(o.mediaType.value, MAX_SHORT_TEXT, false) else o.mediaType.value == [])
    && ValidLanguage(o.language)
  }

  function PutOptionalTyped(v: Option<TypedValue>, tail: Bytes): Bytes {
    if v.None? then PutNil(tail) else PutTypedValue(v.value, tail)
  }

  function PutObject(o: Object, tail: Bytes): Bytes {
    PutArray(5, PutText(o.nativeStatus, PutText(o.nativeLexical,
      PutOptionalText(o.mediaType, PutOptionalText(o.language, PutOptionalTyped(o.typed, tail))))))
  }

  function ReadOptionalTyped(d: Bytes): (r: Parsed<Option<TypedValue>>)
    ensures r.Read? ==> d == PutOptionalTyped(r.value, r.rest)
  {
    var (absent, rest) :- ReadNil(d);
    if absent then Read(None, rest)
    else
      var (v, after) :- ReadTypedValue(rest);
      Read(Some(v), after)
  }

  function ReadObject(d: Bytes): (r: Parsed<Object>)
    ensures r.Read? ==> d == PutObject(r.value, r.rest)
  {
    var (_, d0) :- ReadFixed(d, 5);
    var (status, d1) :- ReadText(d0, MAX_IDENTIFIER);
    var (lexical, d2) :- ReadText(d1, MAX_LEXICAL);
    var (mediaType, d3) :- ReadOptionalText(d2, MAX_SHORT_TEXT);
    var (language, d4) :- ReadOptionalText(d3, 63);
    var (typed, d5) :- ReadOptionalTyped(d4);
    Read(Object(status, lexical, mediaType, language, typed), d5)
  }

  lemma OptionalTypedRoundTrip(v: Option<TypedValue>, tail: Bytes)
    requires v.Some? ==> ValidTypedValue(v.value)
    ensures ReadOptionalTyped(PutOptionalTyped(v, tail)) == Read(v, tail)
  {
    hide PutTypedValue, ReadTypedValue, ValidTypedValue;
    if v.Some? { TypedValueRoundTrip(v.value, tail); }
    assert PutNil(tail)[1..] == tail;
  }

  lemma ObjectRoundTrip(o: Object, tail: Bytes)
    requires ValidObject(o)
    ensures ReadObject(PutObject(o, tail)) == Read(o, tail)
  {
    hide ReadFixed, ReadText, ReadOptionalText, ReadOptionalTyped, ValidTypedValue;
    hide PutArray, PutText, PutOptionalText, PutOptionalTyped;
    OptionalTypedRoundTrip(o.typed, tail);
    var t4 := PutOptionalTyped(o.typed, tail);
    LanguageRoundTrip(o.language, t4);
    var t3 := PutOptionalText(o.language, t4);
    OptionalTextRoundTrip(o.mediaType, MAX_SHORT_TEXT, t3);
    var t2 := PutOptionalText(o.mediaType, t3);
    TextRoundTrip(o.nativeLexical, MAX_LEXICAL, t2);
    var t1 := PutText(o.nativeLexical, t2);
    EnumRoundTrip(o.nativeStatus, Statuses(), t1);
    FixedRoundTrip(5, PutText(o.nativeStatus, t1));
  }

  method EncodeObject(enc: Encoder, o: Object)
    modifies enc
    ensures forall t: Bytes :: enc.buf + t == old(enc.buf) + PutObject(o, t)
  {
    hide PutArray, PutText, PutOptionalText, PutNil, PutTypedValue;
    enc.Array(5);
    enc.Text(o.nativeStatus);
    enc.Text(o.nativeLexical);
    EncodeOptionalText(enc, o.mediaType);
    EncodeOptionalText(enc, o.language);
    if o.typed.None? {
      enc.Nil();
    } else {
      EncodeTypedValue(enc, o.typed.value);
    }
  }

  method DecodeObject(dec: Decoder) returns (r: Result<Object, CodecError>)
    requires dec.Valid()
    modifies dec`off
    ensures dec.Valid() && Follows(r, ReadObject(old(dec.Rest())), dec.Rest())
  {
    hide ReadFixed, ReadText, ReadOptionalText, ReadTypedValue;
    var _ :- DecodeFixed(dec, 5);
    var status :- dec.Text(MAX_IDENTIFIER);
    var lexical :- dec.Text(MAX_LEXICAL);
    var mediaType :- DecodeOptionalText(dec, MAX_SHORT_TEXT);
    var language :- DecodeOptionalText(dec, 63);
    var absent :- dec.TryNil();
    if absent {
      return Success(Object(status, lexical, mediaType, language, None));
    }
    var typed :- DecodeTypedValue(dec);
    r := Success(Object(status, lexical, mediaType, language, Some(typed)));
  }

  // ----- context -------------------------------------------------------------

  predicate ValidContext(c: Context) {
    && |c.dimensions| <= 32
    && (forall x :: x in c.dimensions ==> ValidIdentifier(x.key) && ValidTypedValue(x.value))
    && (forall i :: 0 < i < |c.dimensions| ==> Less(c.dimensions[i - 1].key, c.dimensions[i].key))
    && ValidOptionalIdentifier(c.jurisdiction) && ValidLanguage(c.language) && ValidOptionalIdentifier(c.scope)
  }

  function PutDimension(x: Dimension, tail: Bytes): Bytes {
    PutArray(2, PutText(x.key, PutTypedValue(x.value, tail)))
  }

  function PutDimensions(xs: Slice<Dimension>, tail: Bytes): Bytes {
    PutArray(|xs|, PutItems(PutDimension, xs, tail))
  }

  function PutContext(c: Context, tail: Bytes): Bytes {
    PutArray(4, PutDimensions(c.dimensions,
      PutOptionalText(c.jurisdiction, PutOptionalText(c.language, PutOptionalText(c.scope, tail)))))
  }

  function ReadDimension(d: Bytes): (r: Parsed<Dimension>)
    ensures r.Read? ==> d == PutDimension(r.value, r.rest)
  {
    var (_, d0) :- ReadFixed(d, 2);
    var (key, d1) :- ReadText(d0, MAX_IDENTIFIER);
    var (value, d2) :- ReadTypedValue(d1);
    Read(Dimension(key, value), d2)
  }

  function ReadDimensions(d: Bytes): (r: Parsed<Slice<Dimension>>)
    ensures r.Read? ==> d == PutDimensions(r.value, r.rest)
  {
    var (n, d0) :- ReadCount(d, 0, 32);
    var r := ReadItems(ReadDimension, d0, n);
    if r.Bad? then r
    else
      ItemsCanonical(PutDimension, ReadDimension, d0, n);
      Read(r.value, r.rest)
  }

  function ReadContext(d: Bytes): (r: Parsed<Context>)
    ensures r.Read? ==> d == PutContext(r.value, r.rest)
  {
    var (_, d0) :- ReadFixed(d, 4);
    var (dimensions, d1) :- ReadDimensions(d0);
    var (jurisdiction, d2) :- ReadOptionalText(d1, MAX_IDENTIFIER);
    var (language, d3) :- ReadOptionalText(d2, 63);
    var (scope, d4) :- ReadOptionalText(d3, MAX_IDENTIFIER);
    Read(Context(dimensions, jurisdiction, language, scope), d4)
  }

  lemma DimensionRoundTrip(x: Dimension, tail: Bytes)
    requires ValidIdentifier(x.key) && ValidTypedValue(x.value)
    ensures ReadDimension(PutDimension(x, tail)) == Read(x, tail)
  {
    hide ReadFixed, ReadText, ReadTypedValue, ValidTypedValue, PutArray, PutText, PutTypedValue;
    TypedValueRoundTrip(x.value, tail);
    var t := PutTypedValue(x.value, tail);
    TextRoundTrip(x.key, MAX_IDENTIFIER, t);
    FixedRoundTrip(2, PutText(x.key, t));
  }

  lemma DimensionsRoundTrip(xs: Slice<Dimension>, tail: Bytes)
    requires |xs| <= 32 && forall x :: x in xs ==> ValidIdentifier(x.key) && ValidTypedValue(x.value)
    ensures ReadDimensions(PutDimensions(xs, tail)) == Read(xs, tail)
  {
    hide ReadDimension, PutDimension, ValidTypedValue, ValidIdentifier;
    ArrayRoundTrip(|xs|, PutItems(PutDimension, xs, tail));
    forall x, t: Bytes | x in xs ensures ReadDimension(PutDimension(x, t)) == Read(x, t) {
      DimensionRoundTrip(x, t);
    }
    ItemsRoundTrip(PutDimension, ReadDimension, xs, tail);
  }

  lemma ContextRoundTrip(c: Context, tail: Bytes)
    requires ValidContext(c)
    ensures ReadContext(PutContext(c, tail)) == Read(c, tail)
  {
    hide ReadFixed, ReadDimensions, ReadOptionalText, ValidTypedValue, PutArray, PutDimensions, PutOptionalText;
    OptionalTextRoundTrip(c.scope, MAX_IDENTIFIER, tail);
    var t3 := PutOptionalText(c.scope, tail);
    LanguageRoundTrip(c.language, t3);
    var t2 := PutOptionalText(c.language, t3);
    OptionalTextRoundTrip(c.jurisdiction, MAX_IDENTIFIER, t2);
    var t1 := PutOptionalText(c.jurisdiction, t2);
    DimensionsRoundTrip(c.dimensions, t1);
    FixedRoundTrip(4, PutDimensions(c.dimensions, t1));
  }

  method EncodeDimension(enc: Encoder, x: Dimension)
    modifies enc
    ensures forall t: Bytes :: enc.buf + t == old(enc.buf) + PutDimension(x, t)
  {
    hide PutArray, PutText, PutTypedValue;
    enc.Array(2);
    enc.Text(x.key);
    EncodeTypedValue(enc, x.value);
  }

  method EncodeDimensions(enc: Encoder, xs: Slice<Dimension>)
    modifies enc
    ensures forall t: Bytes :: enc.buf + t == old(enc.buf) + PutDimensions(xs, t)
  {
    hide PutArray, PutDimension;
    enc.Array(|xs|);
    for i := 0 to |xs|
      invariant forall t: Bytes :: enc.buf + PutItems(PutDimension, xs[i..], t) == old(enc.buf) + PutDimensions(xs, t)
    {
      label before:
      EncodeDimension(enc, xs[i]);
      forall t: Bytes ensures enc.buf + PutItems(PutDimension, xs[i + 1..], t) == old(enc.buf) + PutDimensions(xs, t) {
        PutItemsStep(PutDimension, xs, i, t);
        assert old@before(enc.buf) + PutItems(PutDimension, xs[i..], t) == old(enc.buf) + PutDimensions(xs, t);
      }
    }
    forall t: Bytes ensures enc.buf + t == old(enc.buf) + PutDimensions(xs, t) {
      assert PutItems(PutDimension, xs[|xs|..], t) == t;
    }
  }

  method EncodeContext(enc: Encoder, c: Context)
    modifies enc
    ensures forall t: Bytes :: enc.buf + t == old(enc.buf) + PutContext(c, t)
  {
    hide PutArray, PutDimensions, PutOptionalText;
    enc.Array(4);
    EncodeDimensions(enc, c.dimensions);
    EncodeOptionalText(enc, c.jurisdiction);
    EncodeOptionalText(enc, c.language);
    EncodeOptionalText(enc, c.scope);
  }

  method DecodeDimension(dec: Decoder) returns (r: Result<Dimension, CodecError>)
    requires dec.Valid()
    modifies dec`off
    ensures dec.Valid() && Follows(r, ReadDimension(old(dec.Rest())), dec.Rest())
  {
    hide ReadFixed, ReadText, ReadTypedValue;
    var _ :- DecodeFixed(dec, 2);
    var key :- dec.Text(MAX_IDENTIFIER);
    var value :- DecodeTypedValue(dec);
    r := Success(Dimension(key, value));
  }

  method DecodeDimensions(dec: Decoder) returns (r: Result<Slice<Dimension>, CodecError>)
    requires dec.Valid()
    modifies dec`off
    ensures dec.Valid() && Follows(r, ReadDimensions(old(dec.Rest())), dec.Rest())
  {
    hide ReadArray, ReadDimension, ReadItems, Prepend;
    var count := dec.Array();
    if count.Failure? || count.value > 32 {
      return Failure(Invalid);
    }
    var n, values := count.value, [];
    ghost var all := ReadItems(ReadDimension, dec.Rest(), n);
    PrependNothing([], dec.Rest(), ReadDimension);
    for i := 0 to n
      invariant dec.Valid() && |values| == i
      invariant all == Prepend(values, ReadItems(ReadDimension, dec.Rest(), n - i))
    {
      ReadItemsStep(ReadDimension, values, dec.Rest(), n - i - 1);
      var x :- DecodeDimension(dec);
      values := values + [x];
    }
    PrependNothing(values, dec.Rest(), ReadDimension);
    r := Success(values);
  }

  method DecodeContext(dec: Decoder) returns (r: Result<Context, CodecError>)
    requires dec.Valid()
    modifies dec`off
    ensures dec.Valid() && Follows(r, ReadContext(old(dec.Rest())), dec.Rest())
  {
    hide ReadFixed, ReadDimensions, ReadOptionalText;
    var _ :- DecodeFixed(dec, 4);
    var dimensions :- DecodeDimensions(dec);
    var jurisdiction :- DecodeOptionalText(dec, MAX_IDENTIFIER);
    var language :- DecodeOptionalText(dec, 63);
    var scope :- DecodeOptionalText(dec, MAX_IDENTIFIER);
    r := Success(Context(dimensions, jurisdiction, language, scope));
  }

  // ----- time ----------------------------------------------------------------

  predicate NotAfter(from: OptionalText, until: OptionalText) {
    from.present && until.present ==> !Less(until.value, from.value)
  }

  predicate ValidTime(t: Time) {
    && ValidUTCSecond(t.observedAt)
    && ValidOptionalUTCSecond(t.assertedAt) && ValidOptionalUTCSecond(t.validFrom)
    && ValidOptionalUTCSecond(t.validUntil) && ValidOptionalUTCSecond(t.sourceModified)
    && NotAfter(t.validFrom, t.validUntil)
  }

  function PutTime(t: Time, tail: Bytes): Bytes {
    PutArray(5, PutText(t.observedAt, PutOptionalText(t.assertedAt,
      PutOptionalText(t.validFrom, PutOptionalText(t.validUntil, PutOptionalText(t.sourceModified, tail))))))
  }

  function ReadTime(d: Bytes): (r: Parsed<Time>)
    ensures r.Read? ==> d == PutTime(r.value, r.rest)
  {
    var (_, d0) :- ReadFixed(d, 5);
    var (observed, d1) :- ReadText(d0, 20);
    var (asserted, d2) :- ReadOptionalText(d1, 20);
    var (from, d3) :- ReadOptionalText(d2, 20);
    var (until, d4) :- ReadOptionalText(d3, 20);
    var (modified, d5) :- ReadOptionalText(d4, 20);
    Read(Time(observed, asserted, from, until, modified), d5)
  }

  lemma TimeRoundTrip(t: Time, tail: Bytes)
    requires ValidTime(t)
    ensures ReadTime(PutTime(t, tail)) == Read(t, tail)
  {
    hide ReadFixed, ReadText, ReadOptionalText, ValidUTCSecond, PutArray, PutText, PutOptionalText;
    OptionalTimeRoundTrip(t.sourceModified, tail);
    var t4 := PutOptionalText(t.sourceModified, tail);
    OptionalTimeRoundTrip(t.validUntil, t4);
    var t3 := PutOptionalText(t.validUntil, t4);
    OptionalTimeRoundTrip(t.validFrom, t3);
    var t2 := PutOptionalText(t.validFrom, t3);
    OptionalTimeRoundTrip(t.assertedAt, t2);
    var t1 := PutOptionalText(t.assertedAt, t2);
    UTCSecondFits(t.observedAt);
    TextRoundTrip(t.observedAt, 20, t1);
    FixedRoundTrip(5, PutText(t.observedAt, t1));
  }

  method EncodeTime(enc: Encoder, t: Time)
    modifies enc
    ensures forall u: Bytes :: enc.buf + u == old(enc.buf) + PutTime(t, u)
  {
    hide PutArray, PutText, PutOptionalText;
    enc.Array(5);
    enc.Text(t.observedAt);
    EncodeOptionalText(enc, t.assertedAt);
    EncodeOptionalText(enc, t.validFrom);
    EncodeOptionalText(enc, t.validUntil);
    EncodeOptionalText(enc, t.sourceModified);
  }

  method DecodeTime(dec: Decoder) returns (r: Result<Time, CodecError>)
    requires dec.Valid()
    modifies dec`off
    ensures dec.Valid() && Follows(r, ReadTime(old(dec.Rest())), dec.Rest())
  {
    hide ReadFixed, ReadText, ReadOptionalText;
    var _ :- DecodeFixed(dec, 5);
    var observed :- dec.Text(20);
    var asserted :- DecodeOptionalText(dec, 20);
    var from :- DecodeOptionalText(dec, 20);
    var until :- DecodeOptionalText(dec, 20);
    var modified :- DecodeOptionalText(dec, 20);
    r := Success(Time(observed, asserted, from, until, modified));
  }

  // ----- source --------------------------------------------------------------

  predicate ValidSource(s: Source) {
    ValidIdentifier(s.originID) && ValidText(s.locator, MAX_LOCATOR, false) && ValidOptionalIdentifier(s.nativeSchemaRef)
  }

  function PutSource(s: Source, tail: Bytes): Bytes {
    PutArray(4, PutText(s.originID, PutDigest(s.representationDigest,
      PutText(s.locator, PutOptionalText(s.nativeSchemaRef, tail)))))
  }

  function ReadSource(d: Bytes): (r: Parsed<Source>)
    ensures r.Read? ==> d == PutSource(r.value, r.rest)
  {
    var (_, d0) :- ReadFixed(d, 4);
    var (origin, d1) :- ReadText(d0, MAX_IDENTIFIER);
    var (digest, d2) :- ReadDigest(d1);
    var (locator, d3) :- ReadText(d2, MAX_LOCATOR);
    var (schema, d4) :- ReadOptionalText(d3, MAX_IDENTIFIER);
    Read(Source(origin, digest, locator, schema), d4)
  }

  lemma SourceRoundTrip(s: Source, tail: Bytes)
    requires ValidSource(s)
    ensures ReadSource(PutSource(s, tail)) == Read(s, tail)
  {
    hide ReadFixed, ReadText, ReadOptionalText, ReadDigest, PutArray, PutText, PutOptionalText, PutDigest;
    OptionalTextRoundTrip(s.nativeSchemaRef, MAX_IDENTIFIER, tail);
    var t3 := PutOptionalText(s.nativeSchemaRef, tail);
    TextRoundTrip(s.locator, MAX_LOCATOR, t3);
    var t2 := PutText(s.locator, t3);
    DigestRoundTrip(s.representationDigest, t2);
    var t1 := PutDigest(s.representationDigest, t2);
    TextRoundTrip(s.originID, MAX_IDENTIFIER, t1);
    FixedRoundTrip(4, PutText(s.originID, t1));
  }

  method EncodeSource(enc: Encoder, s: Source)
    modifies enc
    ensures forall t: Bytes :: enc.buf + t == old(enc.buf) + PutSource(s, t)
  {
    hide PutArray, PutText, PutOptionalText, PutDigest;
    enc.Array(4);
    enc.Text(s.originID);
    EncodeDigest(enc, s.representationDigest);
    enc.Text(s.locator);
    EncodeOptionalText(enc, s.nativeSchemaRef);
  }

  method DecodeSource(dec: Decoder) returns (r: Result<Source, CodecError>)
    requires dec.Valid()
    modifies dec`off
    ensures dec.Valid() && Follows(r, ReadSource(old(dec.Rest())), dec.Rest())
  {
    hide ReadFixed, ReadText, ReadOptionalText, ReadDigest;
    var _ :- DecodeFixed(dec, 4);
    var origin :- dec.Text(MAX_IDENTIFIER);
    var digest :- DecodeDigest(dec);
    var locator :- dec.Text(MAX_LOCATOR);
    var schema :- DecodeOptionalText(dec, MAX_IDENTIFIER);
    r := Success(Source(origin, digest, locator, schema));
  }

  // ----- derivation ----------------------------------------------------------

  predicate NoRepetition(values: seq<Text>) {
    forall i, j :: 0 <= i < j < |values| ==> values[i] != values[j]
  }

  predicate ValidDerivation(v: Derivation) {
    && ValidOptionalDigest(v.transportDigest)
    && |v.transformationIDs| <= 32
    && (forall id :: id in v.transformationIDs ==> ValidIdentifier(id))
    && NoRepetition(v.transformationIDs)
    && ValidSortedTexts(v.mappingIDs, 32)
    && ValidOptionalDigest(v.semanticClosureDigest)
    && ValidIdentifier(v.compilerVersion)
  }

  function PutDerivation(v: Derivation, tail: Bytes): Bytes {
    PutArray(9, PutDigest(v.observationDigest, PutOptionalDigest(v.transportDigest,
      PutDigest(v.adapterDigest, PutDigest(v.extractionPlanDigest, PutDerivationTail(v, tail))))))
  }

  function PutDerivationTail(v: Derivation, tail: Bytes): Bytes {
    PutTextSet(v.transformationIDs, PutTextSet(v.mappingIDs, PutOptionalDigest(v.semanticClosureDigest,
      PutDigest(v.compilerContractDigest, PutText(v.compilerVersion, tail)))))
  }

  /** The transformation list: counted and bounded, in execution order. */
  function ReadTransforms(d: Bytes): (r: Parsed<Slice<Text>>)
    ensures r.Read? ==> d == PutTextSet(r.value, r.rest)
  {
    var (n, d0) :- ReadCount(d, 0, 32);
    var (values, rest) :- ReadTexts(d0, n);
    Read(values, rest)
  }

  function ReadDerivation(d: Bytes): (r: Parsed<Derivation>)
    ensures r.Read? ==> d == PutDerivation(r.value, r.rest)
  {
    var (_, d0) :- ReadFixed(d, 9);
    var (observation, d1) :- ReadDigest(d0);
    var (transport, d2) :- ReadOptionalDigest(d1);
    var (adapter, d3) :- ReadDigest(d2);
    var (plan, d4) :- ReadDigest(d3);
    var (transforms, d5) :- ReadTransforms(d4);
    var (mappings, d6) :- ReadTextSet(d5, 32, 0);
    var (closure, d7) :- ReadOptionalDigest(d6);
    var (contract, d8) :- ReadDigest(d7);
    var (version, d9) :- ReadText(d8, MAX_IDENTIFIER);
    Read(Derivation(observation, transport, adapter, plan, transforms, mappings, closure, contract, version), d9)
  }

  lemma TransformsRoundTrip(values: Slice<Text>, tail: Bytes)
    requires |values| <= 32 && forall id :: id in values ==> ValidIdentifier(id)
    ensures ReadTransforms(PutTextSet(values, tail)) == Read(values, tail)
  {
    hide ReadText, PutText;
    ArrayRoundTrip(|values|, PutItems(PutText, values, tail));
    forall v, t: Bytes | v in values ensures ReadIdentifier(PutText(v, t)) == Read(v, t) {
      TextRoundTrip(v, MAX_IDENTIFIER, t);
    }
    ItemsRoundTrip(PutText, ReadIdentifier, values, tail);
  }

  lemma DerivationRoundTrip(v: Derivation, tail: Bytes)
    requires ValidDerivation(v)
    ensures ReadDerivation(PutDerivation(v, tail)) == Read(v, tail)
  {
    hide ReadFixed, ReadText, ReadDigest, ReadOptionalDigest, ReadTransforms, ReadTextSet;
    hide PutArray, PutText, PutDigest, PutOptionalDigest, PutTextSet, ValidIdentifier, NoRepetition;
    assert ValidIdentifier(v.compilerVersion);
    IdentifierRoundTrip(v.compilerVersion, tail);
    var t8 := PutText(v.compilerVersion, tail);
    DigestRoundTrip(v.compilerContractDigest, t8);
    var t7 := PutDigest(v.compilerContractDigest, t8);
    OptionalDigestRoundTrip(v.semanticClosureDigest, t7);
    var t6 := PutOptionalDigest(v.semanticClosureDigest, t7);
    TextSetRoundTrip(v.mappingIDs, 32, t6);
    var t5 := PutTextSet(v.mappingIDs, t6);
    TransformsRoundTrip(v.transformationIDs, t5);
    var t4 := PutTextSet(v.transformationIDs, t5);
    DigestRoundTrip(v.extractionPlanDigest, t4);
    var t3 := PutDigest(v.extractionPlanDigest, t4);
    DigestRoundTrip(v.adapterDigest, t3);
    var t2 := PutDigest(v.adapterDigest, t3);
    OptionalDigestRoundTrip(v.transportDigest, t2);
    var t1 := PutOptionalDigest(v.transportDigest, t2);
    DigestRoundTrip(v.observationDigest, t1);
    FixedRoundTrip(9, PutDigest(v.observationDigest, t1));
  }

  lemma IdentifierRoundTrip(v: Text, tail: Bytes)
    requires ValidIdentifier(v)
    ensures ReadText(PutText(v, tail), MAX_IDENTIFIER) == Read(v, tail)
  {
    TextRoundTrip(v, MAX_IDENTIFIER, tail);
  }

  method EncodeDerivation(enc: Encoder, v: Derivation)
    modifies enc
    ensures forall t: Bytes :: enc.buf + t == old(enc.buf) + PutDerivation(v, t)
  {
    hide PutArray, PutText, PutDigest, PutOptionalDigest, PutTextSet;
    enc.Array(9);
    EncodeDigest(enc, v.observationDigest);
    EncodeOptionalDigest(enc, v.transportDigest);
    EncodeDigest(enc, v.adapterDigest);
    EncodeDigest(enc, v.extractionPlanDigest);
    EncodeTexts(enc, v.transformationIDs);
    EncodeTexts(enc, v.mappingIDs);
    EncodeOptionalDigest(enc, v.semanticClosureDigest);
    EncodeDigest(enc, v.compilerContractDigest);
    enc.Text(v.compilerVersion);
  }

  method DecodeTransforms(dec: Decoder) returns (r: Result<Slice<Text>, CodecError>)
    requires dec.Valid()
    modifies dec`off
    ensures dec.Valid() && Follows(r, ReadTransforms(old(dec.Rest())), dec.Rest())
  {
    hide ReadArray, ReadText, ReadItems, Prepend;
    var count := dec.Array();
    if count.Failure? || count.value > 32 {
      return Failure(Invalid);
    }
    var n, values := count.value, [];
    ghost var all := ReadItems(ReadIdentifier, dec.Rest(), n);
    PrependNothing([], dec.Rest(), ReadIdentifier);
    for i := 0 to n
      invariant dec.Valid() && |values| == i
      invariant all == Prepend(values, ReadItems(ReadIdentifier, dec.Rest(), n - i))
    {
      ReadItemsStep(ReadIdentifier, values, dec.Rest(), n - i - 1);
      var v :- dec.Text(MAX_IDENTIFIER);
      values := values + [v];
    }
    PrependNothing(values, dec.Rest(), ReadIdentifier);
    r := Success(values);
  }

  method DecodeDerivation(dec: Decoder) returns (r: Result<Derivation, CodecError>)
    requires dec.Valid()
    modifies dec`off
    ensures dec.Valid() && Follows(r, ReadDerivation(old(dec.Rest())), dec.Rest())
  {
    hide ReadFixed, ReadText, ReadDigest, ReadOptionalDigest, ReadTransforms, ReadTextSet;
    hide PutArray, PutText, PutDigest, PutOptionalDigest, PutTextSet, PutDerivation;
    var _ :- DecodeFixed(dec, 9);
    var observation :- DecodeDigest(dec);
    var transport :- DecodeOptionalDigest(dec);
    var adapter :- DecodeDigest(dec);
    var plan :- DecodeDigest(dec);
    var transforms :- DecodeTransforms(dec);
    var mappings :- DecodeTextSet(dec, 32, 0);
    var closure :- DecodeOptionalDigest(dec);
    var contract :- DecodeDigest(dec);
    var version :- dec.Text(MAX_IDENTIFIER);
    r := Success(Derivation(observation, transport, adapter, plan, transforms, mappings, closure, contract, version));
  }

  // ----- epistemic state -----------------------------------------------------

  function Lanes(): seq<string> {
    ["observed_native", "provisional_semantic", "attested_semantic"]
  }

  function ExtractionStatuses(): seq<string> {
    ["deterministic", "publisher_attested"]
  }

  function MappingStatuses(): seq<string> {
    ["none", "candidate", "reviewed", "disputed", "revoked"]
  }

  function FreshnessStatuses(): seq<string> {
    ["current", "stale", "unknown"]
  }

  predicate ValidEpistemic(e: Epistemic) {
    && OneOf(e.lane, Lanes())
    && OneOf(e.extractionStatus, ExtractionStatuses())
    && OneOf(e.mappingStatus, MappingStatuses())
    && (e.confidenceMillionths.Some? ==> e.confidenceMillionths.value <= 1_000_000)
    && ValidIdentifier(e.authorityClass)
    && OneOf(e.freshnessStatus, FreshnessStatuses())
  }

  function PutOptionalUint(v: Option<uint64>, tail: Bytes): Bytes {
    if v.None? then PutNil(tail) else PutUint(v.value, tail)
  }

  function ReadOptionalUint(d: Bytes): (r: Parsed<Option<uint64>>)
    ensures r.Read? ==> d == PutOptionalUint(r.value, r.rest)
  {
    var (absent, rest) :- ReadNil(d);
    if absent then Read(None, rest)
    else
      var (v, after) :- ReadUint(rest);
      Read(Some(v), after)
  }

  lemma OptionalUintRoundTrip(v: Option<uint64>, tail: Bytes)
    ensures ReadOptionalUint(PutOptionalUint(v, tail)) == Read(v, tail)
  {
    hide PutUint, ReadUint;
    if v.Some? { UintRoundTrip(v.value, tail); }
    assert PutNil(tail)[1..] == tail;
  }

  function PutEpistemic(e: Epistemic, tail: Bytes): Bytes {
    PutArray(6, PutText(e.lane, PutText(e.extractionStatus, PutText(e.mappingStatus,
      PutOptionalUint(e.confidenceMillionths, PutText(e.authorityClass, PutText(e.freshnessStatus, tail)))))))
  }

  function ReadEpistemic(d: Bytes): (r: Parsed<Epistemic>)
    ensures r.Read? ==> d == PutEpistemic(r.value, r.rest)
  {
    var (_, d0) :- ReadFixed(d, 6);
    var (lane, d1) :- ReadText(d0, MAX_IDENTIFIER);
    var (extraction, d2) :- ReadText(d1, MAX_IDENTIFIER);
    var (mapping, d3) :- ReadText(d2, MAX_IDENTIFIER);
    var (confidence, d4) :- ReadOptionalUint(d3);
    var (authority, d5) :- ReadText(d4, MAX_IDENTIFIER);
    var (freshness, d6) :- ReadText(d5, MAX_IDENTIFIER);
    Read(Epistemic(lane, extraction, mapping, confidence, authority, freshness), d6)
  }

  lemma EpistemicRoundTrip(e: Epistemic, tail: Bytes)
    requires ValidEpistemic(e)
    ensures ReadEpistemic(PutEpistemic(e, tail)) == Read(e, tail)
  {
    hide ReadFixed, ReadText, ReadOptionalUint, PutArray, PutText, PutOptionalUint, OneOf, ValidIdentifier;
    EnumRoundTrip(e.freshnessStatus, FreshnessStatuses(), tail);
    var t5 := PutText(e.freshnessStatus, tail);
    IdentifierRoundTrip(e.authorityClass, t5);
    var t4 := PutText(e.authorityClass, t5);
    OptionalUintRoundTrip(e.confidenceMillionths, t4);
    var t3 := PutOptionalUint(e.confidenceMillionths, t4);
    EnumRoundTrip(e.mappingStatus, MappingStatuses(), t3);
    var t2 := PutText(e.mappingStatus, t3);
    EnumRoundTrip(e.extractionStatus, ExtractionStatuses(), t2);
    var t1 := PutText(e.extractionStatus, t2);
    EnumRoundTrip(e.lane, Lanes(), t1);
    FixedRoundTrip(6, PutText(e.lane, t1));
  }

  method EncodeEpistemic(enc: Encoder, e: Epistemic)
    modifies enc
    ensures forall t: Bytes :: enc.buf + t == old(enc.buf) + PutEpistemic(e, t)
  {
    hide PutArray, PutText, PutNil, PutUint;
    enc.Array(6);
    enc.Text(e.lane);
    enc.Text(e.extractionStatus);
    enc.Text(e.mappingStatus);
    if e.confidenceMillionths.None? {
      enc.Nil();
    } else {
      enc.Uint(e.confidenceMillionths.value);
    }
    enc.Text(e.authorityClass);
    enc.Text(e.freshnessStatus);
  }

  method DecodeOptionalUint(dec: Decoder) returns (r: Result<Option<uint64>, CodecError>)
    requires dec.Valid()
    modifies dec`off
    ensures dec.Valid() && Follows(r, ReadOptionalUint(old(dec.Rest())), dec.Rest())
  {
    hide ReadUint;
    var absent :- dec.TryNil();
    if absent {
      return Success(None);
    }
    var v :- dec.Uint();
    r := Success(Some(v));
  }

  method DecodeEpistemic(dec: Decoder) returns (r: Result<Epistemic, CodecError>)
    requires dec.Valid()
    modifies dec`off
    ensures dec.Valid() && Follows(r, ReadEpistemic(old(dec.Rest())), dec.Rest())
  {
    hide ReadFixed, ReadText, ReadOptionalUint;
    var _ :- DecodeFixed(dec, 6);
    var lane :- dec.Text(MAX_IDENTIFIER);
    var extraction :- dec.Text(MAX_IDENTIFIER);
    var mapping :- dec.Text(MAX_IDENTIFIER);
    var confidence :- DecodeOptionalUint(dec);
    var authority :- dec.Text(MAX_IDENTIFIER);
    var freshness :- dec.Text(MAX_IDENTIFIER);
    r := Success(Epistemic(lane, extraction, mapping, confidence, authority, freshness));
  }

  // ----- lifecycle -----------------------------------------------------------

  function LifecycleStates(): seq<string> {
    ["current", "superseded", "withdrawn", "stale", "retracted", "invalid"]
  }

  predicate ValidLifecycle(l: Lifecycle) {
    && OneOf(l.state, LifecycleStates())
    && ValidOptionalDigest(l.supersedesDigest)
    && (l.state == Ascii("superseded") ==> l.supersedesDigest.present)
    && (l.state == Ascii("current") ==> !l.supersedesDigest.present)
  }

  function PutLifecycle(l: Lifecycle, tail: Bytes): Bytes {
    PutArray(2, PutText(l.state, PutOptionalDigest(l.supersedesDigest, tail)))
  }

  function ReadLifecycle(d: Bytes): (r: Parsed<Lifecycle>)
    ensures r.Read? ==> d == PutLifecycle(r.value, r.rest)
  {
    var (_, d0) :- ReadFixed(d, 2);
    var (state, d1) :- ReadText(d0, MAX_IDENTIFIER);
    var (supersedes, d2) :- ReadOptionalDigest(d1);
    Read(Lifecycle(state, supersedes), d2)
  }

  lemma LifecycleRoundTrip(l: Lifecycle, tail: Bytes)
    requires ValidLifecycle(l)
    ensures ReadLifecycle(PutLifecycle(l, tail)) == Read(l, tail)
  {
    hide ReadFixed, ReadText, ReadOptionalDigest, PutArray, PutText, PutOptionalDigest, OneOf;
    OptionalDigestRoundTrip(l.supersedesDigest, tail);
    var t := PutOptionalDigest(l.supersedesDigest, tail);
    EnumRoundTrip(l.state, LifecycleStates(), t);
    FixedRoundTrip(2, PutText(l.state, t));
  }

  method EncodeLifecycle(enc: Encoder, l: Lifecycle)
    modifies enc
    ensures forall t: Bytes :: enc.buf + t == old(enc.buf) + PutLifecycle(l, t)
  {
    hide PutArray, PutText, PutOptionalDigest;
    enc.Array(2);
    enc.Text(l.state);
    EncodeOptionalDigest(enc, l.supersedesDigest);
  }

  method DecodeLifecycle(dec: Decoder) returns (r: Result<Lifecycle, CodecError>)
    requires dec.Valid()
    modifies dec`off
    ensures dec.Valid() && Follows(r, ReadLifecycle(old(dec.Rest())), dec.Rest())
  {
    hide ReadFixed, ReadText, ReadOptionalDigest;
    var _ :- DecodeFixed(dec, 2);
    var state :- dec.Text(MAX_IDENTIFIER);
    var supersedes :- DecodeOptionalDigest(dec);
    r := Success(Lifecycle(state, supersedes));
  }

  // ----- the packet ----------------------------------------------------------

  function Versions(): seq<string> {
    ["tw.semantic-packet/0.1"]
  }

  function Kinds(): seq<string> {
    ["claim", "state", "capability", "offer", "relationship", "event", "measurement", "document"]
  }

  function Retentions(): seq<string> {
    ["public_transient", "public_versioned", "public_archival"]
  }

  function Disclosures(): seq<string> {
    ["public"]
  }

  /** What each trust lane demands of the mapping evidence. */
  predicate ValidLane(p: Packet) {
    var semantic, mapped := p.predicate_.semantic.present, |p.derivation.mappingIDs| > 0;
    var closed, e := p.derivation.semanticClosureDigest.present, p.epistemic;
    && (e.lane == Ascii("observed_native") ==>
          !semantic && !mapped && !closed && e.mappingStatus == Ascii("none") && e.confidenceMillionths.None?)
    && (e.lane == Ascii("provisional_semantic") ==>
          semantic && mapped && closed && e.mappingStatus == Ascii("candidate"))
    && (e.lane == Ascii("attested_semantic") ==>
          semantic && mapped && closed && e.mappingStatus == Ascii("reviewed") && e.confidenceMillionths.None?)
    && (e.confidenceMillionths.Some? ==> e.mappingStatus == Ascii("candidate"))
  }

  predicate ValidPacket(p: Packet) {
    && OneOf(p.version, Versions()) && OneOf(p.kind, Kinds())
    && ValidSubject(p.subject) && ValidPredicate(p.predicate_) && ValidObject(p.object_) && ValidContext(p.context)
    && ValidTime(p.time) && ValidSource(p.source) && ValidDerivation(p.derivation)
    && ValidEpistemic(p.epistemic) && ValidLane(p) && ValidLifecycle(p.lifecycle)
    && OneOf(p.retention, Retentions()) && OneOf(p.disclosure, Disclosures())
  }

  function PutPacket(p: Packet, tail: Bytes): Bytes {
    PutArray(14, PutText(p.version, PutText(p.kind, PutSubject(p.subject, PutPredicate(p.predicate_,
      PutObject(p.object_, PutContext(p.context, PutPacketTail(p, tail))))))))
  }

  function PutPacketTail(p: Packet, tail: Bytes): Bytes {
    PutTime(p.time, PutSource(p.source, PutDerivation(p.derivation, PutEpistemic(p.epistemic,
      PutLifecycle(p.lifecycle, PutText(p.retention, PutText(p.disclosure, PutArray(0, tail))))))))
  }

  /** The fields after the context, joined to those already read. */
  function ReadPacketTail(
    d: Bytes, version: Text, kind: Text, subject: Subject, predicate_: Predicate, object_: Object, context: Context)
    : (r: Parsed<Packet>)
    ensures r.Read? ==>
              && d == PutPacketTail(r.value, r.rest)
              && r.value.version == version && r.value.kind == kind && r.value.subject == subject
              && r.value.predicate_ == predicate_ && r.value.object_ == object_ && r.value.context == context
  {
    var (time, d1) :- ReadTime(d);
    var (source, d2) :- ReadSource(d1);
    var (derivation, d3) :- ReadDerivation(d2);
    var (epistemic, d4) :- ReadEpistemic(d3);
    var (lifecycle, d5) :- ReadLifecycle(d4);
    var (retention, d6) :- ReadText(d5, MAX_IDENTIFIER);
    var (disclosure, d7) :- ReadText(d6, MAX_IDENTIFIER);
    var (_, d8) :- ReadFixed(d7, 0);
    Read(Packet(version, kind, subject, predicate_, object_, context, time, source, derivation, epistemic,
                lifecycle, retention, disclosure), d8)
  }

  function ReadPacket(d: Bytes): (r: Parsed<Packet>)
    ensures r.Read? ==> d == PutPacket(r.value, r.rest)
  {
    var (_, d0) :- ReadFixed(d, 14);
    var (version, d1) :- ReadText(d0, MAX_IDENTIFIER);
    var (kind, d2) :- ReadText(d1, MAX_IDENTIFIER);
    var (subject, d3) :- ReadSubject(d2);
    var (predicate_, d4) :- ReadPredicate(d3);
    var (object_, d5) :- ReadObject(d4);
    var (context, d6) :- ReadContext(d5);
    ReadPacketTail(d6, version, kind, subject, predicate_, object_, context)
  }

  /** The canonical bytes of a packet: absent for an invalid or oversized one. */
  function Marshal(p: Packet): Result<Bytes, CodecError> {
    if ValidPacket(p) && |PutPacket(p, [])| <= MAX_DOCUMENT_BYTES then Success(PutPacket(p, [])) else Failure(Invalid)
  }

  function Unmarshal(data: Bytes): Result<Packet, CodecError> {
    if data == [] || |data| > MAX_DOCUMENT_BYTES then Failure(Invalid)
    else
      var r := ReadPacket(data);
      if r.Bad? then Failure(r.error)
      else if r.rest != [] then Failure(TrailingBytes)
      else if !ValidPacket(r.value) then Failure(Invalid)
      else Success(r.value)
  }

  lemma ReadPacketTailRoundTrip(p: Packet, tail: Bytes)
    requires ValidPacket(p)
    ensures ReadPacketTail(PutPacketTail(p, tail), p.version, p.kind, p.subject, p.predicate_, p.object_, p.context)
         == Read(p, tail)
  {
    hide ReadFixed, ReadText, ReadTime, ReadSource, ReadDerivation, ReadEpistemic, ReadLifecycle;
    hide PutArray, PutText, PutTime, PutSource, PutDerivation, PutEpistemic, PutLifecycle;
    hide OneOf, ValidLane, ValidSubject, ValidPredicate, ValidObject, ValidContext;
    hide ValidTime, ValidSource, ValidDerivation, ValidEpistemic, ValidLifecycle;
    FixedRoundTrip(0, tail);
    var t7 := PutArray(0, tail);
    EnumRoundTrip(p.disclosure, Disclosures(), t7);
    var t6 := PutText(p.disclosure, t7);
    EnumRoundTrip(p.retention, Retentions(), t6);
    var t5 := PutText(p.retention, t6);
    LifecycleRoundTrip(p.lifecycle, t5);
    var t4 := PutLifecycle(p.lifecycle, t5);
    EpistemicRoundTrip(p.epistemic, t4);
    var t3 := PutEpistemic(p.epistemic, t4);
    DerivationRoundTrip(p.derivation, t3);
    var t2 := PutDerivation(p.derivation, t3);
    SourceRoundTrip(p.source, t2);
    var t1 := PutSource(p.source, t2);
    TimeRoundTrip(p.time, t1);
  }

  lemma ReadPacketRoundTrip(p: Packet, tail: Bytes)
    requires ValidPacket(p)
    ensures ReadPacket(PutPacket(p, tail)) == Read(p, tail)
  {
    hide ReadFixed, ReadText, ReadSubject, ReadPredicate, ReadObject, ReadContext, ReadPacketTail;
    hide PutArray, PutText, PutSubject, PutPredicate, PutObject, PutContext, PutPacketTail;
    hide OneOf, ValidLane, ValidSubject, ValidPredicate, ValidObject, ValidContext;
    hide ValidTime, ValidSource, ValidDerivation, ValidEpistemic, ValidLifecycle;
    ReadPacketTailRoundTrip(p, tail);
    var t6 := PutPacketTail(p, tail);
    ContextRoundTrip(p.context, t6);
    var t5 := PutContext(p.context, t6);
    ObjectRoundTrip(p.object_, t5);
    var t4 := PutObject(p.object_, t5);
    PredicateRoundTrip(p.predicate_, t4);
    var t3 := PutPredicate(p.predicate_, t4);
    SubjectRoundTrip(p.subject, t3);
    var t2 := PutSubject(p.subject, t3);
    EnumRoundTrip(p.kind, Kinds(), t2);
    var t1 := PutText(p.kind, t2);
    EnumRoundTrip(p.version, Versions(), t1);
    FixedRoundTrip(14, PutText(p.version, t1));
  }

  /** Every packet the encoder writes, the decoder reads back unchanged. */
  lemma PacketRoundTrip(p: Packet)
    requires Marshal(p).Success?
    ensures Unmarshal(Marshal(p).value) == Success(p)
  {
    hide ReadPacket, ValidPacket;
    ReadPacketRoundTrip(p, []);
    FixedRoundTrip(14, []);
    assert PutPacket(p, []) != [];
  }

  /** Every byte string the decoder accepts is the encoder's only encoding of
      the packet it stands for. */
  lemma PacketCanonical(data: Bytes)
    requires Unmarshal(data).Success?
    ensures Marshal(Unmarshal(data).value) == Success(data)
  {
    hide PutPacket, ValidPacket;
  }

  /** Identity by content: two packets with the same bytes are the same packet,
      and the accepted byte strings are exactly the encodings of packets. */
  lemma PacketBijection(data: Bytes)
    ensures Unmarshal(data).Success? <==> exists p :: Marshal(p) == Success(data)
    ensures forall p, q :: Marshal(p) == Success(data) && Marshal(q) == Success(data) ==> p == q
  {
    hide Marshal, Unmarshal;
    if Unmarshal(data).Success? { PacketCanonical(data); }
    forall p | Marshal(p) == Success(data) ensures Unmarshal(data) == Success(p) { PacketRoundTrip(p); }
  }

  method EncodePacketTail(enc: Encoder, p: Packet)
    modifies enc
    ensures forall t: Bytes :: enc.buf + t == old(enc.buf) + PutPacketTail(p, t)
  {
    hide PutArray, PutText, PutTime, PutSource, PutDerivation, PutEpistemic, PutLifecycle;
    EncodeTime(enc, p.time);
    EncodeSource(enc, p.source);
    EncodeDerivation(enc, p.derivation);
    EncodeEpistemic(enc, p.epistemic);
    EncodeLifecycle(enc, p.lifecycle);
    enc.Text(p.retention);
    enc.Text(p.disclosure);
    enc.Array(0);
  }

  method EncodePacket(enc: Encoder, p: Packet)
    modifies enc
    ensures forall t: Bytes :: enc.buf + t == old(enc.buf) + PutPacket(p, t)
  {
    hide PutArray, PutText, PutSubject, PutPredicate, PutObject, PutContext, PutPacketTail;
    enc.Array(14);
    enc.Text(p.version);
    enc.Text(p.kind);
    EncodeSubject(enc, p.subject);
    EncodePredicate(enc, p.predicate_);
    EncodeObject(enc, p.object_);
    EncodeContext(enc, p.context);
    EncodePacketTail(enc, p);
  }

  method MarshalPacket(p: Packet) returns (r: Result<Bytes, CodecError>)
    ensures r == Marshal(p)
  {
    hide PutPacket, ValidPacket;
    if !ValidPacket(p) {
      return Failure(Invalid);
    }
    var enc := new Encoder();
    EncodePacket(enc, p);
    var encoded := enc.Bytes();
    assert encoded == encoded + [] == [] + PutPacket(p, []) == PutPacket(p, []);
    if |encoded| > MAX_DOCUMENT_BYTES {
      return Failure(Invalid);
    }
    r := Success(encoded);
  }

  method DecodePacketTail(
    dec: Decoder, version: Text, kind: Text, subject: Subject, predicate_: Predicate, object_: Object, context: Context)
    returns (r: Result<Packet, CodecError>)
    requires dec.Valid()
    modifies dec`off
    ensures dec.Valid()
    ensures Follows(r, ReadPacketTail(old(dec.Rest()), version, kind, subject, predicate_, object_, context), dec.Rest())
  {
    hide ReadFixed, ReadText, ReadTime, ReadSource, ReadDerivation, ReadEpistemic, ReadLifecycle, PutPacketTail;
    hide PutArray, PutText, PutTime, PutSource, PutDerivation, PutEpistemic, PutLifecycle;
    var time :- DecodeTime(dec);
    var source :- DecodeSource(dec);
    var derivation :- DecodeDerivation(dec);
    var epistemic :- DecodeEpistemic(dec);
    var lifecycle :- DecodeLifecycle(dec);
    var retention :- dec.Text(MAX_IDENTIFIER);
    var disclosure :- dec.Text(MAX_IDENTIFIER);
    var _ :- DecodeFixed(dec, 0);
    r := Success(Packet(version, kind, subject, predicate_, object_, context, time, source, derivation, epistemic,
                        lifecycle, retention, disclosure));
  }

  method DecodePacket(dec: Decoder) returns (r: Result<Packet, CodecError>)
    requires dec.Valid()
    modifies dec`off
    ensures dec.Valid() && Follows(r, ReadPacket(old(dec.Rest())), dec.Rest())
  {
    hide ReadFixed, ReadText, ReadSubject, ReadPredicate, ReadObject, ReadContext, ReadPacketTail, PutPacket;
    var _ :- DecodeFixed(dec, 14);
    var version :- dec.Text(MAX_IDENTIFIER);
    var kind :- dec.Text(MAX_IDENTIFIER);
    var subject :- DecodeSubject(dec);
    var predicate_ :- DecodePredicate(dec);
    var object_ :- DecodeObject(dec);
    var context :- DecodeContext(dec);
    r := DecodePacketTail(dec, version, kind, subject, predicate_, object_, context);
  }

  method UnmarshalPacket(data: Bytes) returns (r: Result<Packet, CodecError>)
    ensures r == Unmarshal(data)
  {
    hide ReadPacket, ValidPacket, PutPacket;
    if |data| == 0 || |data| > MAX_DOCUMENT_BYTES {
      return Failure(Invalid);
    }
    var dec := new Decoder(data);
    var p :- DecodePacket(dec);
    if dec.Remaining() != 0 {
      return Failure(TrailingBytes);
    }
    if !ValidPacket(p) {
      return Failure(Invalid);
    }
    r := Success(p);
  }
}
