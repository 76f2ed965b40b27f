/** The observation envelope: a fixed array of eleven canonical CBOR values
    (internal/observation/observation.go). */
module Observations {
  import opened Wrappers
  import opened ByteStrings
  import opened Cbor
  import opened Lexical
  import opened Documents
  import opened Spools

  const FORMAT_VERSION: uint64 := 1
  const MAX_ENVELOPE_BYTES: nat := 0x1_0000
  const MAX_URL_BYTES: uint64 := 8192
  const MAX_MEDIA_TYPE_BYTES: uint64 := 256
  const MAX_RETRIEVED_AT_BYTES: uint64 := 30
  const MAX_ID_BYTES: uint64 := 256
  const MAX_BODY_BYTES: nat := 0x20_0000
  const MAX_JSON_VIEW_BYTES: nat := 0x2_0000
  const MAX_BODY_REFERENCE_BYTES: nat := 128

  /** Whether a text is a canonical RFC 3339 UTC time. */
  type TimeCheck = Bytes -> bool

  datatype Envelope = Envelope(
    version: uint64, requestURL: Text, finalURL: Text, httpMethod: Text, status: uint64, mediaType: Text,
    retrievedAt: Text, bodySHA256: Digest, bodySize: uint64, policyID: Text, observerID: Text)

  predicate ValidEnvelope(e: Envelope, canonical: TimeCheck) {
    && e.version == FORMAT_VERSION && e.httpMethod == Ascii("GET") && 100 <= e.status <= 599
    && ValidText(e.requestURL, MAX_URL_BYTES, false) && ValidText(e.finalURL, MAX_URL_BYTES, false)
    && ValidText(e.mediaType, MAX_MEDIA_TYPE_BYTES, false)
    && ValidText(e.retrievedAt, MAX_RETRIEVED_AT_BYTES, false) && canonical(e.retrievedAt)
    && ValidText(e.policyID, MAX_ID_BYTES, false) && ValidText(e.observerID, MAX_ID_BYTES, false)
    && e.bodySize <= MAX_BODY_BYTES
  }

  function PutEnvelope(e: Envelope, tail: Bytes): Bytes {
    PutArray(11, PutUint(e.version, PutText(e.requestURL, PutText(e.finalURL, PutText(e.httpMethod,
      PutUint(e.status, PutEnvelopeTail(e, tail)))))))
  }

  function PutEnvelopeTail(e: Envelope, tail: Bytes): Bytes {
    PutText(e.mediaType, PutText(e.retrievedAt, PutDigest(e.bodySHA256,
      PutUint(e.bodySize, PutText(e.policyID, PutText(e.observerID, tail))))))
  }

  function ReadEnvelope(d: Bytes): (r: Parsed<Envelope>)
    ensures r.Read? ==> d == PutEnvelope(r.value, r.rest)
  {
    var (_, d0) :- ReadFixed(d, 11);
    var (version, d1) :- ReadUint(d0);
    var (request, d2) :- ReadText(d1, MAX_URL_BYTES);
    var (final, d3) :- ReadText(d2, MAX_URL_BYTES);
    var (httpMethod, d4) :- ReadText(d3, 3);
    var (status, d5) :- ReadUint(d4);
    var (media, d6) :- ReadText(d5, MAX_MEDIA_TYPE_BYTES);
    var (retrieved, d7) :- ReadText(d6, MAX_RETRIEVED_AT_BYTES);
    var (digest, d8) :- ReadDigest(d7);
    var (size, d9) :- ReadUint(d8);
    var (policy, d10) :- ReadText(d9, MAX_ID_BYTES);
    var (observer, d11) :- ReadText(d10, MAX_ID_BYTES);
    Read(Envelope(version, request, final, httpMethod, status, media, retrieved, digest, size, policy, observer), d11)
  }

  function MarshalEnvelope(e: Envelope): Bytes {
    PutEnvelope(e, [])
  }

  function UnmarshalEnvelope(d: Bytes, canonical: TimeCheck): (r: Result<Envelope, CodecError>) {
    if |d| == 0 || |d| > MAX_ENVELOPE_BYTES then Failure(LengthLimit)
    else
      var p := ReadEnvelope(d);
      if p.Bad? then Failure(p.error)
      else if p.rest != [] then Failure(TrailingBytes)
      else if !ValidEnvelope(p.value, canonical) then Failure(Invalid)
      else Success(p.value)
  }

  lemma EnvelopeTailRoundTrip(e: Envelope, tail: Bytes)
    requires |e.httpMethod| <= 3 && ValidUtf8(e.httpMethod)
    requires |e.requestURL| <= MAX_URL_BYTES && ValidUtf8(e.requestURL)
    requires |e.finalURL| <= MAX_URL_BYTES && ValidUtf8(e.finalURL)
    requires |e.mediaType| <= MAX_MEDIA_TYPE_BYTES && ValidUtf8(e.mediaType)
    requires |e.retrievedAt| <= MAX_RETRIEVED_AT_BYTES && ValidUtf8(e.retrievedAt)
    requires |e.policyID| <= MAX_ID_BYTES && ValidUtf8(e.policyID)
    requires |e.observerID| <= MAX_ID_BYTES && ValidUtf8(e.observerID)
    ensures ReadEnvelope(PutEnvelope(e, tail)) == Read(e, tail)
  {
    hide ReadFixed, ReadText, ReadUint, ReadDigest, PutArray, PutText, PutUint, PutDigest, ValidUtf8;
    TextRoundTrip(e.observerID, MAX_ID_BYTES, tail);
    var t10 := PutText(e.observerID, tail);
    TextRoundTrip(e.policyID, MAX_ID_BYTES, t10);
    var t9 := PutText(e.policyID, t10);
    UintRoundTrip(e.bodySize, t9);
    var t8 := PutUint(e.bodySize, t9);
    DigestRoundTrip(e.bodySHA256, t8);
    var t7 := PutDigest(e.bodySHA256, t8);
    TextRoundTrip(e.retrievedAt, MAX_RETRIEVED_AT_BYTES, t7);
    var t6 := PutText(e.retrievedAt, t7);
    TextRoundTrip(e.mediaType, MAX_MEDIA_TYPE_BYTES, t6);
    var t5 := PutText(e.mediaType, t6);
    UintRoundTrip(e.status, t5);
    var t4 := PutUint(e.status, t5);
    TextRoundTrip(e.httpMethod, 3, t4);
    var t3 := PutText(e.httpMethod, t4);
    TextRoundTrip(e.finalURL, MAX_URL_BYTES, t3);
    var t2 := PutText(e.finalURL, t3);
    TextRoundTrip(e.requestURL, MAX_URL_BYTES, t2);
    var t1 := PutText(e.requestURL, t2);
    UintRoundTrip(e.version, t1);
    FixedRoundTrip(11, PutUint(e.version, t1));
  }

  /** A valid envelope within the size bound reads back from its encoding. */
  lemma EnvelopeRoundTrip(e: Envelope, canonical: TimeCheck)
    requires ValidEnvelope(e, canonical) && |MarshalEnvelope(e)| <= MAX_ENVELOPE_BYTES
    ensures UnmarshalEnvelope(MarshalEnvelope(e), canonical) == Success(e)
  {
    hide ReadEnvelope, PutEnvelope;
    AsciiIsUtf8(e.httpMethod);
    EnvelopeTailRoundTrip(e, []);
    NotEmpty(e);
  }

  lemma NotEmpty(e: Envelope)
    ensures |MarshalEnvelope(e)| > 0
  {
    hide PutUint;
  }
}
