/** Optional, typed-value and set codecs shared by the canonical documents
    (internal/dataplane/common.go). */
module Documents {
  import opened Wrappers
  import opened ByteStrings
  import opened Cbor
  import opened Lexical
  import Durations

  const MAX_DOCUMENT_BYTES: nat := 0x40_0000

  type Digest = d: Bytes | |d| == 32 witness seq(32, _ => 0)

  function ZeroDigest(): Digest {
    PutBigEndian(0, 32)
  }

  datatype OptionalDigest = OptionalDigest(present: bool, value: Digest)

  datatype OptionalText = OptionalText(present: bool, value: Text)

  datatype TypedValue = TypedValue(kind: Text, lexical: Text, unit: OptionalText, currency: OptionalText)

  // ----- validity ------------------------------------------------------------

  predicate ValidOptionalDigest(v: OptionalDigest) {
    !v.present ==> v.value == ZeroDigest()
  }

  predicate ValidOptionalIdentifier(v: OptionalText) {
    if v.present then ValidIdentifier(v.value) else v.value == []
  }

  predicate ValidOptionalUTCSecond(v: OptionalText) {
    if v.present then ValidUTCSecond(v.value) else v.value == []
  }

  predicate ValidCurrency(v: OptionalText) {
    if v.present then CurrencyCode(v.value) else v.value == []
  }

  predicate ValidLanguage(v: OptionalText) {
    if v.present then LanguageTag(v.value) else v.value == []
  }

  predicate ValidSortedTexts(values: seq<Text>, maxCount: nat) {
    |values| <= maxCount && (forall v :: v in values ==> ValidIdentifier(v)) && StrictlySorted(values)
  }

  predicate ValidSortedDigests(values: seq<Digest>, maxCount: nat, minimum: nat) {
    minimum <= |values| <= maxCount && StrictlySorted(values)
  }

  function ValueKinds(): seq<string> {
    ["boolean", "integer", "decimal", "text", "date", "datetime", "duration", "uri", "identifier"]
  }

  predicate ValidLexical(kind: Text, lexical: Text) {
    && (kind == Ascii("boolean") ==> OneOf(lexical, ["true", "false"]))
    && (kind == Ascii("integer") ==> CanonicalInteger(lexical))
    && (kind == Ascii("decimal") ==> CanonicalDecimal(lexical))
    && (kind == Ascii("date") ==> ValidDate(lexical))
    && (kind == Ascii("datetime") ==> ValidUTCSecond(lexical))
    && (kind == Ascii("duration") ==> Durations.IsDuration(lexical))
    && (kind == Ascii("uri") ==> ValidAbsoluteURI(lexical))
    && (kind == Ascii("identifier") ==> ValidIdentifier(lexical))
  }

  predicate ValidTypedValue(v: TypedValue) {
    && OneOf(v.kind, ValueKinds())
    && ValidText(v.lexical, MAX_LEXICAL, false)
    && ValidOptionalIdentifier(v.unit)
    && ValidCurrency(v.currency)
    && ValidLexical(v.kind, v.lexical)
  }

  // ----- counted lists -------------------------------------------------------

  /** `values` one after the other, then `tail`. */
  function PutItems<T>(put: (T, Bytes) -> Bytes, values: seq<T>, tail: Bytes): Bytes {
    if values == [] then tail else put(values[0], PutItems(put, values[1..], tail))
  }

  function ReadItems<T>(read: Bytes -> Parsed<T>, d: Bytes, n: nat): (r: Parsed<seq<T>>)
    ensures r.Read? ==> |r.value| == n
    decreases n
  {
    if n == 0 then Read([], d)
    else
      var (v, rest) :- read(d);
      var (vs, after) :- ReadItems(read, rest, n - 1);
      Read([v] + vs, after)
  }

  function Prepend<T>(vs: seq<T>, p: Parsed<seq<T>>): Parsed<seq<T>> {
    if p.Bad? then p else Read(vs + p.value, p.rest)
  }

  /** One turn of a counting decode loop: `values` read so far, `k + 1` to go. */
  lemma ReadItemsStep<T>(read: Bytes -> Parsed<T>, values: seq<T>, d: Bytes, k: nat)
    ensures Prepend(values, ReadItems(read, d, k + 1)) ==
            var r := read(d);
            if r.Bad? then Bad(r.error) else Prepend(values + [r.value], ReadItems(read, r.rest, k))
  {
    var r := read(d);
    if r.Read? {
      var later := ReadItems(read, r.rest, k);
      if later.Read? { assert values + ([r.value] + later.value) == values + [r.value] + later.value; }
    }
  }

  lemma PrependNothing<T>(values: seq<T>, d: Bytes, read: Bytes -> Parsed<T>)
    ensures Prepend(values, ReadItems(read, d, 0)) == Read(values, d)
    ensures forall p: Parsed<seq<T>> :: Prepend([], p) == p
  {
    assert values + [] == values;
    forall p: Parsed<seq<T>> ensures Prepend([], p) == p {
      if p.Read? { assert [] + p.value == p.value; }
    }
  }

  lemma {:induction false} ItemsRoundTrip<T>(put: (T, Bytes) -> Bytes, read: Bytes -> Parsed<T>, values: seq<T>, tail: Bytes)
    requires forall v, t: Bytes :: v in values ==> read(put(v, t)) == Read(v, t)
    ensures ReadItems(read, PutItems(put, values, tail), |values|) == Read(values, tail)
  {
    if values != [] {
      ItemsRoundTrip(put, read, values[1..], tail);
      assert values[0] in values;
      assert values == [values[0]] + values[1..];
    }
  }

  lemma {:induction false} ItemsCanonical<T>(put: (T, Bytes) -> Bytes, read: Bytes -> Parsed<T>, d: Bytes, n: nat)
    requires forall e: Bytes :: read(e).Read? ==> e == put(read(e).value, read(e).rest)
    requires ReadItems(read, d, n).Read?
    ensures var r := ReadItems(read, d, n); d == PutItems(put, r.value, r.rest)
    decreases n
  {
    if n > 0 {
      var r := ReadItems(read, d, n);
      ItemsCanonical(put, read, read(d).rest, n - 1);
      assert r.value[1..] == ReadItems(read, read(d).rest, n - 1).value;
    }
  }

  /** One turn of an appending encode loop. */
  lemma PutItemsStep<T>(put: (T, Bytes) -> Bytes, values: seq<T>, i: nat, tail: Bytes)
    requires i < |values|
    ensures PutItems(put, values[i..], tail) == put(values[i], PutItems(put, values[i + 1..], tail))
  {
    assert values[i..][1..] == values[i + 1..];
  }

  // ----- encodings -----------------------------------------------------------

  function PutDigest(v: Digest, tail: Bytes): Bytes {
    PutBytestring(v, tail)
  }

  function PutOptionalDigest(v: OptionalDigest, tail: Bytes): Bytes {
    if v.present then PutDigest(v.value, tail) else PutNil(tail)
  }

  function PutOptionalText(v: OptionalText, tail: Bytes): Bytes {
    if v.present then PutText(v.value, tail) else PutNil(tail)
  }

  function PutTypedValue(v: TypedValue, tail: Bytes): Bytes {
    PutArray(4, PutText(v.kind, PutText(v.lexical, PutOptionalText(v.unit, PutOptionalText(v.currency, tail)))))
  }

  function PutTextSet(values: Slice<Text>, tail: Bytes): Bytes {
    PutArray(|values|, PutItems(PutText, values, tail))
  }

  function PutDigestSet(values: Slice<Digest>, tail: Bytes): Bytes {
    PutArray(|values|, PutItems(PutDigest, values, tail))
  }

  // ----- readers -------------------------------------------------------------

  /** An array of exactly `n` items. */
  function ReadFixed(d: Bytes, n: uint64): (r: Parsed<uint64>)
    ensures r.Read? ==> r.value == n && d == PutArray(n, r.rest)
  {
    var r := ReadArray(d);
    if r.Bad? || r.value != n then Bad(Invalid) else r
  }

  /** An array of `min` to `max` items. */
  function ReadCount(d: Bytes, min: nat, max: nat): (r: Parsed<uint64>)
    ensures r.Read? ==> min <= r.value <= max && d == PutArray(r.value, r.rest)
  {
    var r := ReadArray(d);
    if r.Bad? || r.value < min || r.value > max then Bad(Invalid) else r
  }

  function ReadDigest(d: Bytes): (r: Parsed<Digest>)
    ensures r.Read? ==> d == PutDigest(r.value, r.rest)
  {
    var r := ReadBytestring(d, 32);
    if r.Bad? || |r.value| != 32 then Bad(Invalid) else Read(r.value, r.rest)
  }

  function ReadOptionalDigest(d: Bytes): (r: Parsed<OptionalDigest>)
    ensures r.Read? ==> d == PutOptionalDigest(r.value, r.rest) && ValidOptionalDigest(r.value)
  {
    var (absent, rest) :- ReadNil(d);
    if absent then Read(OptionalDigest(false, ZeroDigest()), rest)
    else
      var (v, after) :- ReadDigest(rest);
      Read(OptionalDigest(true, v), after)
  }

  function ReadOptionalText(d: Bytes, max: uint64): (r: Parsed<OptionalText>)
    requires max <= MAX_INT
    ensures r.Read? ==> d == PutOptionalText(r.value, r.rest)
  {
    var (absent, rest) :- ReadNil(d);
    if absent then Read(OptionalText(false, []), rest)
    else
      var (v, after) :- ReadText(rest, max);
      Read(OptionalText(true, v), after)
  }

  function ReadTypedValue(d: Bytes): (r: Parsed<TypedValue>)
    ensures r.Read? ==> d == PutTypedValue(r.value, r.rest) && ValidTypedValue(r.value)
  {
    var (_, d0) :- ReadFixed(d, 4);
    var (kind, d1) :- ReadText(d0, MAX_IDENTIFIER);
    var (lexical, d2) :- ReadText(d1, MAX_LEXICAL);
    var (unit, d3) :- ReadOptionalText(d2, MAX_IDENTIFIER);
    var (currency, d4) :- ReadOptionalText(d3, 3);
    var v := TypedValue(kind, lexical, unit, currency);
    if ValidTypedValue(v) then Read(v, d4) else Bad(Invalid)
  }

  function ReadIdentifier(d: Bytes): (r: Parsed<Text>)
    ensures r.Read? ==> d == PutText(r.value, r.rest)
  {
    ReadText(d, MAX_IDENTIFIER)
  }

  function ReadTexts(d: Bytes, n: nat): (r: Parsed<seq<Text>>)
    ensures r.Read? ==> |r.value| == n && d == PutItems(PutText, r.value, r.rest)
  {
    var r := ReadItems(ReadIdentifier, d, n);
    if r.Read? then ItemsCanonical(PutText, ReadIdentifier, d, n); r else r
  }

  function ReadDigests(d: Bytes, n: nat): (r: Parsed<seq<Digest>>)
    ensures r.Read? ==> |r.value| == n && d == PutItems(PutDigest, r.value, r.rest)
  {
    var r := ReadItems(ReadDigest, d, n);
    if r.Read? then ItemsCanonical(PutDigest, ReadDigest, d, n); r else r
  }

  function ReadTextSet(d: Bytes, maxCount: nat, minCount: nat): (r: Parsed<Slice<Text>>)
    requires maxCount <= MAX_INT
    ensures r.Read? ==> d == PutTextSet(r.value, r.rest)
  {
    var (n, d0) :- ReadCount(d, minCount, maxCount);
    var (values, rest) :- ReadTexts(d0, n);
    if ValidSortedTexts(values, maxCount) then Read(values, rest) else Bad(Invalid)
  }

  function ReadDigestSet(d: Bytes, maxCount: nat, minCount: nat): (r: Parsed<Slice<Digest>>)
    requires maxCount <= MAX_INT
    ensures r.Read? ==> d == PutDigestSet(r.value, r.rest)
  {
    var (n, d0) :- ReadCount(d, minCount, maxCount);
    var (values, rest) :- ReadDigests(d0, n);
    if ValidSortedDigests(values, maxCount, minCount) then Read(values, rest) else Bad(Invalid)
  }

  // ----- round trips ---------------------------------------------------------

  lemma FixedRoundTrip(n: uint64, tail: Bytes)
    ensures ReadFixed(PutArray(n, tail), n) == Read(n, tail)
  {
    ArrayRoundTrip(n, tail);
  }

  lemma DigestRoundTrip(v: Digest, tail: Bytes)
    ensures ReadDigest(PutDigest(v, tail)) == Read(v, tail)
  {
    hide PutBytestring, ReadBytestring;
    BytestringRoundTrip(v, 32, tail);
  }

  /** A null is read as absence and nothing else is: a digest never starts like
      a null. */
  lemma OptionalDigestRoundTrip(v: OptionalDigest, tail: Bytes)
    requires ValidOptionalDigest(v)
    ensures ReadOptionalDigest(PutOptionalDigest(v, tail)) == Read(v, tail)
  {
    hide PutBytestring, ReadBytestring, ZeroDigest;
    BytestringRoundTrip(v.value, 32, tail);
    assert PutNil(tail)[1..] == tail;
  }

  lemma OptionalTextRoundTrip(v: OptionalText, max: uint64, tail: Bytes)
    requires max <= MAX_INT
    requires if v.present then |v.value| <= max && ValidUtf8(v.value) else v.value == []
    ensures ReadOptionalText(PutOptionalText(v, tail), max) == Read(v, tail)
  {
    hide PutText, ReadText;
    if v.present { TextRoundTrip(v.value, max, tail); }
    assert PutNil(tail)[1..] == tail;
  }

  lemma EnumRoundTrip(v: Text, allowed: seq<string>, tail: Bytes)
    requires OneOf(v, allowed) && forall i :: 0 <= i < |allowed| ==> |allowed[i]| <= 64
    ensures ReadText(PutText(v, tail), MAX_IDENTIFIER) == Read(v, tail)
  {
    EnumFits(v, allowed);
    TextRoundTrip(v, MAX_IDENTIFIER, tail);
  }

  lemma CurrencyRoundTrip(v: OptionalText, tail: Bytes)
    requires ValidCurrency(v)
    ensures ReadOptionalText(PutOptionalText(v, tail), 3) == Read(v, tail)
  {
    AsciiIsUtf8(v.value);
    OptionalTextRoundTrip(v, 3, tail);
  }

  lemma LanguageRoundTrip(v: OptionalText, tail: Bytes)
    requires ValidLanguage(v)
    ensures ReadOptionalText(PutOptionalText(v, tail), 63) == Read(v, tail)
  {
    AsciiIsUtf8(v.value);
    OptionalTextRoundTrip(v, 63, tail);
  }

  lemma OptionalTimeRoundTrip(v: OptionalText, tail: Bytes)
    requires ValidOptionalUTCSecond(v)
    ensures ReadOptionalText(PutOptionalText(v, tail), 20) == Read(v, tail)
  {
    if v.present { UTCSecondFits(v.value); }
    OptionalTextRoundTrip(v, 20, tail);
  }

  lemma TypedValueRoundTrip(v: TypedValue, tail: Bytes)
    requires ValidTypedValue(v)
    ensures ReadTypedValue(PutTypedValue(v, tail)) == Read(v, tail)
    ensures ReadNil(PutTypedValue(v, tail)) == Read(false, PutTypedValue(v, tail))
  {
    hide ValidLexical, ReadText, ReadOptionalText, PutText, PutOptionalText;
    CurrencyRoundTrip(v.currency, tail);
    var t3 := PutOptionalText(v.currency, tail);
    OptionalTextRoundTrip(v.unit, MAX_IDENTIFIER, t3);
    var t2 := PutOptionalText(v.unit, t3);
    TextRoundTrip(v.lexical, MAX_LEXICAL, t2);
    var t1 := PutText(v.lexical, t2);
    EnumRoundTrip(v.kind, ValueKinds(), t1);
    FixedRoundTrip(4, PutText(v.kind, t1));
  }

  lemma TextSetRoundTrip(values: Slice<Text>, maxCount: nat, tail: Bytes)
    requires ValidSortedTexts(values, maxCount) && maxCount <= MAX_INT
    ensures ReadTextSet(PutTextSet(values, tail), maxCount, 0) == Read(values, tail)
  {
    hide ReadText, PutText, ReadArray, PutArray;
    ArrayRoundTrip(|values|, PutItems(PutText, values, tail));
    forall v, t: Bytes | v in values ensures ReadIdentifier(PutText(v, t)) == Read(v, t) {
      TextRoundTrip(v, MAX_IDENTIFIER, t);
    }
    ItemsRoundTrip(PutText, ReadIdentifier, values, tail);
  }

  lemma DigestSetRoundTrip(values: Slice<Digest>, maxCount: nat, minCount: nat, tail: Bytes)
    requires ValidSortedDigests(values, maxCount, minCount) && maxCount <= MAX_INT
    ensures ReadDigestSet(PutDigestSet(values, tail), maxCount, minCount) == Read(values, tail)
  {
    hide ReadDigest, PutDigest, ReadArray, PutArray;
    ArrayRoundTrip(|values|, PutItems(PutDigest, values, tail));
    forall v, t: Bytes | v in values ensures ReadDigest(PutDigest(v, t)) == Read(v, t) {
      DigestRoundTrip(v, t);
    }
    ItemsRoundTrip(PutDigest, ReadDigest, values, tail);
  }

  // ----- the encoder's steps -------------------------------------------------

  method EncodeDigest(enc: Encoder, v: Digest)
    modifies enc
    ensures forall t: Bytes :: enc.buf + t == old(enc.buf) + PutDigest(v, t)
  {
    enc.Bytestring(v);
  }

  method EncodeOptionalDigest(enc: Encoder, v: OptionalDigest)
    modifies enc
    ensures forall t: Bytes :: enc.buf + t == old(enc.buf) + PutOptionalDigest(v, t)
  {
    if !v.present {
      enc.Nil();
      return;
    }
    EncodeDigest(enc, v.value);
  }

  method EncodeOptionalText(enc: Encoder, v: OptionalText)
    modifies enc
    ensures forall t: Bytes :: enc.buf + t == old(enc.buf) + PutOptionalText(v, t)
  {
    if !v.present {
      enc.Nil();
      return;
    }
    enc.Text(v.value);
  }

  method EncodeTypedValue(enc: Encoder, v: TypedValue)
    modifies enc
    ensures forall t: Bytes :: enc.buf + t == old(enc.buf) + PutTypedValue(v, t)
  {
    hide PutArray, PutText, PutOptionalText;
    enc.Array(4);
    enc.Text(v.kind);
    enc.Text(v.lexical);
    EncodeOptionalText(enc, v.unit);
    EncodeOptionalText(enc, v.currency);
  }

  method EncodeTexts(enc: Encoder, values: Slice<Text>)
    modifies enc
    ensures forall t: Bytes :: enc.buf + t == old(enc.buf) + PutTextSet(values, t)
  {
    hide PutArray, PutText;
    enc.Array(|values|);
    for i := 0 to |values|
      invariant forall t: Bytes :: enc.buf + PutItems(PutText, values[i..], t) == old(enc.buf) + PutTextSet(values, t)
    {
      label before:
      enc.Text(values[i]);
      forall t: Bytes ensures enc.buf + PutItems(PutText, values[i + 1..], t) == old(enc.buf) + PutTextSet(values, t) {
        PutItemsStep(PutText, values, i, t);
        assert old@before(enc.buf) + PutItems(PutText, values[i..], t) == old(enc.buf) + PutTextSet(values, t);
      }
    }
    forall t: Bytes ensures enc.buf + t == old(enc.buf) + PutTextSet(values, t) {
      assert PutItems(PutText, values[|values|..], t) == t;
    }
  }

  method EncodeDigestSet(enc: Encoder, values: Slice<Digest>)
    modifies enc
    ensures forall t: Bytes :: enc.buf + t == old(enc.buf) + PutDigestSet(values, t)
  {
    hide PutArray, PutDigest;
    enc.Array(|values|);
    for i := 0 to |values|
      invariant forall t: Bytes :: enc.buf + PutItems(PutDigest, values[i..], t) == old(enc.buf) + PutDigestSet(values, t)
    {
      label before:
      EncodeDigest(enc, values[i]);
      forall t: Bytes ensures enc.buf + PutItems(PutDigest, values[i + 1..], t) == old(enc.buf) + PutDigestSet(values, t) {
        PutItemsStep(PutDigest, values, i, t);
        assert old@before(enc.buf) + PutItems(PutDigest, values[i..], t) == old(enc.buf) + PutDigestSet(values, t);
      }
    }
    forall t: Bytes ensures enc.buf + t == old(enc.buf) + PutDigestSet(values, t) {
      assert PutItems(PutDigest, values[|values|..], t) == t;
    }
  }

  // ----- the decoder's steps -------------------------------------------------

  method DecodeFixed(dec: Decoder, n: uint64) returns (r: Result<uint64, CodecError>)
    requires dec.Valid()
    modifies dec`off
    ensures dec.Valid() && Follows(r, ReadFixed(old(dec.Rest()), n), dec.Rest())
  {
    r := dec.Array();
    if r.Failure? || r.value != n {
      return Failure(Invalid);
    }
  }

  method DecodeDigest(dec: Decoder) returns (r: Result<Digest, CodecError>)
    requires dec.Valid()
    modifies dec`off
    ensures dec.Valid() && Follows(r, ReadDigest(old(dec.Rest())), dec.Rest())
  {
    var raw := dec.Bytestring(32);
    if raw.Failure? || |raw.value| != 32 {
      return Failure(Invalid);
    }
    r := Success(raw.value);
  }

  method DecodeOptionalDigest(dec: Decoder) returns (r: Result<OptionalDigest, CodecError>)
    requires dec.Valid()
    modifies dec`off
    ensures dec.Valid() && Follows(r, ReadOptionalDigest(old(dec.Rest())), dec.Rest())
  {
    var absent :- dec.TryNil();
    if absent {
      return Success(OptionalDigest(false, ZeroDigest()));
    }
    var v :- DecodeDigest(dec);
    r := Success(OptionalDigest(true, v));
  }

  method DecodeOptionalText(dec: Decoder, max: uint64) returns (r: Result<OptionalText, CodecError>)
    requires dec.Valid() && max <= MAX_INT
    modifies dec`off
    ensures dec.Valid() && Follows(r, ReadOptionalText(old(dec.Rest()), max), dec.Rest())
  {
    var absent :- dec.TryNil();
    if absent {
      return Success(OptionalText(false, []));
    }
    var v :- dec.Text(max);
    r := Success(OptionalText(true, v));
  }

  method DecodeTypedValue(dec: Decoder) returns (r: Result<TypedValue, CodecError>)
    requires dec.Valid()
    modifies dec`off
    ensures dec.Valid() && Follows(r, ReadTypedValue(old(dec.Rest())), dec.Rest())
  {
    hide ReadFixed, ReadText, ReadOptionalText, ValidTypedValue;
    var _ :- DecodeFixed(dec, 4);
    var kind :- dec.Text(MAX_IDENTIFIER);
    var lexical :- dec.Text(MAX_LEXICAL);
    var unit :- DecodeOptionalText(dec, MAX_IDENTIFIER);
    var currency :- DecodeOptionalText(dec, 3);
    var v := TypedValue(kind, lexical, unit, currency);
    if !ValidTypedValue(v) {
      return Failure(Invalid);
    }
    r := Success(v);
  }

  method DecodeTextSet(dec: Decoder, maxCount: nat, minCount: nat) returns (r: Result<Slice<Text>, CodecError>)
    requires dec.Valid() && maxCount <= MAX_INT
    modifies dec`off
    ensures dec.Valid() && Follows(r, ReadTextSet(old(dec.Rest()), maxCount, minCount), dec.Rest())
  {
    hide ReadArray, ReadText, ValidSortedTexts, ReadItems, Prepend;
    var count := dec.Array();
    if count.Failure? || count.value < minCount || count.value > maxCount {
      return Failure(Invalid);
    }
    var n, values := count.value, [];
    ghost var all := ReadItems(ReadIdentifier, dec.Rest(), n);
    PrependNothing([], dec.Rest(), ReadIdentifier);
    for i := 0 to n
      invariant dec.Valid() && |values| == i
      invariant all == Prepend(values, ReadItems(ReadIdentifier, dec.Rest(), n - i))
    {
      ReadItemsStep(ReadIdentifier, values, dec.Rest(), n - i - 1);
      var v :- dec.Text(MAX_IDENTIFIER);
      values := values + [v];
    }
    PrependNothing(values, dec.Rest(), ReadIdentifier);
    if !ValidSortedTexts(values, maxCount) {
      return Failure(Invalid);
    }
    r := Success(values);
  }

  method DecodeDigestSet(dec: Decoder, maxCount: nat, minCount: nat) returns (r: Result<Slice<Digest>, CodecError>)
    requires dec.Valid() && maxCount <= MAX_INT
    modifies dec`off
    ensures dec.Valid() && Follows(r, ReadDigestSet(old(dec.Rest()), maxCount, minCount), dec.Rest())
  {
    hide ReadArray, ReadDigest, ValidSortedDigests, ReadItems, Prepend;
    var count := dec.Array();
    if count.Failure? || count.value < minCount || count.value > maxCount {
      return Failure(Invalid);
    }
    var n, values := count.value, [];
    ghost var all := ReadItems(ReadDigest, dec.Rest(), n);
    PrependNothing([], dec.Rest(), ReadDigest);
    for i := 0 to n
      invariant dec.Valid() && |values| == i
      invariant all == Prepend(values, ReadItems(ReadDigest, dec.Rest(), n - i))
    {
      ReadItemsStep(ReadDigest, values, dec.Rest(), n - i - 1);
      var v :- DecodeDigest(dec);
      values := values + [v];
    }
    PrependNothing(values, dec.Rest(), ReadDigest);
    if !ValidSortedDigests(values, maxCount, minCount) {
      return Failure(Invalid);
    }
    r := Success(values);
  }
}
