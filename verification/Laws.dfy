/** The laws that the egress worker and the archive importer ask of their formats can be met: for
  * any hash there are encoders and decoders that meet them, so no theorem about lawful formats
  * is empty. */
module Laws {
  import opened Wrappers
  import opened ByteStrings
  import opened Lexical
  import opened Spools
  import E = Egress
  import O = ArchiveOrders
  import I = ArchiveIndex
  import A = ArchiveSpool

  // ----- lists of fields as byte strings -------------------------------------

  function PutField(f: Bytes): (b: Bytes)
    ensures |b| == 2 * |f| + 1
  {
    if f == [] then [0] else [1, f[0]] + PutField(f[1..])
  }

  function PutFields(fields: seq<Bytes>): Bytes {
    if fields == [] then [] else PutField(fields[0]) + PutFields(fields[1..])
  }

  lemma {:induction false} FieldInjective(a: Bytes, b: Bytes, s: Bytes, t: Bytes)
    requires PutField(a) + s == PutField(b) + t
    ensures a == b && s == t
  {
    assert (PutField(a) + s)[0] == (PutField(b) + t)[0];
    if a == [] {
      assert s == (PutField(a) + s)[1..] && t == (PutField(b) + t)[1..];
    } else {
      assert (PutField(a) + s)[1] == (PutField(b) + t)[1];
      assert (PutField(a) + s)[2..] == PutField(a[1..]) + s && (PutField(b) + t)[2..] == PutField(b[1..]) + t;
      FieldInjective(a[1..], b[1..], s, t);
      assert a == [a[0]] + a[1..] && b == [b[0]] + b[1..];
    }
  }

  lemma {:induction false} FieldsInjective(a: seq<Bytes>, b: seq<Bytes>)
    requires PutFields(a) == PutFields(b)
    ensures a == b
  {
    if a != [] && b != [] {
      FieldInjective(a[0], b[0], PutFields(a[1..]), PutFields(b[1..]));
      FieldsInjective(a[1..], b[1..]);
      assert a == [a[0]] + a[1..] && b == [b[0]] + b[1..];
    }
  }

  lemma {:induction false} FieldsSize(fields: seq<Bytes>, k: nat)
    requires forall f :: f in fields ==> |f| <= k
    ensures |PutFields(fields)| <= |fields| * (2 * k + 1)
  {
    if fields != [] {
      var rest := fields[1..];
      assert fields[0] in fields && forall f :: f in rest ==> f in fields;
      FieldsSize(rest, k);
      assert |PutFields(fields)| == |PutField(fields[0])| + |PutFields(rest)|;
      hide PutFields, PutField;
      OneMore(|rest|, 2 * k + 1);
    }
  }

  lemma OneMore(n: nat, c: nat)
    ensures (n + 1) * c == n * c + c
  {
  }

  function Pow10(k: nat): nat {
    if k == 0 then 1 else 10 * Pow10(k - 1)
  }

  /** A number below a power of ten has no more digits than that. */
  lemma {:induction false} NumeralSize(n: nat, k: nat)
    requires k >= 1 && n < Pow10(k)
    ensures |Numeral(n)| <= k
  {
    if n >= 10 {
      assert k > 1 && n / 10 < Pow10(k - 1);
      NumeralSize(n / 10, k - 1);
    }
  }

  function Signed(n: int): Bytes {
    if n < 0 then [45] + Numeral(-n) else Numeral(n)
  }

  lemma SignedInjective(m: int, n: int)
    requires Signed(m) == Signed(n)
    ensures m == n
  {
    if m < 0 && n < 0 {
      assert Numeral(-m) == Signed(m)[1..] == Signed(n)[1..] == Numeral(-n);
    }
    assert m < 0 <==> n < 0 by {
      assert m >= 0 ==> IsDigit(Numeral(m)[0]);
      assert n >= 0 ==> IsDigit(Numeral(n)[0]);
    }
  }

  /** The good value that is encoded as `b`, if there is one. */
  ghost function Decode<T(!new)>(put: T -> Bytes, good: T -> bool, b: Bytes): Option<T> {
    if t :| good(t) && put(t) == b then Some(t) else None
  }

  lemma Decoded<T(!new)>(put: T -> Bytes, good: T -> bool, t: T)
    requires good(t) && forall u :: good(u) && put(u) == put(t) ==> u == t
    ensures Decode(put, good, put(t)) == Some(t)
  {
  }

  // ----- the egress worker ---------------------------------------------------

  function ResultFields(r: E.EgressResult): seq<Bytes> {
    [r.format, r.workOrderID, r.workOrderDigest, r.originID, r.purpose, r.requestURL, r.finalURL, r.retrievedAt,
     Signed(r.httpStatus), r.mediaType, Signed(r.redirectCount), r.observationDigest, r.bodyDigest,
     Numeral(r.bodySize), Signed(r.durationMillis)]
  }

  function PutResult(r: E.EgressResult): Bytes {
    PutFields(ResultFields(r))
  }

  lemma ResultInjective(r: E.EgressResult, s: E.EgressResult)
    requires PutResult(r) == PutResult(s)
    ensures r == s
  {
    var a, b := ResultFields(r), ResultFields(s);
    FieldsInjective(a, b);
    assert a[0] == b[0] && a[1] == b[1] && a[2] == b[2] && a[3] == b[3] && a[4] == b[4] && a[5] == b[5];
    assert a[6] == b[6] && a[7] == b[7] && a[8] == b[8] && a[9] == b[9] && a[10] == b[10] && a[11] == b[11];
    assert a[12] == b[12] && a[13] == b[13] && a[14] == b[14];
    SignedInjective(r.httpStatus, s.httpStatus);
    SignedInjective(r.redirectCount, s.redirectCount);
    SignedInjective(r.durationMillis, s.durationMillis);
    SameNumber(r.bodySize, s.bodySize);
  }

  lemma SameNumber(m: nat, n: nat)
    requires Numeral(m) == Numeral(n)
    ensures m == n
  {
    assert Decimal(Numeral(m)) == m && Decimal(Numeral(n)) == n;
  }

  function EgressArtifacts(artifacts: seq<E.Artifact>): seq<Bytes> {
    if artifacts == [] then [] else [artifacts[0].path, artifacts[0].digest] + EgressArtifacts(artifacts[1..])
  }

  lemma {:induction false} EgressArtifactsInjective(a: seq<E.Artifact>, b: seq<E.Artifact>)
    requires EgressArtifacts(a) == EgressArtifacts(b)
    ensures a == b
  {
    if a != [] && b != [] {
      var s, t := EgressArtifacts(a), EgressArtifacts(b);
      assert s[0] == t[0] && s[1] == t[1] && s[2..] == EgressArtifacts(a[1..]) && t[2..] == EgressArtifacts(b[1..]);
      EgressArtifactsInjective(a[1..], b[1..]);
      assert a == [a[0]] + a[1..] && b == [b[0]] + b[1..];
    }
  }

  function PutEgressManifest(m: E.Manifest): Bytes {
    PutFields([m.format, m.workOrderID, m.workOrderDigest] + EgressArtifacts(m.artifacts))
  }

  lemma EgressManifestInjective(m: E.Manifest, n: E.Manifest)
    requires PutEgressManifest(m) == PutEgressManifest(n)
    ensures m == n
  {
    var a := [m.format, m.workOrderID, m.workOrderDigest] + EgressArtifacts(m.artifacts);
    var b := [n.format, n.workOrderID, n.workOrderDigest] + EgressArtifacts(n.artifacts);
    FieldsInjective(a, b);
    assert a[0] == b[0] && a[1] == b[1] && a[2] == b[2];
    assert a[3..] == EgressArtifacts(m.artifacts) && b[3..] == EgressArtifacts(n.artifacts);
    EgressArtifactsInjective(m.artifacts, n.artifacts);
  }

  function Failures(n: int): Bytes {
    if -MAX_INT - 1 <= n <= MAX_INT then PutBigEndian(n + MAX_INT + 1, 8) else []
  }

  function CircuitFields(c: E.Circuit): seq<Bytes> {
    [c.format, c.originID, Failures(c.consecutiveFailures), if c.openUntil.None? then [] else [1] + c.openUntil.value]
  }

  function PutCircuit(c: E.Circuit): Bytes {
    PutFields(CircuitFields(c))
  }

  lemma CircuitInjective(c: E.Circuit, d: E.Circuit)
    requires E.PlainCircuit(c) && E.PlainCircuit(d) && PutCircuit(c) == PutCircuit(d)
    ensures c == d
  {
    hide E.Plain, E.TimeText, ValidID;
    var a, b := CircuitFields(c), CircuitFields(d);
    FieldsInjective(a, b);
    assert a[0] == b[0] && a[1] == b[1] && a[2] == b[2] && a[3] == b[3];
    Pow256Values();
    BigEndianOfPut(c.consecutiveFailures + MAX_INT + 1, 8);
    BigEndianOfPut(d.consecutiveFailures + MAX_INT + 1, 8);
    assert c.openUntil.Some? && d.openUntil.Some? ==> a[3][1..] == c.openUntil.value && b[3][1..] == d.openUntil.value;
  }

  lemma CircuitSize(c: E.Circuit)
    requires E.PlainCircuit(c)
    ensures 0 < |PutCircuit(c)| <= E.MAX_CONTROL
  {
    hide ValidUtf8, IsAscii;
    var f := CircuitFields(c);
    assert |f[2]| == 8 && |f[3]| <= 65 && |f[0]| <= 8192 && |f[1]| <= 128;
    FourFields(f[0], f[1], f[2], f[3]);
  }

  lemma FourFields(a: Bytes, b: Bytes, c: Bytes, d: Bytes)
    ensures |PutFields([a, b, c, d])| == 2 * (|a| + |b| + |c| + |d|) + 4
  {
    assert [a, b, c, d][1..] == [b, c, d] && [b, c, d][1..] == [c, d] && [c, d][1..] == [d];
    assert PutFields([a, b, c, d]) == PutField(a) + PutFields([b, c, d]);
    assert PutFields([b, c, d]) == PutField(b) + PutFields([c, d]);
    assert PutFields([c, d]) == PutField(c) + PutFields([d]);
    assert PutFields([d]) == PutField(d) + PutFields([]);
  }

  const MINUTE: int := 60 * E.SECOND

  // Whole minutes up to an hour, in unary.
  function Minutes(n: nat): (v: Bytes)
    ensures |v| == n + 1 && IsAscii(v)
  {
    seq(n + 1, _ => 97)
  }

  function Unary(t: int): Bytes {
    if t % MINUTE == 0 && 0 <= t / MINUTE <= 60 then Minutes(t / MINUTE) else []
  }

  function UnaryTime(v: Bytes): Option<int> {
    if 0 < |v| <= 61 && IsAscii(v) then Some((|v| - 1) * MINUTE) else None
  }

  lemma MinutesRead(n: nat)
    requires n <= 60
    ensures UnaryTime(Minutes(n)) == Some(n * MINUTE) && Unary(n * MINUTE) == Minutes(n) && E.TimeText(Minutes(n))
  {
    assert n * MINUTE / MINUTE == n && n * MINUTE % MINUTE == 0;
  }

  lemma UnaryReadsBack(t: int)
    ensures UnaryTime(Unary(t)) in {None, Some(t)} && E.TimeText(Unary(t))
  {
    if t % MINUTE == 0 && 0 <= t / MINUTE <= 60 {
      assert t / MINUTE * MINUTE == t;
      MinutesRead(t / MINUTE);
    }
  }

  lemma UnaryIsText(v: Bytes)
    requires UnaryTime(v).Some?
    ensures E.TimeText(v)
  {
  }

  lemma ResultReadsBack(r: E.EgressResult)
    requires E.PlainResult(r)
    ensures Decode(PutResult, E.PlainResult, PutResult(r)) == Some(r)
  {
    hide PutResult, E.PlainResult, Decode;
    forall s | PutResult(s) == PutResult(r) ensures s == r { ResultInjective(s, r); }
    Decoded(PutResult, E.PlainResult, r);
  }

  lemma EgressManifestReadsBack(m: E.Manifest)
    requires E.PlainManifest(m)
    ensures Decode(PutEgressManifest, E.PlainManifest, PutEgressManifest(m)) == Some(m)
  {
    hide PutEgressManifest, E.PlainManifest, Decode;
    forall n | PutEgressManifest(n) == PutEgressManifest(m) ensures n == m { EgressManifestInjective(n, m); }
    Decoded(PutEgressManifest, E.PlainManifest, m);
  }

  lemma CircuitReadsBack(c: E.Circuit)
    requires E.PlainCircuit(c)
    ensures Decode(PutCircuit, E.PlainCircuit, PutCircuit(c)) == Some(c)
  {
    hide PutCircuit, E.PlainCircuit, Decode;
    forall d | E.PlainCircuit(d) && PutCircuit(d) == PutCircuit(c) ensures d == c { CircuitInjective(d, c); }
    Decoded(PutCircuit, E.PlainCircuit, c);
  }

  ghost function EgressFormats(hash: Hash, order: Bytes -> Option<E.Order>, admits: E.Order -> bool): E.Formats {
    E.Formats(hash, UnaryTime, Unary, admits, order,
              PutResult, b => Decode(PutResult, E.PlainResult, b),
              PutEgressManifest, b => Decode(PutEgressManifest, E.PlainManifest, b),
              PutCircuit, b => Decode(PutCircuit, E.PlainCircuit, b), _ => [0])
  }

  /** For any hash, order decoder and URL policy these formats of the egress worker are lawful, and
    * times do read back in them. */
  lemma EgressLaws(hash: Hash, order: Bytes -> Option<E.Order>, admits: E.Order -> bool)
    ensures var e := EgressFormats(hash, order, admits);
            E.Lawful(e) && forall n: nat :: n <= 60 ==> e.time(e.formatTime(n * MINUTE)) == Some(n * MINUTE)
  {
    var e := EgressFormats(hash, order, admits);
    hide PutResult, PutEgressManifest, PutCircuit, E.PlainResult, E.PlainManifest, E.PlainCircuit, Decode;
    hide Unary, UnaryTime, E.TimeText;
    forall t ensures e.time(e.formatTime(t)) in {None, Some(t)} && E.TimeText(e.formatTime(t)) {
      UnaryReadsBack(t);
    }
    forall n: nat | n <= 60 ensures e.time(e.formatTime(n * MINUTE)) == Some(n * MINUTE) {
      MinutesRead(n);
    }
    forall v | e.time(v).Some? ensures E.TimeText(v) {
      UnaryIsText(v);
    }
    forall r | E.PlainResult(r) ensures e.result(e.putResult(r)) == Some(r) {
      ResultReadsBack(r);
    }
    forall m | E.PlainManifest(m) ensures e.manifest(e.putManifest(m)) == Some(m) {
      EgressManifestReadsBack(m);
    }
    forall c | E.PlainCircuit(c)
      ensures e.circuit(e.putCircuit(c)) == Some(c) && 0 < |e.putCircuit(c)| <= E.MAX_CONTROL
    {
      CircuitReadsBack(c);
      CircuitSize(c);
    }
    NotEmpty();
  }

  lemma NotEmpty()
    ensures forall r :: |PutResult(r)| > 0
    ensures forall m :: |PutEgressManifest(m)| > 0
  {
  }

  // ----- the archive importer ------------------------------------------------

  function RangeFields(r: A.RangeEvidence): seq<Bytes> {
    [r.format, r.dataURL, r.requestedRange, Numeral(r.httpStatus), r.contentRange, r.bodyDigest, Numeral(r.bodySize)]
  }

  function PutRange(r: A.RangeEvidence): Bytes {
    PutFields(RangeFields(r))
  }

  lemma RangeInjective(r: A.RangeEvidence, s: A.RangeEvidence)
    requires PutRange(r) == PutRange(s)
    ensures r == s
  {
    var a, b := RangeFields(r), RangeFields(s);
    FieldsInjective(a, b);
    assert a[0] == b[0] && a[1] == b[1] && a[2] == b[2] && a[3] == b[3] && a[4] == b[4] && a[5] == b[5] && a[6] == b[6];
    SameNumber(r.httpStatus, s.httpStatus);
    SameNumber(r.bodySize, s.bodySize);
  }

  function ArchiveArtifacts(artifacts: seq<A.Artifact>): seq<Bytes> {
    if artifacts == [] then []
    else [artifacts[0].path, artifacts[0].digest, Numeral(artifacts[0].size)] + ArchiveArtifacts(artifacts[1..])
  }

  lemma {:induction false} ArchiveArtifactsInjective(a: seq<A.Artifact>, b: seq<A.Artifact>)
    requires ArchiveArtifacts(a) == ArchiveArtifacts(b)
    ensures a == b
  {
    if a != [] && b != [] {
      var s, t := ArchiveArtifacts(a), ArchiveArtifacts(b);
      assert s[0] == t[0] && s[1] == t[1] && s[2] == t[2];
      assert s[3..] == ArchiveArtifacts(a[1..]) && t[3..] == ArchiveArtifacts(b[1..]);
      SameNumber(a[0].size, b[0].size);
      ArchiveArtifactsInjective(a[1..], b[1..]);
      assert a == [a[0]] + a[1..] && b == [b[0]] + b[1..];
    }
  }

  function PutArchiveManifest(m: A.CaptureManifest): Bytes {
    PutFields([m.format, m.workOrderID, m.workOrderDigest, m.evidenceDigest] + ArchiveArtifacts(m.artifacts))
  }

  lemma ArchiveManifestInjective(m: A.CaptureManifest, n: A.CaptureManifest)
    requires PutArchiveManifest(m) == PutArchiveManifest(n)
    ensures m == n
  {
    var a := [m.format, m.workOrderID, m.workOrderDigest, m.evidenceDigest] + ArchiveArtifacts(m.artifacts);
    var b := [n.format, n.workOrderID, n.workOrderDigest, n.evidenceDigest] + ArchiveArtifacts(n.artifacts);
    FieldsInjective(a, b);
    assert a[0] == b[0] && a[1] == b[1] && a[2] == b[2] && a[3] == b[3];
    assert a[4..] == ArchiveArtifacts(m.artifacts) && b[4..] == ArchiveArtifacts(n.artifacts);
    ArchiveArtifactsInjective(m.artifacts, n.artifacts);
  }

  function PutEvidence(m: A.EvidenceManifest): Bytes {
    PutFields([m.format, m.workOrderID, m.workOrderDigest] + ArchiveArtifacts(m.artifacts))
  }

  predicate AnyEvidence(m: A.EvidenceManifest) {
    true
  }

  lemma EvidenceInjective(m: A.EvidenceManifest, n: A.EvidenceManifest)
    requires PutEvidence(m) == PutEvidence(n)
    ensures m == n
  {
    var a := [m.format, m.workOrderID, m.workOrderDigest] + ArchiveArtifacts(m.artifacts);
    var b := [n.format, n.workOrderID, n.workOrderDigest] + ArchiveArtifacts(n.artifacts);
    FieldsInjective(a, b);
    assert a[0] == b[0] && a[1] == b[1] && a[2] == b[2];
    assert a[3..] == ArchiveArtifacts(m.artifacts) && b[3..] == ArchiveArtifacts(n.artifacts);
    ArchiveArtifactsInjective(m.artifacts, n.artifacts);
  }

  // What is not UTF-8 becomes a question mark.
  function Coerce(v: Bytes): Bytes {
    if ValidUtf8(v) then v else [63]
  }

  lemma CoerceKeeps(v: Bytes)
    ensures Coerce(v) == v <==> ValidUtf8(v)
    ensures Coerce(Coerce(v)) == Coerce(v)
  {
    var mark: Bytes := [63];
    assert RuneLength(mark) == 1;
    assert mark[1..] == [];
    assert ValidUtf8(mark);
  }

  function Coerced(c: A.CaptureEvidence): A.CaptureEvidence {
    c.(contentEncoding := Coerce(c.contentEncoding), contentLanguage := Coerce(c.contentLanguage))
  }

  function CaptureFields(c: A.CaptureEvidence): seq<Bytes> {
    [c.format, c.workOrderID, c.workOrderDigest, c.originID, c.evidenceClass, c.freshness,
     if c.currentPublisherStatement then [1] else [], c.observedBy, c.collectionID, c.captureTimestamp, c.targetURL,
     c.warcFile, Numeral(c.warcOffset), Numeral(c.warcLength), Numeral(c.rangeHTTPStatus), c.rangeContentRange,
     c.providerPayloadDigest, c.compressedRecordDigest, c.representationDigest, Numeral(c.representationSize),
     Numeral(c.httpStatus), c.mediaType, c.contentEncoding, c.contentLanguage]
  }

  function PutCapture(c: A.CaptureEvidence): Bytes {
    PutFields(CaptureFields(Coerced(c)))
  }

  // A capture that JSON keeps as it is.
  predicate Kept(c: A.CaptureEvidence) {
    Coerced(c) == c
  }

  lemma CaptureInjective(c: A.CaptureEvidence, d: A.CaptureEvidence)
    requires Kept(c) && Kept(d) && PutCapture(c) == PutCapture(d)
    ensures c == d
  {
    hide Coerced;
    var a, b := CaptureFields(c), CaptureFields(d);
    FieldsInjective(a, b);
    assert a[0] == b[0] && a[1] == b[1] && a[2] == b[2] && a[3] == b[3] && a[4] == b[4] && a[5] == b[5];
    assert a[6] == b[6] && a[7] == b[7] && a[8] == b[8] && a[9] == b[9] && a[10] == b[10] && a[11] == b[11];
    assert a[12] == b[12] && a[13] == b[13] && a[14] == b[14] && a[15] == b[15] && a[16] == b[16] && a[17] == b[17];
    assert a[18] == b[18] && a[19] == b[19] && a[20] == b[20] && a[21] == b[21] && a[22] == b[22] && a[23] == b[23];
    SameNumber(c.warcOffset, d.warcOffset);
    SameNumber(c.warcLength, d.warcLength);
    SameNumber(c.rangeHTTPStatus, d.rangeHTTPStatus);
    SameNumber(c.representationSize, d.representationSize);
    SameNumber(c.httpStatus, d.httpStatus);
  }

  lemma CaptureReadsBack(c: A.CaptureEvidence)
    ensures Decode(PutCapture, Kept, PutCapture(c)) == Some(Coerced(c))
  {
    var k := Coerced(c);
    CoerceKeeps(c.contentEncoding);
    CoerceKeeps(c.contentLanguage);
    assert Coerced(k) == k;
    assert PutCapture(k) == PutCapture(c);
    hide PutCapture, Kept, Coerced, Decode;
    forall d | Kept(d) && PutCapture(d) == PutCapture(k) ensures d == k { CaptureInjective(d, k); }
    Decoded(PutCapture, Kept, k);
  }

  // A record parser that finds one byte, and the given headers.
  function ParseByte(hash: Hash, encoding: Bytes, language: Bytes): (Bytes, I.Capture, O.WorkOrder) -> Option<A.ParsedRecord> {
    (z, c: I.Capture, w) =>
      Some(A.ParsedRecord(c.capturedURL, 200, c.mediaType, encoding, language, [97], DigestText(hash([97])), c.providerDigest))
  }

  ghost function ArchiveFormats(
    hash: Hash, index: I.Index, order: Bytes -> Option<O.WorkOrder>, encoding: Bytes, language: Bytes): A.Formats
  {
    A.Formats(hash, index, _ => [], ParseByte(hash, encoding, language), Coerce, order,
              PutRange, b => Decode(PutRange, A.PlainRange, b),
              PutEvidence, b => Decode(PutEvidence, AnyEvidence, b),
              PutArchiveManifest, b => Decode(PutArchiveManifest, A.PlainManifest, b),
              PutCapture, b => Decode(PutCapture, Kept, b))
  }

  /** For any hash, any index syntax and order decoder that yield plain text, and any archived
    * headers these formats of the archive importer are lawful. */
  lemma ArchiveLaws(hash: Hash, index: I.Index, order: Bytes -> Option<O.WorkOrder>, encoding: Bytes, language: Bytes)
    requires forall d :: order(d).Some? ==> forall v :: v in order(d).value.permittedRoutes ==> A.Plain(v)
    requires forall v :: index.order.timestamp(v) ==> A.Plain(v)
    ensures var e := ArchiveFormats(hash, index, order, encoding, language);
            A.Lawful(e) && forall m :: e.evidence(e.putEvidence(m)) == Some(m)
  {
    var e := ArchiveFormats(hash, index, order, encoding, language);
    ArchiveNotEmpty();
    hide PutRange, PutEvidence, PutArchiveManifest, PutCapture, A.PlainRange, A.PlainManifest, A.PlainCapture, Decode;
    forall r | A.PlainRange(r) ensures e.range(e.putRange(r)) == Some(r) {
      forall s | PutRange(s) == PutRange(r) ensures s == r { RangeInjective(s, r); }
      Decoded(PutRange, A.PlainRange, r);
    }
    forall m ensures e.evidence(e.putEvidence(m)) == Some(m) {
      forall n | PutEvidence(n) == PutEvidence(m) ensures n == m { EvidenceInjective(n, m); }
      Decoded(PutEvidence, AnyEvidence, m);
    }
    forall m | A.PlainManifest(m) ensures e.manifest(e.putManifest(m)) == Some(m) {
      forall n | PutArchiveManifest(n) == PutArchiveManifest(m) ensures n == m { ArchiveManifestInjective(n, m); }
      Decoded(PutArchiveManifest, A.PlainManifest, m);
    }
    forall c: A.CaptureEvidence ensures e.capture(e.putCapture(c)) == Some(Coerced(c)) {
      CaptureReadsBack(c);
    }
    forall v ensures e.coerce(v) == v <==> ValidUtf8(v) {
      CoerceKeeps(v);
    }
  }

  lemma ArchiveNotEmpty()
    ensures forall m :: |PutArchiveManifest(m)| > 0
    ensures forall c :: |PutCapture(c)| > 0
    ensures (forall r :: |PutRange(r)| > 0) && forall m :: |PutEvidence(m)| > 0
    ensures A.Plain([])
  {
  }
}
