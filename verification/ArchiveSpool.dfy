/** Two-phase publication of an archived capture and its verification (internal/archiveimport/spool.go). */
module ArchiveSpool {
  // The raw evidence and its manifest come first, the derived representation and the final
  // manifest last. Record parsing and JSON are parameters.

  import opened Wrappers
  import opened ByteStrings
  import opened Lexical
  import opened Spools
  import opened ArchiveOrders
  import opened ArchiveIndex

  const MAX_METADATA: nat := 0x4_0000
  const MAX_SCALAR: nat := 0x4000

  datatype Artifact = Artifact(path: Bytes, digest: Bytes, size: nat)

  datatype EvidenceManifest = EvidenceManifest(
    format: Bytes, workOrderID: Bytes, workOrderDigest: Bytes, artifacts: seq<Artifact>)

  datatype CaptureManifest = CaptureManifest(
    format: Bytes, workOrderID: Bytes, workOrderDigest: Bytes, evidenceDigest: Bytes, artifacts: seq<Artifact>)

  datatype RangeEvidence = RangeEvidence(
    format: Bytes, dataURL: Bytes, requestedRange: Bytes, httpStatus: nat, contentRange: Bytes,
    bodyDigest: Bytes, bodySize: nat)

  datatype CaptureEvidence = CaptureEvidence(
    format: Bytes, workOrderID: Bytes, workOrderDigest: Bytes, originID: Bytes, evidenceClass: Bytes, freshness: Bytes,
    currentPublisherStatement: bool, observedBy: Bytes, collectionID: Bytes, captureTimestamp: Bytes, targetURL: Bytes,
    warcFile: Bytes, warcOffset: nat, warcLength: nat, rangeHTTPStatus: nat, rangeContentRange: Bytes,
    providerPayloadDigest: Bytes, compressedRecordDigest: Bytes, representationDigest: Bytes, representationSize: nat,
    httpStatus: nat, mediaType: Bytes, contentEncoding: Bytes, contentLanguage: Bytes)

  /** What a parsed WARC record yields. */
  datatype ParsedRecord = ParsedRecord(
    targetURL: Bytes, httpStatus: nat, mediaType: Bytes, contentEncoding: Bytes, contentLanguage: Bytes,
    body: Bytes, bodyDigest: Bytes, providerDigest: Bytes)

  datatype Loaded = Loaded(order: WorkOrder, digest: Bytes, data: Bytes)

  /** The syntaxes, the hash and the record parser. `coerce` is what JSON encoding does to text:
    * invalid UTF-8 is replaced. */
  datatype Formats = Formats(
    hash: Hash, index: Index, dataURL: Bytes -> Bytes,
    parse: (Bytes, Capture, WorkOrder) -> Option<ParsedRecord>, coerce: Bytes -> Bytes,
    order: Bytes -> Option<WorkOrder>,
    putRange: RangeEvidence -> Bytes, range: Bytes -> Option<RangeEvidence>,
    putEvidence: EvidenceManifest -> Bytes, evidence: Bytes -> Option<EvidenceManifest>,
    putManifest: CaptureManifest -> Bytes, manifest: Bytes -> Option<CaptureManifest>,
    putCapture: CaptureEvidence -> Bytes, capture: Bytes -> Option<CaptureEvidence>)

  predicate Plain(v: Bytes) {
    ValidUtf8(v) && |v| <= MAX_SCALAR
  }

  predicate PlainArtifacts(artifacts: seq<Artifact>) {
    |artifacts| <= 512 && forall a :: a in artifacts ==> Plain(a.path) && Plain(a.digest)
  }

  predicate PlainManifest(m: CaptureManifest) {
    && Plain(m.format) && Plain(m.workOrderID) && Plain(m.workOrderDigest) && Plain(m.evidenceDigest)
    && PlainArtifacts(m.artifacts)
  }

  predicate PlainRange(r: RangeEvidence) {
    Plain(r.format) && Plain(r.dataURL) && Plain(r.requestedRange) && Plain(r.contentRange) && Plain(r.bodyDigest)
  }

  // Every text but the two archived response headers is UTF-8.
  predicate PlainCapture(e: CaptureEvidence) {
    && Plain(e.format) && Plain(e.workOrderID) && Plain(e.workOrderDigest) && Plain(e.originID) && Plain(e.evidenceClass)
    && Plain(e.freshness) && Plain(e.observedBy) && Plain(e.collectionID) && Plain(e.captureTimestamp)
    && Plain(e.targetURL) && Plain(e.warcFile) && Plain(e.rangeContentRange) && Plain(e.providerPayloadDigest)
    && Plain(e.compressedRecordDigest) && Plain(e.representationDigest) && Plain(e.mediaType)
    && |e.contentEncoding| <= 1024 && |e.contentLanguage| <= 1024
  }

  /** Decoding undoes encoding up to coerced text, a parsed record has the body its digest names,
    * and decoded orders, accepted timestamps and built URLs are plain text. */
  ghost predicate Lawful(e: Formats) {
    && (forall r :: PlainRange(r) ==> e.range(e.putRange(r)) == Some(r))
    && (forall m :: PlainManifest(m) ==> e.manifest(e.putManifest(m)) == Some(m))
    && (forall c :: PlainCapture(c) ==>
          e.capture(e.putCapture(c)) == Some(c.(contentEncoding := e.coerce(c.contentEncoding),
                                                contentLanguage := e.coerce(c.contentLanguage))))
    && (forall v :: e.coerce(v) == v <==> ValidUtf8(v))
    && (forall m :: |e.putManifest(m)| > 0) && (forall c :: |e.putCapture(c)| > 0)
    && (forall z, c, w :: e.parse(z, c, w).Some? ==> var r := e.parse(z, c, w).value;
          r.targetURL == c.capturedURL && r.bodyDigest == DigestText(e.hash(r.body)) && |r.body| <= MAX_RETAINED_BODY)
    && (forall d :: e.order(d).Some? ==> forall v :: v in e.order(d).value.permittedRoutes ==> Plain(v))
    && (forall v :: e.index.order.timestamp(v) ==> Plain(v))
    && (forall v :: |v| <= 4096 ==> Plain(e.dataURL(v)))
  }

  function DigestOf(e: Formats, data: Bytes): Bytes {
    DigestText(e.hash(data))
  }

  // ----- paths ---------------------------------------------------------------

  function OrderPath(): Bytes { Ascii("work-order.json") }
  function IndexPath(): Bytes { Ascii("index-record.json") }
  function RangePath(): Bytes { Ascii("range-response.json") }
  function RecordPath(): Bytes { Ascii("warc-record.gz") }
  function EvidencePath(): Bytes { Ascii("evidence-manifest.json") }
  function BodyPath(): Bytes { Ascii("representation.body") }
  function CapturePath(): Bytes { Ascii("capture.json") }
  function ManifestPath(): Bytes { Ascii("manifest.json") }

  function RawPaths(): seq<Bytes> {
    [IndexPath(), RangePath(), RecordPath(), OrderPath()]
  }

  function FinalPaths(): seq<Bytes> {
    [CapturePath(), EvidencePath(), IndexPath(), RangePath(), BodyPath(), RecordPath(), OrderPath()]
  }

  // ----- manifests -----------------------------------------------------------

  predicate ValidArtifacts(orderID: Bytes, orderDigest: Bytes, artifacts: seq<Artifact>, expected: seq<Bytes>) {
    && ValidID(orderID) && ValidDigest(orderDigest) && |artifacts| == |expected|
    && forall i :: 0 <= i < |artifacts| ==>
         artifacts[i].path == expected[i] && ValidDigest(artifacts[i].digest) && artifacts[i].size > 0
  }

  predicate ValidEvidenceManifest(m: EvidenceManifest) {
    && m.format == Ascii("tw.archive-evidence-manifest/0.1")
    && ValidArtifacts(m.workOrderID, m.workOrderDigest, m.artifacts, RawPaths())
  }

  predicate ValidCaptureManifest(m: CaptureManifest) {
    && ValidDigest(m.evidenceDigest) && m.format == Ascii("tw.archive-capture-manifest/0.1")
    && ValidArtifacts(m.workOrderID, m.workOrderDigest, m.artifacts, FinalPaths())
  }

  function ArtifactLimit(path: Bytes): nat {
    if path == RecordPath() then MAX_COMPRESSED
    else if path == BodyPath() then MAX_RETAINED_BODY
    else if path == OrderPath() then MAX_WORK_ORDER
    else if path == IndexPath() then MAX_INDEX_LINE + 1
    else MAX_METADATA
  }

  predicate ArtifactMatches(e: Formats, files: Files, a: Artifact) {
    var data := ReadRegular(files, a.path, ArtifactLimit(a.path));
    data.Some? && DigestOf(e, data.value) == a.digest && |data.value| == a.size
  }

  predicate AllMatch(e: Formats, files: Files, artifacts: seq<Artifact>) {
    forall i :: 0 <= i < |artifacts| ==> ArtifactMatches(e, files, artifacts[i])
  }

  function ArtifactFor(e: Formats, path: Bytes, data: Bytes): Artifact {
    Artifact(path, DigestOf(e, data), |data|)
  }

  // ----- evidence ------------------------------------------------------------

  predicate ValidRangeEvidence(e: Formats, r: RangeEvidence, c: Capture, compressed: Bytes, maximum: nat) {
    && r.format == Ascii("tw.archive-range-evidence/0.1") && ValidIdentity(e.index, c)
    && r.dataURL == e.dataURL(c.filename) && r.requestedRange == RangeHeader(c)
    && r.httpStatus == 206 && ValidPlainText(r.contentRange, 1024)
    && r.bodyDigest == DigestOf(e, compressed) && r.bodySize == |compressed|
    && ValidRange(e.index, c, r.httpStatus, r.contentRange, |compressed|, maximum)
  }

  predicate HeaderText(v: Bytes) {
    |v| <= 1024 && 10 !in v && 13 !in v && 0 !in v
  }

  predicate ValidCaptureEvidence(e: Formats, v: CaptureEvidence, w: WorkOrder) {
    && ValidOrder(e.index.order, w) && v.format == Ascii("tw.archive-capture-evidence/0.1") && v.workOrderID == w.id
    && ValidDigest(v.workOrderDigest) && v.originID == w.originID && v.evidenceClass == Ascii("archive_observation")
    && v.freshness == Ascii("historical") && !v.currentPublisherStatement && v.observedBy == Ascii("common_crawl")
    && v.collectionID in w.collectionIDs && v.targetURL in w.permittedRoutes
    && e.index.order.timestamp(v.captureTimestamp) && ValidWARCPath(v.warcFile, v.collectionID)
    && 0 < v.warcLength <= w.maxCompressedRecordBytes && v.warcOffset + v.warcLength - 1 <= MAX_UINT64
    && v.rangeHTTPStatus == 206 && ValidPlainText(v.rangeContentRange, 1024)
    && ProviderDigest(v.providerPayloadDigest) && ValidDigest(v.compressedRecordDigest)
    && ValidDigest(v.representationDigest) && 0 < v.representationSize <= w.maxRetainedBodyBytes
    && v.httpStatus == 200 && ValidPlainText(v.mediaType, 255)
    && HeaderText(v.contentEncoding) && HeaderText(v.contentLanguage)
    && var c := Capture(v.collectionID, v.targetURL, v.targetURL, v.captureTimestamp, v.httpStatus, v.mediaType,
                        v.providerPayloadDigest, v.warcFile, v.warcOffset, v.warcLength, []);
    ValidRange(e.index, c, v.rangeHTTPStatus, v.rangeContentRange, v.warcLength, w.maxCompressedRecordBytes)
  }

  // ----- raw evidence --------------------------------------------------------

  /** What verified raw evidence consists of. */
  datatype Raw = Raw(loaded: Loaded, capture: Capture, compressed: Bytes, range: RangeEvidence)

  // The captures an index record resolves to, over every collection and route.
  function ResolveAll(e: Formats, w: WorkOrder, data: Bytes, pairs: seq<(Bytes, Bytes)>): seq<Capture> {
    if pairs == [] then []
    else
      var last := pairs[|pairs| - 1];
      var found := Resolve(e.index, w, data, last.0, last.1);
      ResolveAll(e, w, data, pairs[..|pairs| - 1]) + if found.Some? then [found.value] else []
  }

  // Every collection with every route, collections first.
  function Pairs(collections: seq<Bytes>, routes: seq<Bytes>): seq<(Bytes, Bytes)> {
    if collections == [] then []
    else
      var c := collections[|collections| - 1];
      Pairs(collections[..|collections| - 1], routes) + seq(|routes|, i requires 0 <= i < |routes| => (c, routes[i]))
  }

  /** Raw evidence verifies when its manifest, its artifacts, its order, its one index record,
    * its compressed record and its range response all agree. */
  function VerifyRaw(e: Formats, files: Files): Option<Raw> {
    var data := ReadRegular(files, EvidencePath(), MAX_METADATA);
    if data.None? || e.evidence(data.value).None? then None
    else
      var m := e.evidence(data.value).value;
      if !ValidEvidenceManifest(m) || !AllMatch(e, files, m.artifacts) then None
      else VerifyListed(e, files, m)
  }

  function VerifyListed(e: Formats, files: Files, m: EvidenceManifest): Option<Raw> {
    var orderBytes := ReadRegular(files, OrderPath(), MAX_WORK_ORDER);
    var indexBytes := ReadRegular(files, IndexPath(), MAX_INDEX_LINE + 1);
    if orderBytes.None? || DigestOf(e, orderBytes.value) != m.workOrderDigest || e.order(orderBytes.value).None? then None
    else
      var w := e.order(orderBytes.value).value;
      if w.id != m.workOrderID || !ValidOrder(e.index.order, w) || indexBytes.None? then None
      else
        var captures := ResolveAll(e, w, indexBytes.value, Pairs(w.collectionIDs, w.permittedRoutes));
        if |captures| != 1 then None
        else VerifyRecord(e, files, Loaded(w, m.workOrderDigest, orderBytes.value), captures[0])
  }

  function VerifyRecord(e: Formats, files: Files, l: Loaded, c: Capture): Option<Raw> {
    var compressed := ReadRegular(files, RecordPath(), l.order.maxCompressedRecordBytes);
    var rangeBytes := ReadRegular(files, RangePath(), MAX_METADATA);
    if compressed.None? || |compressed.value| != c.length || rangeBytes.None? || e.range(rangeBytes.value).None? then None
    else
      var r := e.range(rangeBytes.value).value;
      if ValidRangeEvidence(e, r, c, compressed.value, l.order.maxCompressedRecordBytes)
      then Some(Raw(l, c, compressed.value, r)) else None
  }

  // ----- publication ---------------------------------------------------------

  datatype Write = Write(path: Bytes, data: Bytes)

  /** The directory after some writes. */
  function Place(writes: seq<Write>): Files {
    if writes == [] then map[]
    else Place(writes[..|writes| - 1])[writes[|writes| - 1].path := writes[|writes| - 1].data]
  }

  /** The writes of a publication, in order, and the evidence it reports if it completes. */
  datatype Plan = Plan(writes: seq<Write>, evidence: Option<CaptureEvidence>)

  function Prefixed(writes: seq<Write>, p: Plan): Plan {
    Plan(writes + p.writes, p.evidence)
  }

  /** What a publication is given: a loaded order, a capture and a range response. */
  datatype Input = Input(loaded: Loaded, capture: Capture, rangeStatus: nat, contentRange: Bytes, compressed: Bytes)

  predicate SelfConsistent(e: Formats, i: Input) {
    && ValidOrder(e.index.order, i.loaded.order) && DigestOf(e, i.loaded.data) == i.loaded.digest
    && i.capture.collectionID in i.loaded.order.collectionIDs && i.capture.requestedURL in i.loaded.order.permittedRoutes
    && |i.compressed| == i.capture.length
    && ValidRange(e.index, i.capture, i.rangeStatus, i.contentRange, |i.compressed|, i.loaded.order.maxCompressedRecordBytes)
    && 0 < |i.capture.raw| <= MAX_INDEX_LINE
  }

  function RangeEvidenceOf(e: Formats, i: Input): RangeEvidence
    requires i.capture.length > 0
  {
    RangeEvidence(Ascii("tw.archive-range-evidence/0.1"), e.dataURL(i.capture.filename), RangeHeader(i.capture),
                  i.rangeStatus, i.contentRange, DigestOf(e, i.compressed), |i.compressed|)
  }

  function EvidenceManifestOf(e: Formats, i: Input, rangeBytes: Bytes): EvidenceManifest {
    EvidenceManifest(Ascii("tw.archive-evidence-manifest/0.1"), i.loaded.order.id, i.loaded.digest, [
      ArtifactFor(e, IndexPath(), i.capture.raw + [10]), ArtifactFor(e, RangePath(), rangeBytes),
      ArtifactFor(e, RecordPath(), i.compressed), ArtifactFor(e, OrderPath(), i.loaded.data)])
  }

  function RawWrites(i: Input, rangeBytes: Bytes): seq<Write> {
    [Write(OrderPath(), i.loaded.data), Write(IndexPath(), i.capture.raw + [10]),
     Write(RangePath(), rangeBytes), Write(RecordPath(), i.compressed)]
  }

  /** The raw evidence and, once it is all written, its manifest. */
  function EvidencePlan(e: Formats, i: Input): Plan
    requires i.capture.length > 0
  {
    var range := RangeEvidenceOf(e, i);
    var rangeBytes := e.putRange(range);
    if !ValidRangeEvidence(e, range, i.capture, i.compressed, i.loaded.order.maxCompressedRecordBytes)
       || |rangeBytes| > MAX_METADATA || |i.loaded.data| > MAX_WORK_ORDER then Plan([], None)
    else
      var m := EvidenceManifestOf(e, i, rangeBytes);
      if !ValidEvidenceManifest(m) || |e.putEvidence(m)| > MAX_METADATA then Plan(RawWrites(i, rangeBytes), None)
      else
        var sealed := RawWrites(i, rangeBytes) + [Write(EvidencePath(), e.putEvidence(m))];
        Prefixed(sealed, DerivedPlan(e, Place(sealed), range))
  }

  /** The whole publication: nothing is written for inputs that are not sealed and self-consistent. */
  function RawPlan(e: Formats, i: Input): Plan {
    if SelfConsistent(e, i) then EvidencePlan(e, i) else Plan([], None)
  }

  function CaptureEvidenceOf(e: Formats, raw: Raw, range: RangeEvidence, p: ParsedRecord): CaptureEvidence {
    var w, c := raw.loaded.order, raw.capture;
    CaptureEvidence(Ascii("tw.archive-capture-evidence/0.1"), w.id, raw.loaded.digest, w.originID,
      Ascii("archive_observation"), Ascii("historical"), false, Ascii("common_crawl"), c.collectionID, c.timestamp,
      p.targetURL, c.filename, c.offset, c.length, range.httpStatus, range.contentRange, p.providerDigest,
      DigestOf(e, raw.compressed), p.bodyDigest, |p.body|, p.httpStatus, p.mediaType, p.contentEncoding, p.contentLanguage)
  }

  // An artifact for a file that is in the directory.
  function Listed(e: Formats, files: Files, path: Bytes): Artifact {
    if path in files then ArtifactFor(e, path, files[path]) else Artifact(path, [], 0)
  }

  function CaptureManifestOf(e: Formats, raw: Raw, files: Files): CaptureManifest {
    CaptureManifest(Ascii("tw.archive-capture-manifest/0.1"), raw.loaded.order.id, raw.loaded.digest,
      if EvidencePath() in files then DigestOf(e, files[EvidencePath()]) else [],
      seq(7, i requires 0 <= i < 7 => Listed(e, files, FinalPaths()[i])))
  }

  /** The derived representation and the capture, then the final manifest. */
  function DerivedPlan(e: Formats, files: Files, range: RangeEvidence): Plan {
    var verified := VerifyRaw(e, files);
    if verified.None? then Plan([], None)
    else
      var raw := verified.value;
      var parsed := e.parse(raw.compressed, raw.capture, raw.loaded.order);
      if parsed.None? || |parsed.value.body| > raw.loaded.order.maxRetainedBodyBytes then Plan([], None)
      else
        var body := Write(BodyPath(), parsed.value.body);
        var evidence := CaptureEvidenceOf(e, raw, range, parsed.value);
        if !ValidCaptureEvidence(e, evidence, raw.loaded.order) || |e.putCapture(evidence)| > MAX_METADATA
        then Plan([body], None)
        else
          var capture := Write(CapturePath(), e.putCapture(evidence));
          var m := CaptureManifestOf(e, raw, files[body.path := body.data][capture.path := capture.data]);
          if !ValidCaptureManifest(m) || |e.putManifest(m)| > MAX_METADATA then Plan([body, capture], None)
          else Plan([body, capture, Write(ManifestPath(), e.putManifest(m))], Some(evidence))
  }

  // ----- verification --------------------------------------------------------

  predicate Reconciles(e: Formats, v: CaptureEvidence, raw: Raw, p: ParsedRecord) {
    var c := raw.capture;
    && ValidCaptureEvidence(e, v, raw.loaded.order) && v.workOrderDigest == raw.loaded.digest
    && v.originID == raw.loaded.order.originID && v.collectionID == c.collectionID && v.captureTimestamp == c.timestamp
    && v.targetURL == c.capturedURL && v.warcFile == c.filename && v.warcOffset == c.offset && v.warcLength == c.length
    && v.rangeHTTPStatus == raw.range.httpStatus && v.rangeContentRange == raw.range.contentRange
    && v.compressedRecordDigest == DigestOf(e, raw.compressed) && v.representationDigest == p.bodyDigest
    && v.representationSize == |p.body| && v.providerPayloadDigest == p.providerDigest && v.httpStatus == p.httpStatus
    && v.mediaType == p.mediaType && v.contentEncoding == p.contentEncoding && v.contentLanguage == p.contentLanguage
  }

  /** What verifying a spool returns. */
  function Verified(e: Formats, files: Files): Option<CaptureEvidence> {
    var data := ReadRegular(files, ManifestPath(), MAX_METADATA);
    if data.None? || e.manifest(data.value).None? then None
    else
      var m := e.manifest(data.value).value;
      var verified := VerifyRaw(e, files);
      if !ValidCaptureManifest(m) || !AllMatch(e, files, m.artifacts) || verified.None? then None
      else VerifyDerived(e, files, m, verified.value)
  }

  function VerifyDerived(e: Formats, files: Files, m: CaptureManifest, raw: Raw): Option<CaptureEvidence> {
    var evidence := ReadRegular(files, EvidencePath(), MAX_METADATA);
    var parsed := e.parse(raw.compressed, raw.capture, raw.loaded.order);
    var body := ReadRegular(files, BodyPath(), raw.loaded.order.maxRetainedBodyBytes);
    var capture := ReadRegular(files, CapturePath(), MAX_METADATA);
    if raw.loaded.digest != m.workOrderDigest || evidence.None? || DigestOf(e, evidence.value) != m.evidenceDigest
       || parsed.None? || body.None? || DigestOf(e, body.value) != parsed.value.bodyDigest
       || body.value != parsed.value.body || capture.None? || e.capture(capture.value).None? then None
    else
      var v := e.capture(capture.value).value;
      if Reconciles(e, v, raw, parsed.value) then Some(v) else None
  }

  // ----- paths are distinct --------------------------------------------------

  lemma PathsDistinct()
    ensures ManifestPath() !in {OrderPath(), IndexPath(), RangePath(), RecordPath(), EvidencePath(), BodyPath(), CapturePath()}
    ensures CapturePath() !in {OrderPath(), IndexPath(), RangePath(), RecordPath(), EvidencePath(), BodyPath()}
    ensures BodyPath() !in {OrderPath(), IndexPath(), RangePath(), RecordPath(), EvidencePath()}
    ensures EvidencePath() !in {OrderPath(), IndexPath(), RangePath(), RecordPath()}
    ensures RecordPath() !in {OrderPath(), IndexPath(), RangePath()} && RangePath() !in {OrderPath(), IndexPath()}
    ensures IndexPath() != OrderPath()
  {
    assert |OrderPath()| == 15 && |IndexPath()| == 17 && |RangePath()| == 19 && |RecordPath()| == 14;
    assert |EvidencePath()| == 22 && |BodyPath()| == 19 && |CapturePath()| == 12 && |ManifestPath()| == 13;
    assert RangePath()[1] != BodyPath()[1];
  }

  // ----- two phases ----------------------------------------------------------

  predicate SameFile(a: Files, b: Files, path: Bytes) {
    (path in a <==> path in b) && (path in a ==> a[path] == b[path])
  }

  // The two directories agree on the raw evidence.
  predicate SameRaw(a: Files, b: Files) {
    && SameFile(a, b, EvidencePath()) && SameFile(a, b, IndexPath()) && SameFile(a, b, RangePath())
    && SameFile(a, b, RecordPath()) && SameFile(a, b, OrderPath())
  }

  /** Verification of the raw evidence reads the raw evidence only. */
  lemma VerifyRawFrame(e: Formats, a: Files, b: Files)
    requires SameRaw(a, b)
    ensures VerifyRaw(e, a) == VerifyRaw(e, b)
  {
    hide EvidencePath, IndexPath, RangePath, RecordPath, OrderPath, VerifyListed, ValidEvidenceManifest, AllMatch;
    var data := ReadRegular(a, EvidencePath(), MAX_METADATA);
    if data.Some? && e.evidence(data.value).Some? {
      var m := e.evidence(data.value).value;
      if ValidEvidenceManifest(m) {
        RawMatchFrame(e, a, b, m);
      }
      ListedFrame(e, a, b, m);
    }
  }

  lemma RawMatchFrame(e: Formats, a: Files, b: Files, m: EvidenceManifest)
    requires SameRaw(a, b) && ValidEvidenceManifest(m)
    ensures AllMatch(e, a, m.artifacts) == AllMatch(e, b, m.artifacts)
  {
    hide EvidencePath, IndexPath, RangePath, RecordPath, OrderPath, ArtifactLimit;
    forall i | 0 <= i < |m.artifacts| ensures ArtifactMatches(e, a, m.artifacts[i]) == ArtifactMatches(e, b, m.artifacts[i]) {
      assert m.artifacts[i].path == RawPaths()[i];
    }
  }

  lemma ListedFrame(e: Formats, a: Files, b: Files, m: EvidenceManifest)
    requires SameRaw(a, b)
    ensures VerifyListed(e, a, m) == VerifyListed(e, b, m)
  {
    hide EvidencePath, IndexPath, RangePath, RecordPath, OrderPath, ResolveAll, Pairs, ValidOrder, ValidRangeEvidence;
  }

  // ----- plain texts ---------------------------------------------------------

  lemma AsciiPlain(v: Bytes)
    requires IsAscii(v) && |v| <= MAX_SCALAR
    ensures Plain(v)
  {
    AsciiIsUtf8(v);
  }

  lemma DigestPlain(v: Bytes)
    requires ValidDigest(v)
    ensures Plain(v)
  {
    assert forall i :: 0 <= i < 7 ==> v[i] == v[..7][i];
    AsciiPlain(v);
  }

  lemma CollectionPlain(v: Bytes)
    requires CollectionID(v)
    ensures Plain(v)
  {
    assert forall i :: 0 <= i < 8 ==> v[i] == v[..8][i];
    assert forall i :: 8 <= i < 12 ==> v[i] == v[8..12][i - 8];
    assert forall i :: 13 <= i < 15 ==> v[i] == v[13..][i - 13];
    AsciiPlain(v);
  }

  lemma ProviderPlain(v: Bytes)
    requires ProviderDigest(v)
    ensures Plain(v)
  {
    var rest := if HasPrefix(v, Ascii("sha1:")) then v[5..] else v;
    forall i | 0 <= i < |rest| ensures rest[i] < 128 {
      assert Base32(rest[i]);
    }
    assert v == v[..|v| - |rest|] + rest;
    AsciiPlain(v);
  }

  lemma RangeTextPlain(c: Capture, contentRange: Bytes)
    requires c.length > 0 && HasPrefix(contentRange, RangePrefix(c)) && |contentRange| <= 1024
    ensures Plain(RangeHeader(c))
  {
    hide Numeral;
    AsciiPlain(RangeHeader(c));
  }

  lemma RangePlain(e: Formats, r: RangeEvidence, c: Capture, compressed: Bytes, maximum: nat)
    requires Lawful(e) && ValidRangeEvidence(e, r, c, compressed, maximum)
    ensures e.range(e.putRange(r)) == Some(r)
  {
    hide SafeRelativePath, ProviderDigest, CollectionID, ValidUtf8, DigestText, RangeHeader, RangePrefix, HasSuffix;
    assert Plain(r.dataURL);
    RangeTextPlain(c, r.contentRange);
    AsciiPlain(r.format);
    DigestTextValid(e.hash(compressed));
    DigestPlain(r.bodyDigest);
    assert PlainRange(r);
  }

  // ----- what verified raw evidence guarantees -------------------------------

  lemma {:induction false} ResolvedIsParsed(e: Formats, w: WorkOrder, data: Bytes, pairs: seq<(Bytes, Bytes)>, c: Capture)
    requires c in ResolveAll(e, w, data, pairs)
    ensures ValidPlainText(c.filename, 4096)
    ensures exists p :: p in pairs && Resolve(e.index, w, data, p.0, p.1) == Some(c)
  {
    hide Resolve, ValidPlainText;
    var last := pairs[|pairs| - 1];
    if Resolve(e.index, w, data, last.0, last.1) == Some(c) {
      ResolvePlain(e, w, data, last.0, last.1);
    } else {
      ResolvedIsParsed(e, w, data, pairs[..|pairs| - 1], c);
    }
  }

  lemma ResolvePlain(e: Formats, w: WorkOrder, data: Bytes, collectionID: Bytes, route: Bytes)
    ensures var c := Resolve(e.index, w, data, collectionID, route);
            c.Some? ==> ValidPlainText(c.value.filename, 4096)
  {
    hide ParseIndexLine, ValidOrder, Selected, Filled, Lines, ValidPlainText;
  }

  // What VerifyRaw has checked of its result.
  predicate RawFacts(e: Formats, files: Files, raw: Raw) {
    var w := raw.loaded.order;
    var index := ReadRegular(files, IndexPath(), MAX_INDEX_LINE + 1);
    var range := ReadRegular(files, RangePath(), MAX_METADATA);
    && ReadRegular(files, OrderPath(), MAX_WORK_ORDER) == Some(raw.loaded.data)
    && e.order(raw.loaded.data) == Some(w) && raw.loaded.digest == DigestOf(e, raw.loaded.data)
    && ReadRegular(files, RecordPath(), w.maxCompressedRecordBytes) == Some(raw.compressed)
    && ReadRegular(files, EvidencePath(), MAX_METADATA).Some?
    && range.Some? && e.range(range.value) == Some(raw.range) && index.Some?
    && ResolveAll(e, w, index.value, Pairs(w.collectionIDs, w.permittedRoutes)) == [raw.capture]
    && ValidOrder(e.index.order, w)
    && ValidRangeEvidence(e, raw.range, raw.capture, raw.compressed, w.maxCompressedRecordBytes)
  }

  lemma RawIsChecked(e: Formats, files: Files)
    requires VerifyRaw(e, files).Some?
    ensures RawFacts(e, files, VerifyRaw(e, files).value)
  {
    hide ValidOrder, ValidRangeEvidence, ResolveAll, Pairs, OrderPath, RecordPath, IndexPath, EvidencePath, RangePath;
    hide ValidEvidenceManifest, AllMatch, DigestText;
    var raw := VerifyRaw(e, files).value;
    var w := raw.loaded.order;
    var found := ResolveAll(e, w, files[IndexPath()], Pairs(w.collectionIDs, w.permittedRoutes));
    assert found == [found[0]];
  }

  // ----- agreement of publication and verification ---------------------------

  // The directory once the derived files and the final manifest are in place.
  function Completed(files: Files, body: Bytes, capture: Bytes, manifest: Bytes): Files {
    files[BodyPath() := body][CapturePath() := capture][ManifestPath() := manifest]
  }

  lemma CompletedFiles(files: Files, body: Bytes, capture: Bytes, manifest: Bytes)
    ensures var all := Completed(files, body, capture, manifest);
            var before := files[BodyPath() := body][CapturePath() := capture];
            && SameRaw(files, all)
            && BodyPath() in all && all[BodyPath()] == body && CapturePath() in all && all[CapturePath()] == capture
            && ManifestPath() in all && all[ManifestPath()] == manifest
            && forall i :: 0 <= i < 7 ==> SameFile(before, all, FinalPaths()[i])
  {
    hide EvidencePath, IndexPath, RangePath, RecordPath, OrderPath, BodyPath, CapturePath, ManifestPath;
    PathsDistinct();
  }

  predicate ReadableRaw(files: Files) {
    && ReadRegular(files, EvidencePath(), MAX_METADATA).Some? && ReadRegular(files, RangePath(), MAX_METADATA).Some?
    && ReadRegular(files, IndexPath(), MAX_INDEX_LINE + 1).Some? && ReadRegular(files, OrderPath(), MAX_WORK_ORDER).Some?
    && ReadRegular(files, RecordPath(), MAX_COMPRESSED).Some?
  }

  lemma RawReadable(e: Formats, files: Files, raw: Raw)
    requires RawFacts(e, files, raw)
    ensures ReadableRaw(files)
  {
    hide EvidencePath, IndexPath, RangePath, RecordPath, OrderPath, ResolveAll, Pairs, ValidRangeEvidence, DigestText;
    BudgetFacts(e, raw.loaded.order);
    hide ValidOrder;
  }

  lemma BudgetFacts(e: Formats, w: WorkOrder)
    requires ValidOrder(e.index.order, w)
    ensures w.maxCompressedRecordBytes <= MAX_COMPRESSED && w.maxRetainedBodyBytes <= MAX_RETAINED_BODY
    ensures ValidID(w.id) && ValidID(w.originID)
    ensures forall c :: c in w.collectionIDs ==> CollectionID(c)
  {
    hide ValidSelections, ValidAuthority, SortedUniqueTexts, CollectionID, ValidID;
  }

  // Every listed artifact is there with its digest and size, within its read limit.
  lemma FinalArtifactsMatch(e: Formats, files: Files, raw: Raw, body: Bytes, capture: Bytes, manifest: Bytes)
    requires ReadableRaw(files) && 0 < |body| <= MAX_RETAINED_BODY && 0 < |capture| <= MAX_METADATA
    ensures var m := CaptureManifestOf(e, raw, files[BodyPath() := body][CapturePath() := capture]);
            AllMatch(e, Completed(files, body, capture, manifest), m.artifacts)
  {
    hide EvidencePath, IndexPath, RangePath, RecordPath, OrderPath, BodyPath, CapturePath, ManifestPath, DigestOf, Completed;
    CompletedFiles(files, body, capture, manifest);
    PathsDistinct();
    var before := files[BodyPath() := body][CapturePath() := capture];
    var m := CaptureManifestOf(e, raw, before);
    forall i | 0 <= i < 7 ensures ArtifactMatches(e, Completed(files, body, capture, manifest), m.artifacts[i]) {
      var path := FinalPaths()[i];
      assert m.artifacts[i] == Listed(e, before, path);
      assert path in before && 0 < |before[path]| <= ArtifactLimit(path);
    }
  }

  lemma ManifestReadsBack(e: Formats, m: CaptureManifest)
    requires Lawful(e) && ValidCaptureManifest(m)
    ensures e.manifest(e.putManifest(m)) == Some(m) && |e.putManifest(m)| > 0
  {
    hide ValidDigest, Plain, Lawful, FinalPaths;
    FinalPathsPlain();
    AsciiPlain(m.format);
    AsciiPlain(m.workOrderID);
    DigestPlain(m.workOrderDigest);
    DigestPlain(m.evidenceDigest);
    forall i | 0 <= i < 7 ensures Plain(m.artifacts[i].path) && Plain(m.artifacts[i].digest) {
      assert m.artifacts[i].path == FinalPaths()[i];
      DigestPlain(m.artifacts[i].digest);
    }
    assert PlainManifest(m);
    hide PlainManifest;
    ManifestLaw(e, m);
  }

  lemma ManifestLaw(e: Formats, m: CaptureManifest)
    requires Lawful(e) && PlainManifest(m)
    ensures e.manifest(e.putManifest(m)) == Some(m) && |e.putManifest(m)| > 0
  {
    hide PlainManifest;
  }

  lemma FinalPathsPlain()
    ensures |FinalPaths()| == 7 && forall i :: 0 <= i < 7 ==> Plain(FinalPaths()[i])
  {
    forall i | 0 <= i < 7 ensures Plain(FinalPaths()[i]) {
      AsciiPlain(FinalPaths()[i]);
    }
  }

  lemma EvidenceReadsBack(e: Formats, files: Files, raw: Raw, v: CaptureEvidence)
    requires Lawful(e) && RawFacts(e, files, raw) && ValidCaptureEvidence(e, v, raw.loaded.order)
    requires v.warcFile == raw.capture.filename
    ensures e.capture(e.putCapture(v)) == Some(v.(contentEncoding := e.coerce(v.contentEncoding),
                                                 contentLanguage := e.coerce(v.contentLanguage)))
    ensures |e.putCapture(v)| > 0
  {
    hide PlainCapture;
    EvidencePlain(e, files, raw, v);
  }

  lemma EvidencePlain(e: Formats, files: Files, raw: Raw, v: CaptureEvidence)
    requires Lawful(e) && RawFacts(e, files, raw) && ValidCaptureEvidence(e, v, raw.loaded.order)
    requires v.warcFile == raw.capture.filename
    ensures PlainCapture(v)
  {
    hide RawFacts, Lawful, ValidOrder, ValidDigest, ProviderDigest, ValidWARCPath, ValidRange, CollectionID, ValidUtf8;
    RawPlain(e, files, raw);
    FixedPlain(v);
    AsciiPlain(v.workOrderID);
    AsciiPlain(v.originID);
    DigestPlain(v.workOrderDigest);
    DigestPlain(v.compressedRecordDigest);
    DigestPlain(v.representationDigest);
    ProviderPlain(v.providerPayloadDigest);
    CollectionPlain(v.collectionID);
  }

  lemma FixedPlain(v: CaptureEvidence)
    requires v.format == Ascii("tw.archive-capture-evidence/0.1") && v.evidenceClass == Ascii("archive_observation")
    requires v.freshness == Ascii("historical") && v.observedBy == Ascii("common_crawl")
    ensures Plain(v.format) && Plain(v.evidenceClass) && Plain(v.freshness) && Plain(v.observedBy)
  {
    AsciiPlain(v.format);
    AsciiPlain(v.evidenceClass);
    AsciiPlain(v.freshness);
    AsciiPlain(v.observedBy);
  }

  lemma RawPlain(e: Formats, files: Files, raw: Raw)
    requires Lawful(e) && RawFacts(e, files, raw)
    ensures Plain(raw.capture.filename)
    ensures forall v :: v in raw.loaded.order.permittedRoutes ==> Plain(v)
    ensures forall v :: e.index.order.timestamp(v) ==> Plain(v)
    ensures ValidID(raw.loaded.order.id) && ValidID(raw.loaded.order.originID)
    ensures forall c :: c in raw.loaded.order.collectionIDs ==> CollectionID(c)
  {
    hide Lawful, ValidOrder, ValidRangeEvidence, ResolveAll, Pairs, DigestText, CollectionID, ValidID;
    hide OrderPath, RecordPath, IndexPath, EvidencePath, RangePath;
    var w := raw.loaded.order;
    var index := files[IndexPath()];
    assert raw.capture in ResolveAll(e, w, index, Pairs(w.collectionIDs, w.permittedRoutes));
    ResolvedIsParsed(e, w, index, Pairs(w.collectionIDs, w.permittedRoutes), raw.capture);
    RoutesPlain(e, raw.loaded.data, w);
    BudgetFacts(e, w);
  }

  lemma RoutesPlain(e: Formats, data: Bytes, w: WorkOrder)
    requires Lawful(e) && e.order(data) == Some(w)
    ensures forall v :: v in w.permittedRoutes ==> Plain(v)
    ensures forall v :: e.index.order.timestamp(v) ==> Plain(v)
  {
  }

  // Both archived response headers survive JSON.
  predicate HeadersUtf8(v: CaptureEvidence) {
    ValidUtf8(v.contentEncoding) && ValidUtf8(v.contentLanguage)
  }

  lemma ParseFacts(e: Formats, raw: Raw)
    requires Lawful(e)
    ensures var p := e.parse(raw.compressed, raw.capture, raw.loaded.order);
            p.Some? ==> p.value.targetURL == raw.capture.capturedURL && p.value.bodyDigest == DigestOf(e, p.value.body)
                        && |p.value.body| <= MAX_RETAINED_BODY
  {
  }

  // The last check, on the evidence as JSON gives it back.
  lemma Reconciliation(e: Formats, raw: Raw, p: ParsedRecord, v: CaptureEvidence)
    requires Lawful(e) && v == CaptureEvidenceOf(e, raw, raw.range, p) && ValidCaptureEvidence(e, v, raw.loaded.order)
    requires p.targetURL == raw.capture.capturedURL
    ensures var back := v.(contentEncoding := e.coerce(v.contentEncoding), contentLanguage := e.coerce(v.contentLanguage));
            if HeadersUtf8(v) then back == v && Reconciles(e, back, raw, p) else !Reconciles(e, back, raw, p)
  {
    hide ValidCaptureEvidence, DigestText, ValidUtf8;
  }

  lemma DerivedAgrees(e: Formats, files: Files, range: RangeEvidence)
    requires Lawful(e) && DerivedPlan(e, files, range).evidence.Some? && VerifyRaw(e, files).value.range == range
    ensures var plan := DerivedPlan(e, files, range);
            && |plan.writes| == 3 && plan.writes[0].path == BodyPath() && plan.writes[1].path == CapturePath()
            && plan.writes[2].path == ManifestPath()
            && Verified(e, Completed(files, plan.writes[0].data, plan.writes[1].data, plan.writes[2].data))
               == if HeadersUtf8(plan.evidence.value) then plan.evidence else None
  {
    hide EvidencePath, IndexPath, RangePath, RecordPath, OrderPath, BodyPath, CapturePath, ManifestPath, FinalPaths;
    hide Lawful, VerifyRaw, ValidCaptureEvidence, ValidCaptureManifest, CaptureEvidenceOf, CaptureManifestOf, HeadersUtf8;
    var plan := DerivedPlan(e, files, range);
    var raw := VerifyRaw(e, files).value;
    var p := e.parse(raw.compressed, raw.capture, raw.loaded.order).value;
    var v := CaptureEvidenceOf(e, raw, range, p);
    var m := CaptureManifestOf(e, raw, files[BodyPath() := p.body][CapturePath() := e.putCapture(v)]);
    assert plan.evidence == Some(v) && plan.writes[2].data == e.putManifest(m);
    assert plan.writes[0].data == p.body && plan.writes[1].data == e.putCapture(v);
    DerivedVerified(e, files, raw, p, v, m);
  }

  lemma DerivedVerified(e: Formats, files: Files, raw: Raw, p: ParsedRecord, v: CaptureEvidence, m: CaptureManifest)
    requires Lawful(e) && VerifyRaw(e, files) == Some(raw)
    requires e.parse(raw.compressed, raw.capture, raw.loaded.order) == Some(p) && |p.body| <= raw.loaded.order.maxRetainedBodyBytes
    requires v == CaptureEvidenceOf(e, raw, raw.range, p) && ValidCaptureEvidence(e, v, raw.loaded.order)
    requires |e.putCapture(v)| <= MAX_METADATA && |e.putManifest(m)| <= MAX_METADATA && ValidCaptureManifest(m)
    requires m == CaptureManifestOf(e, raw, files[BodyPath() := p.body][CapturePath() := e.putCapture(v)])
    ensures Verified(e, Completed(files, p.body, e.putCapture(v), e.putManifest(m))) == if HeadersUtf8(v) then Some(v) else None
  {
    hide EvidencePath, IndexPath, RangePath, RecordPath, OrderPath, BodyPath, CapturePath, ManifestPath, FinalPaths;
    hide Lawful, VerifyRaw, ValidCaptureEvidence, ValidCaptureManifest, CaptureManifestOf, HeadersUtf8, RawFacts, AllMatch;
    hide Completed, VerifyDerived, CaptureEvidenceOf;
    var capture, manifest := e.putCapture(v), e.putManifest(m);
    var all := Completed(files, p.body, capture, manifest);
    SizePositive(e, raw, p, v);
    RawIsChecked(e, files);
    RawReadable(e, files, raw);
    ParseFacts(e, raw);
    EvidenceReadsBack(e, files, raw, v);
    ManifestReadsBack(e, m);
    FinalArtifactsMatch(e, files, raw, p.body, capture, manifest);
    CompletedFiles(files, p.body, capture, manifest);
    VerifyRawFrame(e, files, all);
    DerivedChecks(e, files, all, raw, p, v, m);
  }

  lemma SizePositive(e: Formats, raw: Raw, p: ParsedRecord, v: CaptureEvidence)
    requires v == CaptureEvidenceOf(e, raw, raw.range, p) && ValidCaptureEvidence(e, v, raw.loaded.order)
    ensures |p.body| > 0 && v.warcFile == raw.capture.filename
  {
    hide ValidOrder, ValidRange, ValidDigest, ProviderDigest, ValidWARCPath;
  }

  lemma DerivedChecks(e: Formats, files: Files, all: Files, raw: Raw, p: ParsedRecord, v: CaptureEvidence, m: CaptureManifest)
    requires Lawful(e) && RawFacts(e, files, raw) && SameRaw(files, all)
    requires e.parse(raw.compressed, raw.capture, raw.loaded.order) == Some(p)
    requires 0 < |p.body| <= raw.loaded.order.maxRetainedBodyBytes
    requires v == CaptureEvidenceOf(e, raw, raw.range, p) && ValidCaptureEvidence(e, v, raw.loaded.order)
    requires 0 < |e.putCapture(v)| <= MAX_METADATA && v.warcFile == raw.capture.filename
    requires BodyPath() in all && all[BodyPath()] == p.body && CapturePath() in all && all[CapturePath()] == e.putCapture(v)
    requires m == CaptureManifestOf(e, raw, files[BodyPath() := p.body][CapturePath() := e.putCapture(v)])
    ensures VerifyDerived(e, all, m, raw) == if HeadersUtf8(v) then Some(v) else None
  {
    hide IndexPath, RangePath, RecordPath, OrderPath, BodyPath, CapturePath, EvidencePath, FinalPaths, Lawful;
    hide ValidCaptureEvidence, CaptureEvidenceOf, HeadersUtf8, DigestOf, ValidOrder, ValidRangeEvidence, ResolveAll, Pairs, Reconciles;
    assert EvidencePath() !in {BodyPath(), CapturePath()} by { PathsDistinct(); }
    EvidenceReadsBack(e, files, raw, v);
    ParseFacts(e, raw);
    Reconciliation(e, raw, p, v);
  }

  lemma {:induction false} Placed(writes: seq<Write>, path: Bytes)
    ensures path in Place(writes) <==> exists w :: w in writes && w.path == path
  {
    if writes != [] {
      var init, last := writes[..|writes| - 1], writes[|writes| - 1];
      Placed(init, path);
      assert writes == init + [last];
    }
  }

  lemma PlaceThree(writes: seq<Write>, a: Write, b: Write, c: Write)
    ensures Place(writes + [a, b, c]) == Place(writes)[a.path := a.data][b.path := b.data][c.path := c.data]
  {
    PlaceLast(writes, a);
    PlaceLast(writes + [a], b);
    PlaceLast(writes + [a] + [b], c);
    assert writes + [a, b, c] == writes + [a] + [b] + [c];
  }

  lemma PlaceLast(writes: seq<Write>, w: Write)
    ensures Place(writes + [w]) == Place(writes)[w.path := w.data]
  {
    assert (writes + [w])[..|writes|] == writes;
  }

  // The raw evidence and its manifest, as written.
  function SealedWrites(e: Formats, i: Input): (writes: seq<Write>)
    requires i.capture.length > 0
    ensures |writes| == 5
  {
    var rangeBytes := e.putRange(RangeEvidenceOf(e, i));
    RawWrites(i, rangeBytes) + [Write(EvidencePath(), e.putEvidence(EvidenceManifestOf(e, i, rangeBytes)))]
  }

  lemma RawPlanShape(e: Formats, i: Input)
    requires RawPlan(e, i).evidence.Some?
    ensures i.capture.length > 0
    ensures var range := RangeEvidenceOf(e, i);
            var derived := DerivedPlan(e, Place(SealedWrites(e, i)), range);
            && ValidRangeEvidence(e, range, i.capture, i.compressed, i.loaded.order.maxCompressedRecordBytes)
            && RawPlan(e, i) == Prefixed(SealedWrites(e, i), derived)
  {
    hide EvidencePath, IndexPath, RangePath, RecordPath, OrderPath, DerivedPlan, Place, ValidEvidenceManifest;
    hide EvidenceManifestOf, ValidOrder, ValidIdentity, RangePrefix, RangeEvidenceOf, DigestText, RawWrites;
    IdentityLength(e, i.capture);
  }

  lemma IdentityLength(e: Formats, c: Capture)
    requires ValidIdentity(e.index, c)
    ensures c.length > 0
  {
  }

  // The directory holds exactly what was written, file by file.
  lemma SealedFiles(e: Formats, i: Input)
    requires i.capture.length > 0
    ensures var files, rangeBytes := Place(SealedWrites(e, i)), e.putRange(RangeEvidenceOf(e, i));
            && files == map[OrderPath() := i.loaded.data, IndexPath() := i.capture.raw + [10], RangePath() := rangeBytes,
                            RecordPath() := i.compressed,
                            EvidencePath() := e.putEvidence(EvidenceManifestOf(e, i, rangeBytes))]
  {
    hide EvidencePath, IndexPath, RangePath, RecordPath, OrderPath, EvidenceManifestOf, RangeEvidenceOf;
    PathsDistinct();
    var w := SealedWrites(e, i);
    PlaceThree(w[..2], w[2], w[3], w[4]);
    assert w == w[..2] + [w[2], w[3], w[4]];
    PlaceLast(w[..1], w[1]);
    PlaceLast([], w[0]);
    assert w[..2] == w[..1] + [w[1]] && w[..1] == [] + [w[0]];
  }

  /** The record that gets parsed: that of the one capture to which the index record resolves in
    * the order that the sealed bytes decode to. */
  function InputRecord(e: Formats, i: Input): Option<ParsedRecord> {
    var w := e.order(i.loaded.data);
    if w.None? then None
    else
      var captures := ResolveAll(e, w.value, i.capture.raw + [10], Pairs(w.value.collectionIDs, w.value.permittedRoutes));
      if |captures| != 1 then None else e.parse(i.compressed, captures[0], w.value)
  }

  /** Both archived response headers of a record are UTF-8. */
  predicate RecordUtf8(p: ParsedRecord) {
    ValidUtf8(p.contentEncoding) && ValidUtf8(p.contentLanguage)
  }

  // The evidence that publication reports has the headers of the record.
  lemma EvidenceOfRecord(e: Formats, i: Input)
    requires RawPlan(e, i).evidence.Some?
    ensures InputRecord(e, i).Some?
    ensures HeadersUtf8(RawPlan(e, i).evidence.value) == RecordUtf8(InputRecord(e, i).value)
  {
    hide RawPlan, DerivedPlan, SealedWrites, VerifyRaw, RawFacts, ValidRangeEvidence, RangeEvidenceOf, ResolveAll, Pairs;
    hide EvidencePath, IndexPath, RangePath, RecordPath, OrderPath, BodyPath, CapturePath, ManifestPath, ValidOrder;
    RawPlanShape(e, i);
    var files, range := Place(SealedWrites(e, i)), RangeEvidenceOf(e, i);
    DerivedNeedsRaw(e, files, range);
    RawIsChecked(e, files);
    SealedFiles(e, i);
    PathsDistinct();
    var raw := VerifyRaw(e, files).value;
    RawInput(e, i, files, raw);
    DerivedEvidence(e, files, range);
  }

  lemma RawInput(e: Formats, i: Input, files: Files, raw: Raw)
    requires RawFacts(e, files, raw)
    requires OrderPath() in files && files[OrderPath()] == i.loaded.data
    requires IndexPath() in files && files[IndexPath()] == i.capture.raw + [10]
    requires RecordPath() in files && files[RecordPath()] == i.compressed
    ensures InputRecord(e, i) == e.parse(raw.compressed, raw.capture, raw.loaded.order)
  {
    hide ResolveAll, Pairs, ValidOrder, ValidRangeEvidence, OrderPath, IndexPath, RecordPath, RangePath, EvidencePath;
  }

  lemma DerivedEvidence(e: Formats, files: Files, range: RangeEvidence)
    requires VerifyRaw(e, files).Some? && DerivedPlan(e, files, range).evidence.Some?
    ensures var raw, v := VerifyRaw(e, files).value, DerivedPlan(e, files, range).evidence.value;
            var p := e.parse(raw.compressed, raw.capture, raw.loaded.order);
            p.Some? && v.contentEncoding == p.value.contentEncoding && v.contentLanguage == p.value.contentLanguage
  {
    hide VerifyRaw, ValidCaptureEvidence, ValidCaptureManifest, CaptureManifestOf;
  }

  /** If publication succeeds, verification returns the same evidence, exactly when both archived
    * headers of the parsed record are UTF-8; otherwise it returns nothing. */
  lemma PublishVerifies(e: Formats, i: Input)
    requires Lawful(e) && RawPlan(e, i).evidence.Some?
    ensures InputRecord(e, i).Some?
    ensures var plan := RawPlan(e, i);
            Verified(e, Place(plan.writes)) == if RecordUtf8(InputRecord(e, i).value) then plan.evidence else None
  {
    hide Lawful, RawPlan, DerivedPlan, SealedWrites, Verified, HeadersUtf8, VerifyRaw, RawFacts, ValidRangeEvidence, RangeEvidenceOf;
    hide BodyPath, CapturePath, ManifestPath, EvidencePath, IndexPath, RangePath, RecordPath, OrderPath, InputRecord, RecordUtf8;
    EvidenceOfRecord(e, i);
    RawPlanShape(e, i);
    var range := RangeEvidenceOf(e, i);
    var sealed := SealedWrites(e, i);
    var files := Place(sealed);
    var derived := DerivedPlan(e, files, range);
    DerivedNeedsRaw(e, files, range);
    RawIsChecked(e, files);
    SealedFiles(e, i);
    PathsDistinct();
    RangePlain(e, range, i.capture, i.compressed, i.loaded.order.maxCompressedRecordBytes);
    RawRange(e, files, VerifyRaw(e, files).value);
    DerivedAgrees(e, files, range);
    var w := derived.writes;
    PlaceThree(sealed, w[0], w[1], w[2]);
    assert w == [w[0], w[1], w[2]];
  }

  lemma RawRange(e: Formats, files: Files, raw: Raw)
    requires RawFacts(e, files, raw)
    ensures RangePath() in files && e.range(files[RangePath()]) == Some(raw.range)
  {
    hide ValidOrder, ValidRangeEvidence, ResolveAll, Pairs;
  }

  lemma DerivedNeedsRaw(e: Formats, files: Files, range: RangeEvidence)
    ensures DerivedPlan(e, files, range).evidence.Some? ==> VerifyRaw(e, files).Some?
  {
    hide VerifyRaw, ValidCaptureEvidence, ValidCaptureManifest, CaptureEvidenceOf, CaptureManifestOf;
  }

  /** Crash points: whatever prefix of the writes a crash leaves, unless publication completed,
    * verification fails; and before the evidence manifest is written, so does the raw check that
    * guards the record parser. */
  lemma CrashesFail(e: Formats, i: Input, n: nat)
    requires n <= |RawPlan(e, i).writes|
    ensures n < |RawPlan(e, i).writes| || RawPlan(e, i).evidence.None? ==> Verified(e, Place(RawPlan(e, i).writes[..n])) == None
    ensures n <= 4 ==> VerifyRaw(e, Place(RawPlan(e, i).writes[..n])) == None
  {
    hide VerifyListed, ValidCaptureManifest, AllMatch, VerifyDerived, ValidEvidenceManifest, EvidencePath, ManifestPath;
    hide RawPlan, Place, VerifyRaw;
    var plan := RawPlan(e, i);
    var done := plan.writes[..n];
    PlanOrder(e, i);
    Placed(done, ManifestPath());
    Placed(done, EvidencePath());
    NoEvidenceNoRaw(e, Place(done));
  }

  lemma NoEvidenceNoRaw(e: Formats, files: Files)
    ensures EvidencePath() !in files ==> VerifyRaw(e, files) == None
  {
    hide VerifyListed, AllMatch, ValidEvidenceManifest, EvidencePath;
  }

  // The evidence manifest is the fifth write, the final manifest the last of a complete plan.
  lemma PlanOrder(e: Formats, i: Input)
    ensures var plan := RawPlan(e, i);
            && (forall k :: 0 <= k < |plan.writes| && plan.writes[k].path == EvidencePath() ==> k == 4)
            && (forall k :: 0 <= k < |plan.writes| && plan.writes[k].path == ManifestPath() ==>
                  k == |plan.writes| - 1 && plan.evidence.Some?)
  {
    hide EvidencePath, IndexPath, RangePath, RecordPath, OrderPath, BodyPath, CapturePath, ManifestPath, Place;
    hide SelfConsistent, ValidRangeEvidence, ValidEvidenceManifest, EvidenceManifestOf, RangeEvidenceOf, VerifyRaw;
    hide ValidCaptureEvidence, ValidCaptureManifest, CaptureEvidenceOf, CaptureManifestOf;
    PathsDistinct();
  }

  /** The one index record of verified raw evidence resolves, to its capture, under exactly one
    * collection and route of its order, and under no other pair at all. */
  lemma ResolvesUniquely(e: Formats, files: Files)
    requires VerifyRaw(e, files).Some?
    ensures var raw := VerifyRaw(e, files).value;
            var w, index := raw.loaded.order, ReadRegular(files, IndexPath(), MAX_INDEX_LINE + 1);
            && index.Some?
            && exists c, r :: c in w.collectionIDs && r in w.permittedRoutes
                 && Resolve(e.index, w, index.value, c, r) == Some(raw.capture)
                 && forall c', r' :: Resolve(e.index, w, index.value, c', r').Some? ==> c' == c && r' == r
  {
    hide VerifyRaw, IndexPath, Resolve, ValidOrder, ValidRangeEvidence, DigestText;
    RawIsChecked(e, files);
    var raw := VerifyRaw(e, files).value;
    var w, index := raw.loaded.order, ReadRegular(files, IndexPath(), MAX_INDEX_LINE + 1).value;
    var pairs := Pairs(w.collectionIDs, w.permittedRoutes);
    assert raw.capture in ResolveAll(e, w, index, pairs);
    ResolvedIsParsed(e, w, index, pairs, raw.capture);
    var p :| p in pairs && Resolve(e.index, w, index, p.0, p.1) == Some(raw.capture);
    PairsExact(w.collectionIDs, w.permittedRoutes, p);
    forall c', r' | Resolve(e.index, w, index, c', r').Some? ensures c' == p.0 && r' == p.1 {
      ResolvesOnce(e.index, w, index, c', r', p.0, p.1);
    }
  }

  lemma {:induction false} PairsExact(collections: seq<Bytes>, routes: seq<Bytes>, p: (Bytes, Bytes))
    requires p in Pairs(collections, routes)
    ensures p.0 in collections && p.1 in routes
  {
    var init, c := collections[..|collections| - 1], collections[|collections| - 1];
    if p in Pairs(init, routes) {
      PairsExact(init, routes, p);
    }
  }

  // ----- the verifiers -------------------------------------------------------

  /** Reads and rehashes every listed artifact in turn. */
  method CheckArtifacts(e: Formats, files: Files, artifacts: seq<Artifact>) returns (ok: bool)
    ensures ok == AllMatch(e, files, artifacts)
  {
    hide ArtifactLimit, DigestText;
    for i := 0 to |artifacts|
      invariant forall k :: 0 <= k < i ==> ArtifactMatches(e, files, artifacts[k])
    {
      var a := artifacts[i];
      var data := ReadRegular(files, a.path, ArtifactLimit(a.path));
      if data.None? || DigestOf(e, data.value) != a.digest || |data.value| != a.size {
        assert !ArtifactMatches(e, files, artifacts[i]);
        return false;
      }
    }
    ok := true;
  }

  /** Tries the index record under every collection and every route. */
  method ResolveEverywhere(e: Formats, w: WorkOrder, data: Bytes) returns (captures: seq<Capture>)
    ensures captures == ResolveAll(e, w, data, Pairs(w.collectionIDs, w.permittedRoutes))
  {
    hide Resolve;
    captures := [];
    ghost var done: seq<(Bytes, Bytes)> := [];
    for i := 0 to |w.collectionIDs|
      invariant done == Pairs(w.collectionIDs[..i], w.permittedRoutes)
      invariant captures == ResolveAll(e, w, data, done)
    {
      var c := w.collectionIDs[i];
      ghost var before := done;
      for j := 0 to |w.permittedRoutes|
        invariant done == before + seq(j, k requires 0 <= k < j => (c, w.permittedRoutes[k]))
        invariant captures == ResolveAll(e, w, data, done)
      {
        var route := w.permittedRoutes[j];
        var found := ParseIndexResponse(e.index, w, data, c, route);
        if found.Some? {
          captures := captures + found.value;
        }
        ResolveNext(e, w, data, done, (c, route));
        done := done + [(c, route)];
      }
      PairsNext(w.collectionIDs, w.permittedRoutes, i);
    }
    assert w.collectionIDs[..|w.collectionIDs|] == w.collectionIDs;
  }

  lemma ResolveNext(e: Formats, w: WorkOrder, data: Bytes, pairs: seq<(Bytes, Bytes)>, p: (Bytes, Bytes))
    ensures ResolveAll(e, w, data, pairs + [p])
            == ResolveAll(e, w, data, pairs)
               + (var found := Resolve(e.index, w, data, p.0, p.1); if found.Some? then [found.value] else [])
  {
    assert (pairs + [p])[..|pairs|] == pairs;
  }

  lemma PairsNext(collections: seq<Bytes>, routes: seq<Bytes>, i: nat)
    requires i < |collections|
    ensures Pairs(collections[..i + 1], routes)
            == Pairs(collections[..i], routes) + seq(|routes|, k requires 0 <= k < |routes| => (collections[i], routes[k]))
  {
    assert collections[..i + 1][..i] == collections[..i];
  }

  method VerifyRawEvidence(e: Formats, files: Files) returns (raw: Option<Raw>)
    ensures raw == VerifyRaw(e, files)
  {
    hide EvidencePath, IndexPath, RangePath, RecordPath, OrderPath, ValidEvidenceManifest, AllMatch, ResolveAll, Pairs;
    hide ValidRangeEvidence, DigestText, ValidOrder;
    var data := ReadRegular(files, EvidencePath(), MAX_METADATA);
    if data.None? || e.evidence(data.value).None? {
      return None;
    }
    var m := e.evidence(data.value).value;
    if !ValidEvidenceManifest(m) {
      return None;
    }
    var matching := CheckArtifacts(e, files, m.artifacts);
    if !matching {
      return None;
    }
    var orderBytes := ReadRegular(files, OrderPath(), MAX_WORK_ORDER);
    if orderBytes.None? || DigestOf(e, orderBytes.value) != m.workOrderDigest || e.order(orderBytes.value).None? {
      return None;
    }
    var w := e.order(orderBytes.value).value;
    var valid := ValidateOrder(e.index.order, w);
    var indexBytes := ReadRegular(files, IndexPath(), MAX_INDEX_LINE + 1);
    if w.id != m.workOrderID || !valid || indexBytes.None? {
      return None;
    }
    var captures := ResolveEverywhere(e, w, indexBytes.value);
    if |captures| != 1 {
      return None;
    }
    var compressed := ReadRegular(files, RecordPath(), w.maxCompressedRecordBytes);
    if compressed.None? || |compressed.value| != captures[0].length {
      return None;
    }
    var rangeBytes := ReadRegular(files, RangePath(), MAX_METADATA);
    if rangeBytes.None? || e.range(rangeBytes.value).None? {
      return None;
    }
    var range := e.range(rangeBytes.value).value;
    if !ValidRangeEvidence(e, range, captures[0], compressed.value, w.maxCompressedRecordBytes) {
      return None;
    }
    raw := Some(Raw(Loaded(w, m.workOrderDigest, orderBytes.value), captures[0], compressed.value, range));
  }

  /** The verifier: manifest, artifacts, raw evidence, then everything derived from it. */
  method VerifySpool(e: Formats, files: Files) returns (evidence: Option<CaptureEvidence>)
    ensures evidence == Verified(e, files)
  {
    hide ManifestPath, ValidCaptureManifest, AllMatch, VerifyRaw, VerifyDerived, RawFacts;
    var data := ReadRegular(files, ManifestPath(), MAX_METADATA);
    if data.None? || e.manifest(data.value).None? {
      return None;
    }
    var m := e.manifest(data.value).value;
    if !ValidCaptureManifest(m) {
      return None;
    }
    var matching := CheckArtifacts(e, files, m.artifacts);
    if !matching {
      return None;
    }
    var raw := VerifyRawEvidence(e, files);
    if raw.None? {
      return None;
    }
    RawIsChecked(e, files);
    evidence := VerifyRest(e, files, m, raw.value);
  }

  /** What was derived: the body against the record parsed again, the range response read again, and
    * the capture evidence against the order, the capture, the range response and the record. */
  method VerifyRest(e: Formats, files: Files, m: CaptureManifest, raw: Raw) returns (evidence: Option<CaptureEvidence>)
    requires RawFacts(e, files, raw)
    ensures evidence == VerifyDerived(e, files, m, raw)
  {
    hide EvidencePath, BodyPath, CapturePath, RangePath, RecordPath, IndexPath, OrderPath;
    hide ValidCaptureEvidence, DigestText, ValidOrder, ResolveAll, Pairs, ValidRangeEvidence;
    if raw.loaded.digest != m.workOrderDigest {
      return None;
    }
    var sealed := ReadRegular(files, EvidencePath(), MAX_METADATA);
    if sealed.None? || DigestOf(e, sealed.value) != m.evidenceDigest {
      return None;
    }
    var parsed := e.parse(raw.compressed, raw.capture, raw.loaded.order);
    if parsed.None? {
      return None;
    }
    var p, c := parsed.value, raw.capture;
    var body := ReadRegular(files, BodyPath(), raw.loaded.order.maxRetainedBodyBytes);
    if body.None? || DigestOf(e, body.value) != p.bodyDigest || body.value != p.body {
      return None;
    }
    var captureBytes := ReadRegular(files, CapturePath(), MAX_METADATA);
    if captureBytes.None? {
      return None;
    }
    var rangeBytes := ReadRegular(files, RangePath(), MAX_METADATA);
    if rangeBytes.None? || e.range(rangeBytes.value).None? {
      return None;
    }
    var range := e.range(rangeBytes.value).value;
    if !ValidRangeEvidence(e, range, c, raw.compressed, raw.loaded.order.maxCompressedRecordBytes) {
      return None;
    }
    var decoded := e.capture(captureBytes.value);
    if decoded.None? || !ValidCaptureEvidence(e, decoded.value, raw.loaded.order) {
      return None;
    }
    var v := decoded.value;
    if v.workOrderDigest != raw.loaded.digest || v.originID != raw.loaded.order.originID
       || v.collectionID != c.collectionID || v.captureTimestamp != c.timestamp || v.targetURL != c.capturedURL
       || v.warcFile != c.filename || v.warcOffset != c.offset || v.warcLength != c.length
       || v.rangeHTTPStatus != range.httpStatus || v.rangeContentRange != range.contentRange
       || v.compressedRecordDigest != DigestOf(e, raw.compressed) || v.representationDigest != p.bodyDigest
       || v.representationSize != |p.body| || v.providerPayloadDigest != p.providerDigest || v.httpStatus != p.httpStatus
       || v.mediaType != p.mediaType || v.contentEncoding != p.contentEncoding || v.contentLanguage != p.contentLanguage {
      return None;
    }
    evidence := Some(v);
  }

  // ----- the publisher -------------------------------------------------------

  /** An output directory. `log` lists its writes, so each prefix of it is a directory that a
    * crash can leave behind. */
  class Output {
    var made: bool
    var files: Files
    ghost var log: seq<Write>

    ghost predicate Valid()
      reads this
    {
      files == Place(log) && (!made ==> log == [])
    }

    constructor ()
      ensures Valid() && !made && log == []
    {
      made := false;
      files := map[];
      log := [];
    }

    /** One atomic, bounded write. */
    method WriteFile(path: Bytes, data: Bytes, maximum: nat) returns (ok: bool)
      requires Valid() && made
      modifies this`files, this`log
      ensures Valid() && ok == (|data| <= maximum)
      ensures log == old(log) + if ok then [Write(path, data)] else []
    {
      ok := |data| <= maximum;
      if ok {
        files := files[path := data];
        PlaceLast(log, Write(path, data));
        log := log + [Write(path, data)];
      }
    }

    /** The derived phase, after the raw evidence and its manifest are in place. */
    method PublishDerived(e: Formats, range: RangeEvidence) returns (r: Option<CaptureEvidence>)
      requires Valid() && made
      modifies this`files, this`log
      ensures Valid() && log == old(log) + DerivedPlan(e, old(files), range).writes
      ensures r == DerivedPlan(e, old(files), range).evidence
    {
      hide VerifyRaw, ValidCaptureEvidence, ValidCaptureManifest, CaptureEvidenceOf, CaptureManifestOf, Place;
      hide BodyPath, CapturePath, ManifestPath;
      var verified := VerifyRawEvidence(e, files);
      if verified.None? {
        return None;
      }
      var raw := verified.value;
      var parsed := e.parse(raw.compressed, raw.capture, raw.loaded.order);
      if parsed.None? {
        return None;
      }
      var body := parsed.value.body;
      var ok := WriteFile(BodyPath(), body, raw.loaded.order.maxRetainedBodyBytes);
      if !ok {
        return None;
      }
      var evidence := CaptureEvidenceOf(e, raw, range, parsed.value);
      var capture := e.putCapture(evidence);
      if !ValidCaptureEvidence(e, evidence, raw.loaded.order) {
        return None;
      }
      ok := WriteFile(CapturePath(), capture, MAX_METADATA);
      if !ok {
        return None;
      }
      FilesAre(old(log), body, capture);
      var m := CaptureManifestOf(e, raw, files);
      if !ValidCaptureManifest(m) {
        return None;
      }
      ok := WriteFile(ManifestPath(), e.putManifest(m), MAX_METADATA);
      r := if ok then Some(evidence) else None;
    }

    ghost method FilesAre(before: seq<Write>, body: Bytes, capture: Bytes)
      requires Valid() && log == before + [Write(BodyPath(), body)] + [Write(CapturePath(), capture)]
      ensures files == Place(before)[BodyPath() := body][CapturePath() := capture]
    {
      PlaceLast(before, Write(BodyPath(), body));
      PlaceLast(before + [Write(BodyPath(), body)], Write(CapturePath(), capture));
    }

    method WriteRaw(i: Input, rangeBytes: Bytes) returns (ok: bool)
      requires Valid() && made && |rangeBytes| <= MAX_METADATA && |i.capture.raw| <= MAX_INDEX_LINE
      requires |i.compressed| <= i.loaded.order.maxCompressedRecordBytes
      modifies this`files, this`log
      ensures Valid() && ok == (|i.loaded.data| <= MAX_WORK_ORDER)
      ensures log == old(log) + if ok then RawWrites(i, rangeBytes) else []
    {
      hide OrderPath, IndexPath, RangePath, RecordPath, Place;
      ok := WriteFile(OrderPath(), i.loaded.data, MAX_WORK_ORDER);
      if ok {
        ok := WriteFile(IndexPath(), i.capture.raw + [10], MAX_INDEX_LINE + 1);
        ok := WriteFile(RangePath(), rangeBytes, MAX_METADATA);
        ok := WriteFile(RecordPath(), i.compressed, i.loaded.order.maxCompressedRecordBytes);
      }
    }

    /** The raw phase, sealed by its manifest before any parser runs. */
    method PublishEvidence(e: Formats, i: Input) returns (r: Option<CaptureEvidence>)
      requires Valid() && made && log == [] && SelfConsistent(e, i) && i.capture.length > 0
      modifies this`files, this`log
      ensures Valid() && log == EvidencePlan(e, i).writes && r == EvidencePlan(e, i).evidence
    {
      hide ValidRangeEvidence, ValidEvidenceManifest, EvidenceManifestOf, RangeEvidenceOf, DerivedPlan, Place, RawWrites;
      hide EvidencePath, SelfConsistent;
      CompressedFits(e, i);
      var range := RangeEvidenceOf(e, i);
      var rangeBytes := e.putRange(range);
      if !ValidRangeEvidence(e, range, i.capture, i.compressed, i.loaded.order.maxCompressedRecordBytes)
         || |rangeBytes| > MAX_METADATA
      {
        return None;
      }
      var ok := WriteRaw(i, rangeBytes);
      if !ok {
        return None;
      }
      var m := EvidenceManifestOf(e, i, rangeBytes);
      if !ValidEvidenceManifest(m) {
        return None;
      }
      ok := WriteFile(EvidencePath(), e.putEvidence(m), MAX_METADATA);
      if !ok {
        return None;
      }
      assert log == RawWrites(i, rangeBytes) + [Write(EvidencePath(), e.putEvidence(m))];
      r := PublishDerived(e, range);
    }

    /** Publication into a directory that must not exist yet. */
    method PublishCapture(e: Formats, i: Input) returns (r: Option<CaptureEvidence>)
      requires Valid()
      modifies this
      ensures Valid()
      ensures old(made) ==> r == None && log == old(log)
      ensures !old(made) ==> log == RawPlan(e, i).writes && r == RawPlan(e, i).evidence
    {
      hide EvidencePlan, ValidOrder, ValidIdentity, RangePrefix, DigestText;
      if !SelfConsistent(e, i) || made {
        return None;
      }
      made := true;
      IdentityLength(e, i.capture);
      r := PublishEvidence(e, i);
    }
  }

  lemma CompressedFits(e: Formats, i: Input)
    requires SelfConsistent(e, i)
    ensures |i.compressed| <= i.loaded.order.maxCompressedRecordBytes && |i.capture.raw| <= MAX_INDEX_LINE
  {
    hide ValidOrder, ValidIdentity, RangePrefix, DigestText;
  }
}
