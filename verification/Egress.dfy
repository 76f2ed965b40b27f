/** The sealed egress worker (internal/egressworker/worker.go). */
module Egress {
  // One attempt at a time holds the lease, creates its spool exclusively, retrieves once, writes
  // the evidence and then the manifest, and keeps a circuit breaker per origin. A crash keeps
  // some prefix of the disk operations of an attempt. JSON, time and URL syntax are parameters.

  import opened Wrappers
  import opened ByteStrings
  import opened Cbor
  import opened Lexical
  import opened Documents
  import opened Spools
  import opened Observations

  const MAX_WORK_ORDER: nat := 0x1_0000
  const MAX_CONTROL: nat := 0x1_0000
  const MAX_RESULT: nat := 0x2_0000
  const MAX_BODY: nat := 0x20_0000
  const SECOND: int := 1_000_000_000

  function WorkOrderFormat(): Bytes { Ascii("tw.egress-work-order/0.1") }
  function ControlFormat(): Bytes { Ascii("tw.egress-control/0.1") }
  function ResultFormat(): Bytes { Ascii("tw.egress-result/0.1") }
  function ManifestFormat(): Bytes { Ascii("tw.egress-manifest/0.1") }
  function CircuitFormat(): Bytes { Ascii("tw.egress-circuit/0.1") }
  function WorkerPolicyID(): Text { Ascii("tw.egress.public-origin-v0") }
  function ObserverID(): Text { Ascii("typed-web-go/0.1") }

  // ----- documents -----------------------------------------------------------

  datatype Order = Order(
    format: Bytes, id: Bytes, originID: Bytes, purpose: Text, authorityClass: Bytes, httpMethod: Bytes, url: Bytes,
    allowedHosts: seq<Bytes>, policyDecision: Text, policyEvidenceDigest: Bytes, decisionDigest: Bytes,
    approvalReference: Bytes, notBefore: Bytes, expiresAt: Bytes, maxRedirects: int, maxBodyBytes: int,
    timeoutMillis: int, connectTimeoutMillis: int, headerTimeoutMillis: int,
    maxConsecutiveFailures: int, circuitCooldownSeconds: int)

  datatype Control = Control(
    format: Bytes, enabled: bool, emergencyStop: bool, revokedOrigins: seq<Bytes>, revokedOrders: seq<Bytes>)

  datatype Circuit = Circuit(format: Bytes, originID: Bytes, consecutiveFailures: int, openUntil: Option<Bytes>)

  datatype EgressResult = EgressResult(
    format: Bytes, workOrderID: Bytes, workOrderDigest: Bytes, originID: Bytes, purpose: Bytes,
    requestURL: Bytes, finalURL: Bytes, retrievedAt: Bytes, httpStatus: int, mediaType: Bytes, redirectCount: int,
    observationDigest: Bytes, bodyDigest: Bytes, bodySize: nat, durationMillis: int)

  datatype Artifact = Artifact(path: Bytes, digest: Bytes)

  datatype Manifest = Manifest(format: Bytes, workOrderID: Bytes, workOrderDigest: Bytes, artifacts: seq<Artifact>)

  /** What the retriever hands back. */
  datatype Fetch = Fetch(
    requestURL: Text, finalURL: Text, httpMethod: Text, status: uint64, mediaType: Text, retrievedAt: Text,
    body: Text, redirects: nat)

  /** The syntaxes and the hash the worker relies on; times are nanoseconds in UTC. */
  datatype Formats = Formats(
    hash: Hash, time: Bytes -> Option<int>, formatTime: int -> Bytes, admitsURL: Order -> bool,
    order: Bytes -> Option<Order>,
    putResult: EgressResult -> Bytes, result: Bytes -> Option<EgressResult>,
    putManifest: Manifest -> Bytes, manifest: Bytes -> Option<Manifest>,
    putCircuit: Circuit -> Bytes, circuit: Bytes -> Option<Circuit>,
    putView: Envelope -> Bytes)

  // UTF-8 text of bounded size: what JSON keeps as it is.
  predicate Plain(v: Bytes) {
    ValidUtf8(v) && |v| <= MAX_URL_BYTES
  }

  predicate PlainResult(r: EgressResult) {
    && Plain(r.format) && Plain(r.workOrderID) && Plain(r.workOrderDigest) && Plain(r.originID) && Plain(r.purpose)
    && Plain(r.requestURL) && Plain(r.finalURL) && Plain(r.retrievedAt) && Plain(r.mediaType)
    && Plain(r.observationDigest) && Plain(r.bodyDigest)
  }

  predicate PlainManifest(m: Manifest) {
    && Plain(m.format) && Plain(m.workOrderID) && Plain(m.workOrderDigest) && |m.artifacts| <= 512
    && forall a :: a in m.artifacts ==> Plain(a.path) && Plain(a.digest)
  }

  // An ASCII text as long as a time at most.
  predicate TimeText(v: Bytes) {
    |v| <= 64 && IsAscii(v)
  }

  // The failures are a 64-bit number.
  predicate PlainCircuit(c: Circuit) {
    && Plain(c.format) && ValidID(c.originID) && -MAX_INT - 1 <= c.consecutiveFailures <= MAX_INT
    && (c.openUntil.Some? ==> TimeText(c.openUntil.value))
  }

  /** Decoding undoes encoding on UTF-8 text, and a formatted time never reads as another time. */
  ghost predicate Lawful(e: Formats) {
    && (forall r :: PlainResult(r) ==> e.result(e.putResult(r)) == Some(r))
    && (forall m :: PlainManifest(m) ==> e.manifest(e.putManifest(m)) == Some(m))
    && (forall c :: PlainCircuit(c) ==> e.circuit(e.putCircuit(c)) == Some(c) && 0 < |e.putCircuit(c)| <= MAX_CONTROL)
    && (forall r :: 0 < |e.putResult(r)|)
    && (forall m :: 0 < |e.putManifest(m)|)
    && (forall v :: 0 < |e.putView(v)|)
    && (forall t :: e.time(e.formatTime(t)) in {None, Some(t)} && TimeText(e.formatTime(t)))
    && (forall v :: e.time(v).Some? ==> TimeText(v))
  }

  function DigestOf(e: Formats, data: Bytes): Bytes {
    DigestText(e.hash(data))
  }

  // ----- authority -----------------------------------------------------------

  predicate SortedUniqueTexts(values: seq<Bytes>) {
    StrictlySorted(values) && [] !in values
  }

  predicate ValidControl(c: Control) {
    && c.format == ControlFormat() && |c.revokedOrigins| <= 500 && |c.revokedOrders| <= 500
    && SortedUniqueTexts(c.revokedOrigins) && SortedUniqueTexts(c.revokedOrders)
    && (forall v :: v in c.revokedOrigins ==> ValidID(v)) && (forall v :: v in c.revokedOrders ==> ValidID(v))
  }

  predicate ValidAuthority(o: Order) {
    if o.authorityClass == Ascii("policy_evidence_collection") then
      o.purpose == Ascii("robots") && o.policyDecision == Ascii("uncertain")
    else
      && o.authorityClass == Ascii("reviewed_policy")
      && OneOf(o.policyDecision, ["permit_live", "permit_with_constraints", "profile_only"])
      && !(o.policyDecision == Ascii("profile_only") && o.purpose == Ascii("observation"))
  }

  predicate ValidLimits(o: Order) {
    && 0 <= o.maxRedirects <= 3 && 0 < o.maxBodyBytes <= MAX_BODY
    && 1000 <= o.timeoutMillis <= 30000 && 500 <= o.connectTimeoutMillis <= 10000
    && 500 <= o.headerTimeoutMillis <= 15000
    && 1 <= o.maxConsecutiveFailures <= 10 && 60 <= o.circuitCooldownSeconds <= 86400
  }

  predicate ValidOrder(e: Formats, o: Order) {
    && o.format == WorkOrderFormat() && ValidID(o.id) && ValidID(o.originID) && o.httpMethod == Ascii("GET")
    && OneOf(o.purpose, ["robots", "profile", "observation"]) && ValidAuthority(o)
    && ValidDigest(o.policyEvidenceDigest) && ValidDigest(o.decisionDigest)
    && o.approvalReference != [] && |o.approvalReference| <= 4096
    && SortedUniqueTexts(o.allowedHosts) && 0 < |o.allowedHosts| <= 8 && e.admitsURL(o)
    && ValidLimits(o)
    && e.time(o.notBefore).Some? && e.time(o.expiresAt).Some?
    && 0 < e.time(o.expiresAt).value - e.time(o.notBefore).value <= 31 * 24 * 3600 * SECOND
  }

  datatype Loaded = Loaded(order: Order, digest: Bytes, data: Bytes)

  /** What an attempt checks of an order: the order itself is valid, and the digest is that of the
    * bytes. The bytes are private to the loader, the order and the digest are not. */
  predicate Sealing(e: Formats, l: Loaded) {
    ValidOrder(e, l.order) && l.digest == DigestOf(e, l.data)
  }

  /** What `LoadWorkOrder` establishes: moreover the order is what the bytes decode to. */
  predicate WellLoaded(e: Formats, l: Loaded) {
    0 < |l.data| <= MAX_WORK_ORDER && e.order(l.data) == Some(l.order) && Sealing(e, l)
  }

  datatype Error =
    | InvalidWorkOrder | InvalidControl | Disabled | Revoked | Expired | LeaseHeld | CircuitOpen | SpoolExists
    | RetrievalFailed | EvidenceFailed | TooLarge | Rejected

  function LoadWorkOrder(e: Formats, orders: Files, id: Bytes): (r: Result<Loaded, Error>)
    ensures r.Success? ==> WellLoaded(e, r.value) && r.value.order.id == id
  {
    if !ValidID(id) then Failure(InvalidWorkOrder)
    else
      var data := ReadRegular(orders, id + Ascii(".json"), MAX_WORK_ORDER);
      if data.None? || e.order(data.value).None? then Failure(InvalidWorkOrder)
      else
        var order := e.order(data.value).value;
        if order.id != id || !ValidOrder(e, order) then Failure(InvalidWorkOrder)
        else Success(Loaded(order, DigestOf(e, data.value), data.value))
  }

  // ----- the disk ------------------------------------------------------------

  datatype Key = Key(orderID: Bytes, digestID: Bytes)

  /** Every spool directory under its order and digest, and every circuit file under its origin. */
  datatype Disk = Disk(spools: map<Key, Files>, circuits: Files)

  datatype Op =
    | MakeSpool(key: Key)
    | Write(key: Key, path: Bytes, data: Bytes)
    | Retrieve(key: Key, originID: Bytes, now: int)
    | WriteCircuit(originID: Bytes, data: Bytes)

  function Apply(d: Disk, op: Op): Disk {
    match op
    case MakeSpool(key) => d.(spools := d.spools[key := map[]])
    case Write(key, path, data) =>
      if key in d.spools then d.(spools := d.spools[key := d.spools[key][path := data]]) else d
    case Retrieve(_, _, _) => d
    case WriteCircuit(originID, data) => d.(circuits := d.circuits[originID := data])
  }

  function ApplyAll(d: Disk, ops: seq<Op>): Disk {
    if ops == [] then d else Apply(ApplyAll(d, ops[..|ops| - 1]), ops[|ops| - 1])
  }

  /** The digest part is the hash without its "sha256:" prefix. */
  function KeyOf(l: Loaded): Key {
    Key(l.order.id, if |l.digest| >= 7 then l.digest[7..] else l.digest)
  }

  // ----- the circuit breaker -------------------------------------------------

  datatype CircuitFile = Absent | Broken | Present(circuit: Circuit)

  function LoadCircuit(e: Formats, d: Disk, originID: Bytes): (file: CircuitFile)
    ensures file.Present? ==> 0 <= file.circuit.consecutiveFailures
  {
    if originID !in d.circuits then Absent
    else
      var data := ReadRegular(d.circuits, originID, MAX_CONTROL);
      if data.None? || e.circuit(data.value).None? then Broken
      else
        var c := e.circuit(data.value).value;
        if c.format == CircuitFormat() && c.originID == originID && 0 <= c.consecutiveFailures <= 100000 then Present(c)
        else Broken
  }

  predicate CircuitAllows(e: Formats, d: Disk, o: Order, now: int) {
    match LoadCircuit(e, d, o.originID)
    case Absent => true
    case Broken => false
    case Present(c) =>
      c.openUntil.Some? ==> e.time(c.openUntil.value).Some? && e.time(c.openUntil.value).value <= now
  }

  function Fresh(originID: Bytes): Circuit {
    Circuit(CircuitFormat(), originID, 0, None)
  }

  function Failed(e: Formats, c: Circuit, o: Order, now: int): Circuit {
    var n := c.consecutiveFailures + 1;
    Circuit(c.format, c.originID, n,
            if n >= o.maxConsecutiveFailures then Some(e.formatTime(now + o.circuitCooldownSeconds * SECOND))
            else c.openUntil)
  }

  function CircuitOps(e: Formats, c: Circuit): seq<Op> {
    if |e.putCircuit(c)| > MAX_CONTROL then [] else [WriteCircuit(c.originID, e.putCircuit(c))]
  }

  /** Recording a failure counts it and, at the limit, opens the breaker for the cooldown. */
  function FailureOps(e: Formats, d: Disk, o: Order, now: int): seq<Op> {
    match LoadCircuit(e, d, o.originID)
    case Broken => []
    case Absent => CircuitOps(e, Failed(e, Fresh(o.originID), o, now))
    case Present(c) => CircuitOps(e, Failed(e, c, o, now))
  }

  // ----- one attempt ---------------------------------------------------------

  function WorkOrderPath(): Bytes { Ascii("work-order.json") }
  function BodyRefPath(): Bytes { Ascii("evidence/body.ref") }
  function EnvelopePath(): Bytes { Ascii("evidence/observation.cbor") }
  function ViewPath(): Bytes { Ascii("evidence/observation.json") }
  function ResultPath(): Bytes { Ascii("result.json") }
  function ManifestPath(): Bytes { Ascii("manifest.json") }
  function CasPrefix(): Bytes { Ascii("cas/sha256/") }

  /** Where the content-addressed store keeps a body. */
  function CasPath(d: Digest): (p: Bytes)
    ensures |p| == 81
  {
    CasPrefix() + Hex(d)[..2] + [47] + Hex(d)[2..4] + [47] + Hex(d)
  }

  function EnvelopeOf(e: Formats, f: Fetch): Envelope {
    Envelope(FORMAT_VERSION, f.requestURL, f.finalURL, f.httpMethod, f.status, f.mediaType, f.retrievedAt,
             e.hash(f.body), |f.body|, WorkerPolicyID(), ObserverID())
  }

  /** The fetches whose envelope is valid. */
  predicate Observable(e: Formats, f: Fetch) {
    && f.httpMethod == Ascii("GET") && 100 <= f.status <= 599
    && ValidText(f.requestURL, MAX_URL_BYTES, false) && ValidText(f.finalURL, MAX_URL_BYTES, false)
    && ValidText(f.mediaType, MAX_MEDIA_TYPE_BYTES, false)
    && ValidText(f.retrievedAt, MAX_RETRIEVED_AT_BYTES, false) && e.time(f.retrievedAt).Some?
    && |f.body| <= MAX_BODY_BYTES
  }

  lemma ObservableIsValid(e: Formats, f: Fetch)
    ensures Observable(e, f) <==> ValidEnvelope(EnvelopeOf(e, f), t => e.time(t).Some?)
  {
    hide ValidUtf8, Ascii;
    ConstantText(WorkerPolicyID(), "tw.egress.public-origin-v0");
    ConstantText(ObserverID(), "typed-web-go/0.1");
  }

  lemma ConstantText(v: Bytes, s: string)
    requires v == Ascii(s) && 0 < |s| <= MAX_ID_BYTES && forall i :: 0 <= i < |s| ==> 0 < s[i] as int < 128
    ensures ValidText(v, MAX_ID_BYTES, false)
  {
    AsciiIsUtf8(v);
  }

  function EnvelopeBytes(e: Formats, f: Fetch): Bytes {
    MarshalEnvelope(EnvelopeOf(e, f))
  }

  function ViewBytes(e: Formats, f: Fetch): Bytes {
    e.putView(EnvelopeOf(e, f))
  }

  function BodyReference(e: Formats, f: Fetch): Bytes {
    DigestOf(e, f.body) + [10]
  }

  /** The evidence files in the order they are written. */
  function EvidenceOps(e: Formats, key: Key, f: Fetch): (ops: seq<Op>)
    ensures |ops| == 4
  {
    [Write(key, CasPath(e.hash(f.body)), f.body),
     Write(key, EnvelopePath(), EnvelopeBytes(e, f)),
     Write(key, ViewPath(), ViewBytes(e, f)),
     Write(key, BodyRefPath(), BodyReference(e, f))]
  }

  /** How many evidence files get written: none for an invalid envelope, and a size over its
    * bound, or a failing disk, stops there. */
  function EvidenceWritten(e: Formats, f: Fetch, fault: Option<nat>): (n: nat)
    ensures n <= 4
  {
    var fit := if !Observable(e, f) then 0
               else if |EnvelopeBytes(e, f)| > MAX_ENVELOPE_BYTES then 1
               else if |ViewBytes(e, f)| > MAX_JSON_VIEW_BYTES then 2 else 4;
    if fault.Some? && fault.value < fit then fault.value else fit
  }

  function BundleOps(e: Formats, key: Key, f: Fetch, fault: Option<nat>): seq<Op> {
    EvidenceOps(e, key, f)[..EvidenceWritten(e, f, fault)]
  }

  function ResultOf(e: Formats, l: Loaded, f: Fetch, duration: nat): EgressResult {
    EgressResult(ResultFormat(), l.order.id, l.digest, l.order.originID, l.order.purpose,
                 f.requestURL, f.finalURL, f.retrievedAt, f.status, f.mediaType, f.redirects,
                 DigestOf(e, EnvelopeBytes(e, f)), DigestOf(e, f.body), |f.body|, duration)
  }

  function ResultBytes(e: Formats, l: Loaded, f: Fetch, duration: nat): Bytes {
    e.putResult(ResultOf(e, l, f, duration))
  }

  function ManifestOf(e: Formats, l: Loaded, f: Fetch, duration: nat): Manifest {
    Manifest(ManifestFormat(), l.order.id, l.digest, [
      Artifact(CasPath(e.hash(f.body)), DigestOf(e, f.body)),
      Artifact(BodyRefPath(), DigestOf(e, BodyReference(e, f))),
      Artifact(EnvelopePath(), DigestOf(e, EnvelopeBytes(e, f))),
      Artifact(ViewPath(), DigestOf(e, ViewBytes(e, f))),
      Artifact(ResultPath(), DigestOf(e, ResultBytes(e, l, f, duration))),
      Artifact(WorkOrderPath(), l.digest)])
  }

  function ManifestBytes(e: Formats, l: Loaded, f: Fetch, duration: nat): Bytes {
    e.putManifest(ManifestOf(e, l, f, duration))
  }

  function RequiredPaths(): set<Bytes> {
    {BodyRefPath(), EnvelopePath(), ViewPath(), ResultPath(), WorkOrderPath()}
  }

  predicate GoodArtifact(m: Manifest, i: nat)
    requires i < |m.artifacts|
  {
    var a := m.artifacts[i];
    && SafeRelativePath(a.path) && ValidDigest(a.digest)
    && (i > 0 ==> Less(m.artifacts[i - 1].path, a.path))
    && (a.path in RequiredPaths() || HasPrefix(a.path, CasPrefix()))
  }

  function PathsOf(artifacts: seq<Artifact>): set<Bytes> {
    set a | a in artifacts :: a.path
  }

  /** Six sorted, safe, content-addressed artifacts: the five required ones and one stored body. */
  predicate ValidManifest(m: Manifest) {
    && m.format == ManifestFormat() && ValidID(m.workOrderID) && ValidDigest(m.workOrderDigest)
    && |m.artifacts| == 6
    && (forall i :: 0 <= i < 6 ==> GoodArtifact(m, i))
    && RequiredPaths() <= PathsOf(m.artifacts) && (exists p :: p in PathsOf(m.artifacts) && HasPrefix(p, CasPrefix()))
  }

  /** The result, then the manifest, then the circuit reset. */
  function CompletionOps(e: Formats, key: Key, l: Loaded, f: Fetch, duration: nat): seq<Op> {
    if |ResultBytes(e, l, f, duration)| > MAX_RESULT then []
    else
      [Write(key, ResultPath(), ResultBytes(e, l, f, duration))] +
      if |ViewBytes(e, f)| == 0 || !ValidManifest(ManifestOf(e, l, f, duration))
         || |ManifestBytes(e, l, f, duration)| > MAX_RESULT then []
      else [Write(key, ManifestPath(), ManifestBytes(e, l, f, duration))] + CircuitOps(e, Fresh(l.order.originID))
  }

  function Fitting(e: Formats, l: Loaded, f: Fetch, duration: nat): Option<EgressResult> {
    if |ResultBytes(e, l, f, duration)| <= MAX_RESULT && |ManifestBytes(e, l, f, duration)| <= MAX_RESULT
    then Some(ResultOf(e, l, f, duration)) else None
  }

  /** The sizes that decide whether an observable fetch is published in full. */
  predicate Publishable(e: Formats, l: Loaded, f: Fetch, duration: nat) {
    EvidenceWritten(e, f, None) == 4 && Fitting(e, l, f, duration).Some?
  }

  /** What the network and the disk do to one attempt. */
  datatype Retrieval = Unreachable | Fetched(fetch: Fetch, fault: Option<nat>, duration: nat)

  function FetchOps(e: Formats, d: Disk, key: Key, l: Loaded, now: int, r: Retrieval): seq<Op> {
    if r.Unreachable? then FailureOps(e, d, l.order, now)
    else
      BundleOps(e, key, r.fetch, r.fault) +
      if EvidenceWritten(e, r.fetch, r.fault) < 4 then FailureOps(e, d, l.order, now)
      else CompletionOps(e, key, l, r.fetch, r.duration)
  }

  /** The disk operations and the retrieval of an admitted attempt. */
  function LeasedOps(e: Formats, d: Disk, l: Loaded, now: int, r: Retrieval): seq<Op> {
    if !CircuitAllows(e, d, l.order, now) || KeyOf(l) in d.spools then []
    else if |l.data| > MAX_WORK_ORDER then [MakeSpool(KeyOf(l))]
    else [MakeSpool(KeyOf(l)), Write(KeyOf(l), WorkOrderPath(), l.data), Retrieve(KeyOf(l), l.order.originID, now)]
         + FetchOps(e, d, KeyOf(l), l, now, r)
  }

  /** The order, the control and the time that an attempt needs. */
  predicate Admitted(e: Formats, l: Loaded, c: Control, now: int) {
    && Sealing(e, l) && ValidControl(c) && c.enabled && !c.emergencyStop
    && l.order.originID !in c.revokedOrigins && l.order.id !in c.revokedOrders
    && e.time(l.order.notBefore).value <= now < e.time(l.order.expiresAt).value
  }

  /** The disk operations and the retrieval of one attempt that gets the lease. */
  function Program(e: Formats, d: Disk, l: Loaded, c: Control, now: int, r: Retrieval): seq<Op> {
    if Admitted(e, l, c, now) then LeasedOps(e, d, l, now, r) else []
  }

  lemma SameFailure(e: Formats, d: Disk, d': Disk, o: Order, now: int)
    requires d.circuits == d'.circuits
    ensures FailureOps(e, d', o, now) == FailureOps(e, d, o, now)
  {
  }

  /** The result that an attempt reports, if it reports one. */
  function Published(e: Formats, l: Loaded, r: Retrieval): Option<EgressResult> {
    if |l.data| <= MAX_WORK_ORDER && r.Fetched? && Publishable(e, l, r.fetch, r.duration)
       && EvidenceWritten(e, r.fetch, r.fault) == 4
    then Some(ResultOf(e, l, r.fetch, r.duration)) else None
  }

  lemma TooLargeUnpublished(e: Formats, l: Loaded, r: Retrieval)
    ensures |l.data| > MAX_WORK_ORDER ==> Published(e, l, r) == None
  {
  }

  function LeasedResult(e: Formats, d: Disk, l: Loaded, now: int, r: Retrieval): Option<EgressResult> {
    if CircuitAllows(e, d, l.order, now) && KeyOf(l) !in d.spools then Published(e, l, r) else None
  }

  function Reported(e: Formats, d: Disk, l: Loaded, c: Control, now: int, r: Retrieval): Option<EgressResult> {
    if Admitted(e, l, c, now) then LeasedResult(e, d, l, now, r) else None
  }

  // Recording a failure reads the circuit files only.
  lemma SameCircuits(e: Formats, d: Disk, d': Disk, key: Key, l: Loaded, now: int, r: Retrieval)
    requires d.circuits == d'.circuits
    ensures FetchOps(e, d', key, l, now, r) == FetchOps(e, d, key, l, now, r)
  {
    hide BundleOps, CompletionOps, EvidenceWritten;
  }

  // ----- paths ---------------------------------------------------------------

  lemma PathsDistinct(d: Digest)
    ensures WorkOrderPath() !in {CasPath(d), EnvelopePath(), ViewPath(), BodyRefPath(), ResultPath(), ManifestPath()}
    ensures CasPath(d) !in {EnvelopePath(), ViewPath(), BodyRefPath(), ResultPath(), ManifestPath()}
    ensures EnvelopePath() !in {ViewPath(), BodyRefPath(), ResultPath(), ManifestPath()}
    ensures ViewPath() !in {BodyRefPath(), ResultPath(), ManifestPath()}
    ensures BodyRefPath() !in {ResultPath(), ManifestPath()} && ResultPath() != ManifestPath()
  {
    hide CasPath;
    assert |WorkOrderPath()| == 15 && |EnvelopePath()| == 25 && |ViewPath()| == 25 && |BodyRefPath()| == 17;
    assert |ResultPath()| == 11 && |ManifestPath()| == 13;
    assert EnvelopePath()[21] != ViewPath()[21];
  }

  lemma {:induction false} LessAt(a: Bytes, b: Bytes, k: nat)
    requires k < |a| && k < |b| && a[k] < b[k] && forall i :: 0 <= i < k ==> a[i] == b[i]
    ensures Less(a, b)
  {
    if k > 0 {
      LessAt(a[1..], b[1..], k - 1);
    }
  }

  lemma PathsSorted(d: Digest)
    ensures Less(CasPath(d), BodyRefPath()) && Less(BodyRefPath(), EnvelopePath()) && Less(EnvelopePath(), ViewPath())
    ensures Less(ViewPath(), ResultPath()) && Less(ResultPath(), WorkOrderPath())
  {
    hide Less;
    LessAt(CasPath(d), BodyRefPath(), 0);
    LessAt(BodyRefPath(), EnvelopePath(), 9);
    LessAt(EnvelopePath(), ViewPath(), 21);
    LessAt(ViewPath(), ResultPath(), 0);
    LessAt(ResultPath(), WorkOrderPath(), 0);
  }

  // No component starts with a dot and no separator is doubled or last.
  lemma PlainPathSafe(p: Bytes)
    requires p != [] && p[0] != 47 && p[|p| - 1] != 47 && p[0] != 46 && 92 !in p
    requires forall i :: 0 < i < |p| && p[i - 1] == 47 ==> p[i] != 46 && p[i] != 47
    ensures SafeRelativePath(p)
  {
  }

  lemma EnvelopePathSafe()
    ensures SafeRelativePath(EnvelopePath())
  {
    hide SafeRelativePath;
    PlainPathSafe(EnvelopePath());
  }

  lemma ViewPathSafe()
    ensures SafeRelativePath(ViewPath())
  {
    hide SafeRelativePath;
    PlainPathSafe(ViewPath());
  }

  lemma BodyRefPathSafe()
    ensures SafeRelativePath(BodyRefPath())
  {
    hide SafeRelativePath;
    PlainPathSafe(BodyRefPath());
  }

  lemma FlatPathsSafe()
    ensures SafeRelativePath(ResultPath()) && SafeRelativePath(WorkOrderPath())
  {
    hide SafeRelativePath;
    PlainPathSafe(ResultPath());
    PlainPathSafe(WorkOrderPath());
  }

  lemma CasPathSafe(d: Digest)
    ensures SafeRelativePath(CasPath(d)) && HasPrefix(CasPath(d), CasPrefix())
  {
    hide SafeRelativePath, Hex;
    var p := CasPath(d);
    assert p[..11] == CasPrefix();
    forall i | 11 <= i < 81 ensures p[i] == 47 <==> i in {13, 16}
    {
    }
    PlainPathSafe(p);
  }

  lemma ViewNotEmpty(e: Formats, f: Fetch)
    requires Lawful(e)
    ensures 0 < |ViewBytes(e, f)|
  {
  }

  lemma EvidenceFits(e: Formats, f: Fetch, fault: Option<nat>)
    ensures EvidenceWritten(e, f, fault) == 4 ==>
              && EvidenceWritten(e, f, None) == 4 && Observable(e, f)
              && |EnvelopeBytes(e, f)| <= MAX_ENVELOPE_BYTES && |ViewBytes(e, f)| <= MAX_JSON_VIEW_BYTES
  {
  }

  lemma SealingFacts(e: Formats, l: Loaded)
    requires Sealing(e, l)
    ensures ValidID(l.order.id) && ValidID(l.order.originID) && |l.digest| == 71
    ensures e.time(l.order.notBefore).Some? && e.time(l.order.expiresAt).Some?
  {
  }

  /** The manifest a worker builds always passes its own check. */
  lemma ManifestOfValid(e: Formats, l: Loaded, f: Fetch, duration: nat)
    requires Sealing(e, l)
    ensures ValidManifest(ManifestOf(e, l, f, duration))
  {
    hide ValidDigest, Sealing, ValidManifest, ResultPath, WorkOrderPath, EnvelopePath, ViewPath, BodyRefPath, CasPath;
    hide ValidID, DigestOf, BodyReference, EnvelopeBytes, ViewBytes, ResultBytes;
    SealingFacts(e, l);
    ManifestDigestsValid(e, l, f, duration);
    SixArtifactsValid(ManifestOf(e, l, f, duration), e.hash(f.body));
  }

  lemma SixArtifactsValid(m: Manifest, d: Digest)
    requires m.format == ManifestFormat() && ValidID(m.workOrderID) && ValidDigest(m.workOrderDigest)
    requires |m.artifacts| == 6 && forall a :: a in m.artifacts ==> ValidDigest(a.digest)
    requires m.artifacts[0].path == CasPath(d) && m.artifacts[1].path == BodyRefPath()
    requires m.artifacts[2].path == EnvelopePath() && m.artifacts[3].path == ViewPath()
    requires m.artifacts[4].path == ResultPath() && m.artifacts[5].path == WorkOrderPath()
    ensures ValidManifest(m)
  {
    hide SafeRelativePath, ValidDigest, Less, HasPrefix;
    hide CasPath, BodyRefPath, EnvelopePath, ViewPath, ResultPath, WorkOrderPath, CasPrefix;
    EnvelopePathSafe();
    ViewPathSafe();
    BodyRefPathSafe();
    FlatPathsSafe();
    PathsSorted(d);
    CasPathSafe(d);
    var a := m.artifacts;
    assert forall i :: 0 <= i < 6 ==> a[i] in a;
    assert GoodArtifact(m, 0) && GoodArtifact(m, 1) && GoodArtifact(m, 2);
    assert GoodArtifact(m, 3) && GoodArtifact(m, 4) && GoodArtifact(m, 5);
    assert RequiredPaths() == {a[1].path, a[2].path, a[3].path, a[4].path, a[5].path};
    assert a[0].path in PathsOf(a);
  }

  lemma ManifestDigestsValid(e: Formats, l: Loaded, f: Fetch, duration: nat)
    requires Sealing(e, l)
    ensures ValidDigest(l.digest)
    ensures forall a :: a in ManifestOf(e, l, f, duration).artifacts ==> ValidDigest(a.digest)
  {
    hide ValidDigest, DigestText, ValidOrder, BodyReference, EnvelopeBytes, ViewBytes, ResultBytes;
    hide CasPath, BodyRefPath, EnvelopePath, ViewPath, ResultPath, WorkOrderPath;
    DigestTextValid(e.hash(l.data));
    DigestTextValid(e.hash(f.body));
    DigestTextValid(e.hash(BodyReference(e, f)));
    DigestTextValid(e.hash(EnvelopeBytes(e, f)));
    DigestTextValid(e.hash(ViewBytes(e, f)));
    DigestTextValid(e.hash(ResultBytes(e, l, f, duration)));
  }

  // ----- checking a manifest -------------------------------------------------

  lemma NotStored(p: Bytes)
    requires p in RequiredPaths() || p == ManifestPath()
    ensures !HasPrefix(p, CasPrefix())
  {
    assert |p| >= 11 ==> p[..11][0] == p[0];
  }

  lemma ManifestNotRequired()
    ensures ManifestPath() !in RequiredPaths()
  {
    PathsDistinct(ZeroDigest());
  }

  lemma PathsGrow(artifacts: seq<Artifact>, n: nat)
    requires n < |artifacts|
    ensures PathsOf(artifacts[..n + 1]) == PathsOf(artifacts[..n]) + {artifacts[n].path}
    ensures PathsOf(artifacts[..0]) == {}
  {
    assert artifacts[..n + 1] == artifacts[..n] + [artifacts[n]];
  }

  lemma SafeAfterNothing(p: Bytes)
    requires SafeRelativePath(p)
    ensures Less([], p)
  {
  }

  /** The single pass that the worker makes over the artifacts. */
  method ValidateManifest(m: Manifest) returns (ok: bool)
    ensures ok <==> ValidManifest(m)
  {
    hide SafeRelativePath, ValidDigest, Less, HasPrefix, CasPrefix, RequiredPaths, ManifestPath, ValidID, PathsOf;
    if m.format != ManifestFormat() || !ValidID(m.workOrderID) || !ValidDigest(m.workOrderDigest) || |m.artifacts| != 6 {
      return false;
    }
    ManifestNotRequired();
    NotStored(ManifestPath());
    PathsGrow(m.artifacts, 0);
    var previous: Bytes := [];
    var present: map<Bytes, bool> := map p | p in RequiredPaths() :: false;
    var body := false;
    for n := 0 to 6
      invariant forall i :: 0 <= i < n ==> GoodArtifact(m, i)
      invariant previous == if n == 0 then [] else m.artifacts[n - 1].path
      invariant present.Keys == RequiredPaths()
      invariant forall p :: p in present ==> (present[p] <==> p in PathsOf(m.artifacts[..n]))
      invariant body <==> exists p :: p in PathsOf(m.artifacts[..n]) && HasPrefix(p, CasPrefix())
    {
      var a := m.artifacts[n];
      PathsGrow(m.artifacts, n);
      if SafeRelativePath(a.path) { SafeAfterNothing(a.path); }
      if !SafeRelativePath(a.path) || !ValidDigest(a.digest) || !Less(previous, a.path) || a.path == ManifestPath() {
        assert !GoodArtifact(m, n);
        return false;
      }
      previous := a.path;
      if a.path in present {
        present := present[a.path := true];
        NotStored(a.path);
      } else if HasPrefix(a.path, CasPrefix()) {
        body := true;
      } else {
        assert !GoodArtifact(m, n);
        return false;
      }
    }
    assert m.artifacts[..6] == m.artifacts;
    if exists p :: p in present && !present[p] {
      return false;
    }
    ok := body;
  }

  // ----- the worker ----------------------------------------------------------

  lemma {:induction false} ApplySplit(d: Disk, a: seq<Op>, b: seq<Op>)
    ensures ApplyAll(d, a + b) == ApplyAll(ApplyAll(d, a), b)
  {
    if b == [] {
      assert a + b == a;
    } else {
      ApplySplit(d, a, b[..|b| - 1]);
      assert (a + b)[..|a + b| - 1] == a + b[..|b| - 1];
    }
  }

  /** A worker process. `log` lists every disk operation and retrieval since `start`, so each
    * prefix of it is a disk that a crash can leave behind. */
  class Worker {
    const formats: Formats
    var disk: Disk
    var leased: bool
    ghost const start: Disk
    ghost var log: seq<Op>

    ghost predicate Valid()
      reads this`disk, this`log
    {
      disk == ApplyAll(start, log)
    }

    constructor (formats: Formats, disk: Disk)
      ensures Valid() && this.formats == formats && this.disk == disk && start == disk && log == [] && !leased
    {
      this.formats := formats;
      this.disk := disk;
      leased := false;
      start := disk;
      log := [];
    }

    ghost method Record(op: Op)
      modifies this`log
      ensures log == old(log) + [op]
      ensures ApplyAll(start, log) == Apply(ApplyAll(start, old(log)), op)
    {
      log := log + [op];
      assert log[..|log| - 1] == old(log);
    }

    /** Directory creation is exclusive. */
    method CreateSpool(key: Key) returns (ok: bool)
      requires Valid()
      modifies this`disk, this`log
      ensures Valid() && ok == (key !in old(disk).spools)
      ensures log == old(log) + if ok then [MakeSpool(key)] else []
      ensures disk == if ok then Apply(old(disk), MakeSpool(key)) else old(disk)
    {
      ok := key !in disk.spools;
      if ok {
        disk := disk.(spools := disk.spools[key := map[]]);
        Record(MakeSpool(key));
      }
    }

    method WriteFile(key: Key, path: Bytes, data: Bytes, maximum: nat) returns (ok: bool)
      requires Valid() && key in disk.spools
      modifies this`disk, this`log
      ensures Valid() && ok == (|data| <= maximum)
      ensures log == old(log) + if ok then [Write(key, path, data)] else []
      ensures disk == if ok then Apply(old(disk), Write(key, path, data)) else old(disk)
    {
      ok := |data| <= maximum;
      if ok {
        disk := disk.(spools := disk.spools[key := disk.spools[key][path := data]]);
        Record(Write(key, path, data));
      }
    }

    method WriteCircuitFile(c: Circuit) returns (ok: bool)
      requires Valid()
      modifies this`disk, this`log
      ensures Valid() && log == old(log) + CircuitOps(formats, c)
    {
      var data := formats.putCircuit(c);
      ok := |data| <= MAX_CONTROL;
      if ok {
        disk := disk.(circuits := disk.circuits[c.originID := data]);
        Record(WriteCircuit(c.originID, data));
      }
    }

    method RecordFailure(o: Order, now: int) returns (ok: bool)
      requires Valid()
      modifies this`disk, this`log
      ensures Valid() && log == old(log) + FailureOps(formats, old(disk), o, now)
    {
      var file := LoadCircuit(formats, disk, o.originID);
      if file.Broken? {
        return false;
      }
      var c := if file.Absent? then Fresh(o.originID) else file.circuit;
      var failures := c.consecutiveFailures + 1;
      var state := c.(consecutiveFailures := failures);
      if failures >= o.maxConsecutiveFailures {
        state := state.(openUntil := Some(formats.formatTime(now + o.circuitCooldownSeconds * SECOND)));
      }
      ok := WriteCircuitFile(state);
    }

    /** Writes the evidence files one after the other; `fault` is the number of writes the disk
      * still takes. */
    method WriteBundle(key: Key, f: Fetch, fault: Option<nat>) returns (ok: bool)
      requires Valid() && key in disk.spools
      modifies this`disk, this`log
      ensures Valid() && key in disk.spools && disk.circuits == old(disk).circuits
      ensures ok ==> |ViewBytes(formats, f)| <= MAX_JSON_VIEW_BYTES
                     && EnvelopePath() in disk.spools[key] && disk.spools[key][EnvelopePath()] == EnvelopeBytes(formats, f)
                     && ViewPath() in disk.spools[key] && disk.spools[key][ViewPath()] == ViewBytes(formats, f)
      ensures log == old(log) + BundleOps(formats, key, f, fault)
      ensures ok == (EvidenceWritten(formats, f, fault) == 4)
    {
      hide ApplyAll, EnvelopeBytes, ViewBytes, DigestText, CasPath, EnvelopePath, ViewPath, BodyRefPath;
      hide Observable, ValidEnvelope, EnvelopeOf;
      ok := false;
      PathsDistinct(formats.hash(f.body));
      ghost var ops := EvidenceOps(formats, key, f);
      var observable := ValidEnvelope(EnvelopeOf(formats, f), t => formats.time(t).Some?);
      ObservableIsValid(formats, f);
      if !observable || fault == Some(0) {
        return;
      }
      var cbor := EnvelopeBytes(formats, f);
      var view := ViewBytes(formats, f);
      var _ := WriteFile(key, CasPath(formats.hash(f.body)), f.body, |f.body|);
      assert log == old(log) + ops[..1];
      if fault == Some(1) {
        return;
      }
      ok := WriteFile(key, EnvelopePath(), cbor, MAX_ENVELOPE_BYTES);
      if !ok {
        return;
      }
      assert log == old(log) + ops[..2];
      if fault == Some(2) {
        return false;
      }
      ok := WriteFile(key, ViewPath(), view, MAX_JSON_VIEW_BYTES);
      if !ok {
        return;
      }
      assert log == old(log) + ops[..3];
      if fault == Some(3) {
        return false;
      }
      ok := WriteFile(key, BodyRefPath(), BodyReference(formats, f), MAX_BODY_REFERENCE_BYTES);
      assert log == old(log) + ops[..4];
    }

    method Publish(key: Key, l: Loaded, f: Fetch, envelope: Envelope, duration: nat)
      returns (result: Result<EgressResult, Error>)
      requires Valid() && key in disk.spools && Sealing(formats, l) && envelope == EnvelopeOf(formats, f)
      requires EnvelopePath() in disk.spools[key] && disk.spools[key][EnvelopePath()] == EnvelopeBytes(formats, f)
      requires ViewPath() in disk.spools[key] && disk.spools[key][ViewPath()] == ViewBytes(formats, f)
      requires 0 < |ViewBytes(formats, f)| <= MAX_JSON_VIEW_BYTES
      modifies this`disk, this`log
      ensures Valid() && log == old(log) + CompletionOps(formats, key, l, f, duration)
      ensures result.ToOption() == Fitting(formats, l, f, duration)
    {
      hide ApplyAll, Sealing, MarshalEnvelope, CircuitOps, ValidManifest, DigestText, CasPath;
      hide EnvelopePath, ViewPath, BodyRefPath, ResultPath, ManifestPath, WorkOrderPath, ResultFormat, ManifestFormat;
      ManifestOfValid(formats, l, f, duration);
      ghost var wanted := ManifestOf(formats, l, f, duration);
      var res := EgressResult(ResultFormat(), l.order.id, l.digest, l.order.originID, l.order.purpose,
        envelope.requestURL, envelope.finalURL, envelope.retrievedAt, envelope.status, envelope.mediaType, f.redirects,
        DigestOf(formats, disk.spools[key][EnvelopePath()]), DigestText(envelope.bodySHA256), envelope.bodySize, duration);
      assert res == ResultOf(formats, l, f, duration);
      var resultBytes := formats.putResult(res);
      PathsDistinct(formats.hash(f.body));
      var ok := WriteFile(key, ResultPath(), resultBytes, MAX_RESULT);
      if !ok {
        return Failure(TooLarge);
      }
      var view := ReadRegular(disk.spools[key], ViewPath(), MAX_JSON_VIEW_BYTES);
      var manifest := Manifest(ManifestFormat(), l.order.id, l.digest, [
        Artifact(CasPath(formats.hash(f.body)), res.bodyDigest),
        Artifact(BodyRefPath(), DigestOf(formats, res.bodyDigest + [10])),
        Artifact(EnvelopePath(), res.observationDigest),
        Artifact(ViewPath(), DigestOf(formats, view.value)),
        Artifact(ResultPath(), DigestOf(formats, resultBytes)),
        Artifact(WorkOrderPath(), l.digest)]);
      assert manifest == wanted;
      hide ManifestOf, ResultOf, EnvelopeOf, ViewPath, EnvelopePath, ResultPath, ManifestPath;
      var valid := ValidateManifest(manifest);
      if !valid {
        return Failure(Rejected);
      }
      ok := WriteFile(key, ManifestPath(), formats.putManifest(manifest), MAX_RESULT);
      if !ok {
        return Failure(TooLarge);
      }
      ok := WriteCircuitFile(Fresh(l.order.originID));
      result := Success(res);
    }

    /** The result, then the manifest, then the circuit reset, from evidence already on disk. */
    method Complete(key: Key, l: Loaded, f: Fetch, duration: nat) returns (result: Result<EgressResult, Error>)
      requires Valid() && key in disk.spools && Sealing(formats, l) && Lawful(formats)
      requires Observable(formats, f) && |EnvelopeBytes(formats, f)| <= MAX_ENVELOPE_BYTES
      requires EnvelopePath() in disk.spools[key] && disk.spools[key][EnvelopePath()] == EnvelopeBytes(formats, f)
      requires ViewPath() in disk.spools[key] && disk.spools[key][ViewPath()] == ViewBytes(formats, f)
      requires |ViewBytes(formats, f)| <= MAX_JSON_VIEW_BYTES
      modifies this`disk, this`log
      ensures Valid() && log == old(log) + CompletionOps(formats, key, l, f, duration)
      ensures result.ToOption() == Fitting(formats, l, f, duration)
    {
      hide ValidEnvelope, ApplyAll, Sealing, MarshalEnvelope, UnmarshalEnvelope, CircuitOps, ValidManifest, Lawful;
      assert 0 < |ViewBytes(formats, f)| by { ViewNotEmpty(formats, f); }
      ObservableIsValid(formats, f);
      EnvelopeRoundTrip(EnvelopeOf(formats, f), t => formats.time(t).Some?);
      var loaded := UnmarshalEnvelope(disk.spools[key][EnvelopePath()], t => formats.time(t).Some?);
      if loaded.Failure? {
        return Failure(Rejected);
      }
      result := Publish(key, l, f, loaded.value, duration);
    }

    /** Retrieval and manifest-last publication. */
    method ExecuteFetch(key: Key, l: Loaded, now: int, r: Retrieval) returns (result: Result<EgressResult, Error>)
      requires Valid() && key in disk.spools && Sealing(formats, l) && Lawful(formats) && |l.data| <= MAX_WORK_ORDER
      modifies this`disk, this`log
      ensures Valid() && log == old(log) + FetchOps(formats, old(disk), key, l, now, r)
      ensures result.ToOption() == Published(formats, l, r)
    {
      hide Observable, BundleOps, FailureOps, CompletionOps, ResultOf, Sealing, ApplyAll, Lawful;
      hide EvidenceWritten, EnvelopeBytes, ViewBytes, ResultBytes, ManifestBytes;
      if r.Unreachable? {
        var _ := RecordFailure(l.order, now);
        return Failure(RetrievalFailed);
      }
      var f := r.fetch;
      var ok := WriteBundle(key, f, r.fault);
      SameFailure(formats, old(disk), disk, l.order, now);
      EvidenceFits(formats, f, r.fault);
      if !ok {
        var _ := RecordFailure(l.order, now);
        return Failure(EvidenceFailed);
      }
      result := Complete(key, l, f, r.duration);
    }

    ghost method StartRetrieval(key: Key, originID: Bytes, now: int)
      requires Valid()
      modifies this`log
      ensures Valid() && log == old(log) + [Retrieve(key, originID, now)]
    {
      Record(Retrieve(key, originID, now));
    }

    /** An origin is held back while its circuit file is unreadable, or open until a later time. */
    method CheckCircuit(o: Order, now: int) returns (ok: bool)
      ensures ok <==> CircuitAllows(formats, disk, o, now)
    {
      hide LoadCircuit;
      var file := LoadCircuit(formats, disk, o.originID);
      if file.Absent? {
        return true;
      }
      if file.Broken? {
        return false;
      }
      if file.circuit.openUntil.Some? {
        var until := formats.time(file.circuit.openUntil.value);
        if until.None? || now < until.value {
          return false;
        }
      }
      ok := true;
    }

    /** What an admitted attempt does while it holds the lease. */
    method ExecuteLeased(l: Loaded, now: int, r: Retrieval) returns (result: Result<EgressResult, Error>)
      requires Valid() && Sealing(formats, l) && Lawful(formats)
      modifies this`disk, this`log
      ensures Valid() && log == old(log) + LeasedOps(formats, old(disk), l, now, r)
      ensures result.ToOption() == LeasedResult(formats, old(disk), l, now, r)
    {
      hide Sealing, Published, CircuitAllows, ApplyAll, KeyOf, FetchOps, Lawful, WorkOrderPath;
      SealingFacts(formats, l);
      var allowed := CheckCircuit(l.order, now);
      if !allowed {
        return Failure(CircuitOpen);
      }
      var key := KeyOf(l);
      var ok := CreateSpool(key);
      if !ok {
        return Failure(SpoolExists);
      }
      ok := WriteFile(key, WorkOrderPath(), l.data, MAX_WORK_ORDER);
      if !ok {
        TooLargeUnpublished(formats, l, r);
        return Failure(TooLarge);
      }
      StartRetrieval(key, l.order.originID, now);
      SameCircuits(formats, old(disk), disk, key, l, now, r);
      result := ExecuteFetch(key, l, now, r);
    }

    method Admit(l: Loaded, c: Control, now: int) returns (refusal: Option<Error>)
      ensures refusal.None? <==> Admitted(formats, l, c, now)
      ensures refusal.None? ==> Sealing(formats, l)
    {
      hide ValidControl;
      if !ValidOrder(formats, l.order) || DigestOf(formats, l.data) != l.digest {
        return Some(InvalidWorkOrder);
      }
      if !ValidControl(c) {
        return Some(InvalidControl);
      }
      if !c.enabled || c.emergencyStop {
        return Some(Disabled);
      }
      if l.order.originID in c.revokedOrigins || l.order.id in c.revokedOrders {
        return Some(Revoked);
      }
      if now < formats.time(l.order.notBefore).value || now >= formats.time(l.order.expiresAt).value {
        return Some(Expired);
      }
      refusal := None;
    }

    /** One attempt under the global lease. */
    method Execute(l: Loaded, c: Control, now: int, r: Retrieval) returns (result: Result<EgressResult, Error>)
      requires Valid() && Lawful(formats)
      modifies this
      ensures Valid() && leased == old(leased)
      ensures old(leased) ==> result.Failure? && log == old(log)
      ensures !old(leased) ==> log == old(log) + Program(formats, old(disk), l, c, now, r)
      ensures !old(leased) ==> result.ToOption() == Reported(formats, old(disk), l, c, now, r)
    {
      hide Sealing, LeasedResult, LeasedOps, Admitted, ApplyAll, Lawful;
      var refusal := Admit(l, c, now);
      if refusal.Some? {
        return Failure(refusal.value);
      }
      if leased {
        return Failure(LeaseHeld);
      }
      leased := true;
      result := ExecuteLeased(l, now, r);
      leased := false;
    }
  }

  // ----- runs with crashes ---------------------------------------------------

  /** One attempt of a run: the process dies after `cut` operations, if it gets that far. */
  datatype Attempt = Attempt(loaded: Loaded, control: Control, now: int, retrieval: Retrieval, cut: nat)

  function Executed(e: Formats, d: Disk, a: Attempt): seq<Op> {
    var p := Program(e, d, a.loaded, a.control, a.now, a.retrieval);
    if a.cut < |p| then p[..a.cut] else p
  }

  ghost function DiskAfter(e: Formats, d: Disk, run: seq<Attempt>): Disk {
    if run == [] then d
    else
      var before := DiskAfter(e, d, run[..|run| - 1]);
      ApplyAll(before, Executed(e, before, run[|run| - 1]))
  }

  /** Everything a run did, in order. */
  ghost function LogOf(e: Formats, d: Disk, run: seq<Attempt>): seq<Op> {
    if run == [] then []
    else
      LogOf(e, d, run[..|run| - 1]) + Executed(e, DiskAfter(e, d, run[..|run| - 1]), run[|run| - 1])
  }

  ghost predicate Genuine(e: Formats, run: seq<Attempt>) {
    forall a :: a in run ==> WellLoaded(e, a.loaded)
  }

  const EMPTY := Disk(map[], map[])

  // ----- what operations leave alone -----------------------------------------

  predicate OwnedBy(ops: seq<Op>, key: Key) {
    forall op :: op in ops ==> (op.MakeSpool? ==> op.key == key) && (op.Write? ==> op.key == key)
  }

  predicate NoManifest(ops: seq<Op>) {
    forall op :: op in ops && op.Write? ==> op.path != ManifestPath()
  }

  lemma {:induction false} OthersKept(d: Disk, ops: seq<Op>, key: Key)
    requires OwnedBy(ops, key)
    ensures var after := ApplyAll(d, ops).spools;
            && d.spools.Keys <= after.Keys <= d.spools.Keys + {key}
            && forall k :: k in d.spools && k != key ==> after[k] == d.spools[k]
  {
    if ops != [] {
      OthersKept(d, ops[..|ops| - 1], key);
      assert ops[|ops| - 1] in ops;
    }
  }

  lemma {:induction false} Withheld(d: Disk, ops: seq<Op>, key: Key)
    requires OwnedBy(ops, key) && NoManifest(ops) && key !in d.spools
    ensures key in ApplyAll(d, ops).spools ==> ManifestPath() !in ApplyAll(d, ops).spools[key]
  {
    hide ManifestPath;
    if ops != [] {
      Withheld(d, ops[..|ops| - 1], key);
      assert ops[|ops| - 1] in ops;
    }
  }

  // ----- a complete spool ----------------------------------------------------

  /** The files of an attempt that reached its manifest. */
  function CompleteFiles(e: Formats, l: Loaded, f: Fetch, duration: nat): Files {
    map[WorkOrderPath() := l.data]
      [CasPath(e.hash(f.body)) := f.body]
      [EnvelopePath() := EnvelopeBytes(e, f)]
      [ViewPath() := ViewBytes(e, f)]
      [BodyRefPath() := BodyReference(e, f)]
      [ResultPath() := ResultBytes(e, l, f, duration)]
      [ManifestPath() := ManifestBytes(e, l, f, duration)]
  }

  function CompleteOps(e: Formats, l: Loaded, f: Fetch, duration: nat, now: int): seq<Op> {
    var key := KeyOf(l);
    [MakeSpool(key), Write(key, WorkOrderPath(), l.data), Retrieve(key, l.order.originID, now)]
    + EvidenceOps(e, key, f) + PublishOps(e, key, l, f, duration)
  }

  function PublishOps(e: Formats, key: Key, l: Loaded, f: Fetch, duration: nat): seq<Op> {
    [Write(key, ResultPath(), ResultBytes(e, l, f, duration)),
     Write(key, ManifestPath(), ManifestBytes(e, l, f, duration))]
  }

  // The files that a list of operations leaves in the one spool it writes to.
  function WriteAll(files: Files, ops: seq<Op>): Files {
    if ops == [] then files
    else
      var op := ops[|ops| - 1];
      if op.Write? then WriteAll(files, ops[..|ops| - 1])[op.path := op.data] else WriteAll(files, ops[..|ops| - 1])
  }

  lemma WriteLast(files: Files, ops: seq<Op>, op: Op)
    ensures WriteAll(files, ops + [op])
            == if op.Write? then WriteAll(files, ops)[op.path := op.data] else WriteAll(files, ops)
  {
    assert (ops + [op])[..|ops|] == ops;
  }

  lemma {:induction false} WritesInOrder(d: Disk, ops: seq<Op>, key: Key)
    requires key in d.spools && OwnedBy(ops, key) && forall op :: op in ops ==> !op.MakeSpool?
    ensures key in ApplyAll(d, ops).spools && ApplyAll(d, ops).spools[key] == WriteAll(d.spools[key], ops)
  {
    if ops != [] {
      WritesInOrder(d, ops[..|ops| - 1], key);
      assert ops[|ops| - 1] in ops;
    }
  }

  lemma SpoolFiles(d: Disk, ops: seq<Op>, key: Key)
    requires ops != [] && ops[0] == MakeSpool(key) && OwnedBy(ops, key)
    requires forall i :: 1 <= i < |ops| ==> !ops[i].MakeSpool?
    ensures key in ApplyAll(d, ops).spools && ApplyAll(d, ops).spools[key] == WriteAll(map[], ops[1..])
  {
    var made := ApplyAll(d, [MakeSpool(key)]);
    assert made == Apply(d, MakeSpool(key)) by {
      assert [MakeSpool(key)][..0] == [];
      assert ApplyAll(d, []) == d;
    }
    assert ops == [MakeSpool(key)] + ops[1..];
    ApplySplit(d, [MakeSpool(key)], ops[1..]);
    WritesInOrder(made, ops[1..], key);
  }

  lemma {:induction false} OnlyCircuits(files: Files, ops: seq<Op>, more: seq<Op>)
    requires forall op :: op in more ==> !op.Write?
    ensures WriteAll(files, ops + more) == WriteAll(files, ops)
  {
    if more == [] {
      assert ops + more == ops;
    } else {
      var last := |more| - 1;
      assert more[last] in more;
      OnlyCircuits(files, ops, more[..last]);
      assert ops + more == ops + more[..last] + [more[last]];
      WriteLast(files, ops + more[..last], more[last]);
    }
  }

  lemma CompleteFilesWritten(e: Formats, l: Loaded, f: Fetch, duration: nat, now: int)
    ensures WriteAll(map[], CompleteOps(e, l, f, duration, now)[1..]) == CompleteFiles(e, l, f, duration)
  {
    hide CasPath, EnvelopePath, ViewPath, BodyRefPath, ResultPath, ManifestPath, WorkOrderPath, KeyOf;
    hide EnvelopeBytes, ViewBytes, BodyReference, ResultBytes, ManifestBytes;
    var key := KeyOf(l);
    var first := [MakeSpool(key), Write(key, WorkOrderPath(), l.data), Retrieve(key, l.order.originID, now)];
    var evidence, last := EvidenceOps(e, key, f), PublishOps(e, key, l, f, duration);
    ThreeParts(first, evidence, last);
    hide WriteAll;
    EightOps(CompleteOps(e, l, f, duration, now)[1..]);
  }

  lemma ThreeParts(a: seq<Op>, b: seq<Op>, c: seq<Op>)
    requires |a| == 3 && |b| == 4 && |c| == 2
    ensures (a + b + c)[1..] == [a[1], a[2], b[0], b[1], b[2], b[3], c[0], c[1]]
  {
  }

  lemma EightOps(ops: seq<Op>)
    requires |ops| == 8 && ops[0].Write? && ops[1].Retrieve? && ops[2].Write? && ops[3].Write? && ops[4].Write?
    requires ops[5].Write? && ops[6].Write? && ops[7].Write?
    ensures WriteAll(map[], ops)
            == map[ops[0].path := ops[0].data][ops[2].path := ops[2].data][ops[3].path := ops[3].data]
                  [ops[4].path := ops[4].data][ops[5].path := ops[5].data][ops[6].path := ops[6].data]
                  [ops[7].path := ops[7].data]
  {
    hide WriteAll;
    WriteNext(ops, 0);
    WriteNext(ops, 1);
    WriteNext(ops, 2);
    WriteNext(ops, 3);
    WriteNext(ops, 4);
    WriteNext(ops, 5);
    WriteNext(ops, 6);
    WriteNext(ops, 7);
    assert ops[..8] == ops;
  }

  lemma WriteNext(ops: seq<Op>, n: nat)
    requires n < |ops|
    ensures WriteAll(map[], ops[..n + 1])
            == if ops[n].Write? then WriteAll(map[], ops[..n])[ops[n].path := ops[n].data] else WriteAll(map[], ops[..n])
    ensures WriteAll(map[], ops[..0]) == map[]
  {
    assert ops[..n + 1] == ops[..n] + [ops[n]];
    WriteLast(map[], ops[..n], ops[n]);
  }

  // ----- the shape of a program ----------------------------------------------

  // Writes to one spool, and circuit files.
  predicate WritesTo(ops: seq<Op>, key: Key) {
    forall op :: op in ops ==> (op.Write? && op.key == key) || op.WriteCircuit?
  }

  lemma Join(a: seq<Op>, b: seq<Op>, key: Key)
    ensures WritesTo(a, key) && WritesTo(b, key) ==> WritesTo(a + b, key)
    ensures NoManifest(a) && NoManifest(b) ==> NoManifest(a + b)
  {
    hide ManifestPath;
  }

  lemma EvidenceShape(e: Formats, key: Key, f: Fetch)
    ensures WritesTo(EvidenceOps(e, key, f), key) && NoManifest(EvidenceOps(e, key, f))
  {
    hide CasPath, EnvelopePath, ViewPath, BodyRefPath, ManifestPath, EnvelopeBytes, ViewBytes, BodyReference;
    PathsDistinct(e.hash(f.body));
    var ops := EvidenceOps(e, key, f);
    assert forall i :: 0 <= i < 4 ==> ops[i].Write? && ops[i].path != ManifestPath();
  }

  lemma BundleShape(e: Formats, key: Key, f: Fetch, fault: Option<nat>)
    ensures WritesTo(BundleOps(e, key, f, fault), key) && NoManifest(BundleOps(e, key, f, fault))
    ensures EvidenceWritten(e, f, fault) == 4 ==> BundleOps(e, key, f, fault) == EvidenceOps(e, key, f)
  {
    EvidenceShape(e, key, f);
    assert |EvidenceOps(e, key, f)| == 4;
    hide EvidenceOps, EvidenceWritten, ManifestPath;
  }

  lemma FailureShape(e: Formats, d: Disk, o: Order, now: int, key: Key)
    ensures WritesTo(FailureOps(e, d, o, now), key) && NoManifest(FailureOps(e, d, o, now))
  {
  }

  lemma CompletionShape(e: Formats, key: Key, l: Loaded, f: Fetch, duration: nat)
    requires Sealing(e, l) && Lawful(e)
    ensures var ops := CompletionOps(e, key, l, f, duration);
            && WritesTo(ops, key)
            && (if Fitting(e, l, f, duration).Some?
                then ops == PublishOps(e, key, l, f, duration) + CircuitOps(e, Fresh(l.order.originID))
                else NoManifest(ops))
  {
    hide Sealing, ValidManifest, ManifestOf, ResultBytes, ManifestBytes, ResultPath, ManifestPath, Lawful, ResultOf;
    ManifestOfValid(e, l, f, duration);
    ViewNotEmpty(e, f);
    assert ResultPath() != ManifestPath() by { PathsDistinct(e.hash(f.body)); }
  }

  // Whether an attempt that retrieved gets as far as its manifest.
  predicate Completes(e: Formats, l: Loaded, r: Retrieval): (b: bool)
    ensures b ==> r.Fetched?
  {
    Published(e, l, r).Some?
  }

  lemma FetchShape(e: Formats, d: Disk, key: Key, l: Loaded, now: int, r: Retrieval)
    requires Sealing(e, l) && Lawful(e) && |l.data| <= MAX_WORK_ORDER
    ensures var ops := FetchOps(e, d, key, l, now, r);
            && WritesTo(ops, key)
            && (if Completes(e, l, r)
                then ops == EvidenceOps(e, key, r.fetch) + PublishOps(e, key, l, r.fetch, r.duration)
                            + CircuitOps(e, Fresh(l.order.originID))
                else NoManifest(ops))
  {
    hide Sealing, Lawful, FailureOps, CompletionOps, EvidenceOps, BundleOps, PublishOps, CircuitOps;
    hide Fitting, WritesTo, NoManifest, EvidenceWritten, ResultOf, Observable, EnvelopeBytes, ViewBytes;
    FailureShape(e, d, l.order, now, key);
    if r.Fetched? {
      BundleShape(e, key, r.fetch, r.fault);
      CompletionShape(e, key, l, r.fetch, r.duration);
      EvidenceFits(e, r.fetch, r.fault);
      Join(BundleOps(e, key, r.fetch, r.fault), FailureOps(e, d, l.order, now), key);
      Join(BundleOps(e, key, r.fetch, r.fault), CompletionOps(e, key, l, r.fetch, r.duration), key);
    }
  }

  /** A program creates its own spool first, and either writes no manifest at all or writes it
    * once the spool is complete and only a circuit file follows. */
  lemma ProgramShape(e: Formats, d: Disk, l: Loaded, c: Control, now: int, r: Retrieval)
    requires Lawful(e)
    ensures var p := Program(e, d, l, c, now, r);
            && OwnedBy(p, KeyOf(l))
            && (p != [] ==> KeyOf(l) !in d.spools && p[0] == MakeSpool(KeyOf(l)))
            && (forall i :: 1 <= i < |p| ==> !p[i].MakeSpool?)
            && (if p != [] && Completes(e, l, r)
                then p == CompleteOps(e, l, r.fetch, r.duration, now) + CircuitOps(e, Fresh(l.order.originID))
                else NoManifest(p))
  {
    hide Sealing, Lawful, Admitted, CircuitAllows, KeyOf, FetchOps, EvidenceOps, PublishOps, CircuitOps, Publishable;
    hide WorkOrderPath, ManifestPath, EvidenceWritten, ResultOf, CompleteOps;
    var p := Program(e, d, l, c, now, r);
    if p == [] || |l.data| > MAX_WORK_ORDER {
      return;
    }
    AdmittedIsSealing(e, l, c, now);
    WholeProgram(e, d, l, now, r);
  }

  lemma AdmittedIsSealing(e: Formats, l: Loaded, c: Control, now: int)
    ensures Admitted(e, l, c, now) ==> Sealing(e, l)
  {
  }

  lemma WholeProgram(e: Formats, d: Disk, l: Loaded, now: int, r: Retrieval)
    requires Sealing(e, l) && Lawful(e) && |l.data| <= MAX_WORK_ORDER && LeasedOps(e, d, l, now, r) != []
    ensures var p := LeasedOps(e, d, l, now, r);
            && OwnedBy(p, KeyOf(l))
            && KeyOf(l) !in d.spools && p[0] == MakeSpool(KeyOf(l))
            && (forall i :: 1 <= i < |p| ==> !p[i].MakeSpool?)
            && (if Completes(e, l, r)
                then p == CompleteOps(e, l, r.fetch, r.duration, now) + CircuitOps(e, Fresh(l.order.originID))
                else NoManifest(p))
  {
    hide Sealing, Lawful, CircuitAllows, KeyOf, FetchOps, EvidenceOps, PublishOps, CircuitOps, Published;
    hide WorkOrderPath, ManifestPath;
    var p := LeasedOps(e, d, l, now, r);
    assert WorkOrderPath() != ManifestPath() by {
      PathsDistinct(ZeroDigest());
    }
    FetchShape(e, d, KeyOf(l), l, now, r);
    var ops := FetchOps(e, d, KeyOf(l), l, now, r);
    assert forall i :: 0 <= i < |ops| ==> ops[i] in ops;
    assert forall i :: 3 <= i < |p| ==> p[i] == ops[i - 3];
  }

  // ----- manifest last -------------------------------------------------------

  // The files are those of an attempt that reached its manifest.
  ghost predicate SealedBy(e: Formats, key: Key, files: Files, l: Loaded, r: Retrieval) {
    Sealing(e, l) && Completes(e, l, r) && KeyOf(l) == key && files == CompleteFiles(e, l, r.fetch, r.duration)
  }

  ghost predicate Sealed(e: Formats, run: seq<Attempt>, d: Disk) {
    forall key :: key in d.spools && ManifestPath() in d.spools[key] ==>
      exists a :: a in run && SealedBy(e, key, d.spools[key], a.loaded, a.retrieval)
  }

  lemma CompleteOpsShape(e: Formats, l: Loaded, f: Fetch, duration: nat, now: int)
    ensures var ops := CompleteOps(e, l, f, duration, now);
            |ops| == 9 && ops[0] == MakeSpool(KeyOf(l)) && NoManifest(ops[..8])
  {
    hide ManifestPath, WorkOrderPath, ResultPath, KeyOf, ResultBytes, ManifestBytes, EvidenceOps;
    EvidenceShape(e, KeyOf(l), f);
    assert WorkOrderPath() != ManifestPath() && ResultPath() != ManifestPath() by { PathsDistinct(ZeroDigest()); }
    var head := [MakeSpool(KeyOf(l)), Write(KeyOf(l), WorkOrderPath(), l.data), Retrieve(KeyOf(l), l.order.originID, now)];
    var last := [Write(KeyOf(l), ResultPath(), ResultBytes(e, l, f, duration))];
    assert NoManifest(head) && NoManifest(last);
    hide NoManifest;
    Join(head, EvidenceOps(e, KeyOf(l), f), KeyOf(l));
    Join(head + EvidenceOps(e, KeyOf(l), f), last, KeyOf(l));
    assert CompleteOps(e, l, f, duration, now)[..8] == head + EvidenceOps(e, KeyOf(l), f) + last;
  }

  lemma PrefixKeeps(ops: seq<Op>, n: nat, key: Key)
    requires n <= |ops|
    ensures OwnedBy(ops, key) ==> OwnedBy(ops[..n], key)
    ensures NoManifest(ops) ==> NoManifest(ops[..n])
  {
    hide ManifestPath;
    assert forall op :: op in ops[..n] ==> op in ops;
  }

  // What one attempt leaves in its own spool.
  lemma OwnSpool(e: Formats, d: Disk, a: Attempt)
    requires Lawful(e)
    ensures var ops := Executed(e, d, a);
            var key := KeyOf(a.loaded);
            && OwnedBy(ops, key)
            && (ops != [] ==> key !in d.spools && ops[0] == MakeSpool(key))
            && (forall i :: 1 <= i < |ops| ==> !ops[i].MakeSpool?)
            && (NoManifest(ops) || (Completes(e, a.loaded, a.retrieval) && Sealing(e, a.loaded)
                && WriteAll(map[], ops[1..]) == CompleteFiles(e, a.loaded, a.retrieval.fetch, a.retrieval.duration)))
  {
    hide Sealing, Lawful, Program, KeyOf, CompleteOps, CompleteFiles, Completes, OwnedBy, NoManifest, CircuitOps;
    var l, r := a.loaded, a.retrieval;
    ProgramShape(e, d, l, a.control, a.now, r);
    ProgramIsSealing(e, d, l, a.control, a.now, r);
    var p := Program(e, d, l, a.control, a.now, r);
    var ops := Executed(e, d, a);
    PrefixKeeps(p, |ops|, KeyOf(l));
    if p != [] && Completes(e, l, r) {
      var whole := CompleteOps(e, l, r.fetch, r.duration, a.now);
      var rest := CircuitOps(e, Fresh(l.order.originID));
      CompleteOpsShape(e, l, r.fetch, r.duration, a.now);
      if |ops| <= 8 {
        assert ops == whole[..8][..|ops|];
        PrefixKeeps(whole[..8], |ops|, KeyOf(l));
      } else {
        CircuitOpsShape(e, Fresh(l.order.originID));
        assert ops == whole + rest[..|ops| - 9];
        assert ops[1..] == whole[1..] + rest[..|ops| - 9];
        CompleteFilesWritten(e, l, r.fetch, r.duration, a.now);
        OnlyCircuits(map[], whole[1..], rest[..|ops| - 9]);
      }
    }
  }

  lemma ProgramIsSealing(e: Formats, d: Disk, l: Loaded, c: Control, now: int, r: Retrieval)
    ensures Program(e, d, l, c, now, r) != [] ==> Sealing(e, l)
  {
  }

  lemma CircuitOpsShape(e: Formats, c: Circuit)
    ensures forall n :: 0 <= n <= |CircuitOps(e, c)| ==> forall op :: op in CircuitOps(e, c)[..n] ==> op.WriteCircuit?
  {
  }

  lemma AttemptSeals(e: Formats, run: seq<Attempt>, d: Disk, a: Attempt)
    requires Lawful(e) && Sealed(e, run, d)
    ensures Sealed(e, run + [a], ApplyAll(d, Executed(e, d, a)))
  {
    hide Sealing, Lawful, Executed, CompleteFiles, ManifestPath, KeyOf, ApplyAll, Completes, WriteAll, OwnedBy, NoManifest;
    var ops, own := Executed(e, d, a), KeyOf(a.loaded);
    var after := ApplyAll(d, ops);
    OwnSpool(e, d, a);
    OthersKept(d, ops, own);
    forall key | key in after.spools && ManifestPath() in after.spools[key]
      ensures exists b :: b in run + [a] && SealedBy(e, key, after.spools[key], b.loaded, b.retrieval)
    {
      if key == own && ops != [] {
        if NoManifest(ops) {
          Withheld(d, ops, own);
        } else {
          SpoolFiles(d, ops, own);
          assert a in run + [a] && SealedBy(e, key, after.spools[key], a.loaded, a.retrieval);
        }
      } else {
        NothingDone(d, ops);
        assert after.spools[key] == d.spools[key];
        var b :| b in run && SealedBy(e, key, d.spools[key], b.loaded, b.retrieval);
        assert b in run + [a];
      }
    }
  }

  lemma NothingDone(d: Disk, ops: seq<Op>)
    ensures ops == [] ==> ApplyAll(d, ops) == d
  {
  }

  /** Whatever attempts ran and wherever they crashed, a spool with a manifest holds exactly the
    * files of an attempt of the run that completed. */
  lemma {:induction false} AlwaysSealed(e: Formats, run: seq<Attempt>)
    requires Lawful(e)
    ensures Sealed(e, run, DiskAfter(e, EMPTY, run))
  {
    hide Lawful, Executed, SealedBy;
    if run != [] {
      var earlier, a := run[..|run| - 1], run[|run| - 1];
      AlwaysSealed(e, earlier);
      AttemptSeals(e, earlier, DiskAfter(e, EMPTY, earlier), a);
      assert run == earlier + [a];
    }
  }

  lemma CompleteFilesHold(e: Formats, l: Loaded, f: Fetch, duration: nat)
    ensures var files := CompleteFiles(e, l, f, duration);
            && files.Keys == {WorkOrderPath(), CasPath(e.hash(f.body)), EnvelopePath(), ViewPath(), BodyRefPath(),
                              ResultPath(), ManifestPath()}
            && files[WorkOrderPath()] == l.data && files[CasPath(e.hash(f.body))] == f.body
            && files[EnvelopePath()] == EnvelopeBytes(e, f) && files[ViewPath()] == ViewBytes(e, f)
            && files[BodyRefPath()] == BodyReference(e, f) && files[ResultPath()] == ResultBytes(e, l, f, duration)
            && files[ManifestPath()] == ManifestBytes(e, l, f, duration)
  {
    hide WorkOrderPath, CasPath, EnvelopePath, ViewPath, BodyRefPath, ResultPath, ManifestPath;
    hide EnvelopeBytes, ViewBytes, BodyReference, ResultBytes, ManifestBytes;
    PathsDistinct(e.hash(f.body));
  }

  lemma AsciiPlain(v: Bytes)
    requires IsAscii(v) && |v| <= MAX_URL_BYTES
    ensures Plain(v)
  {
    AsciiIsUtf8(v);
  }

  lemma DigestPlain(e: Formats, data: Bytes)
    ensures Plain(DigestOf(e, data)) && ValidDigest(DigestOf(e, data))
  {
    DigestTextValid(e.hash(data));
    AsciiPlain(DigestOf(e, data));
  }

  lemma FixedTextsPlain(d: Digest)
    ensures Plain(WorkOrderPath()) && Plain(CasPath(d)) && Plain(EnvelopePath()) && Plain(ViewPath())
    ensures Plain(BodyRefPath()) && Plain(ResultPath()) && Plain(ManifestFormat()) && Plain(ResultFormat())
  {
    hide Plain, Hex;
    AsciiPlain(WorkOrderPath());
    AsciiPlain(CasPath(d));
    AsciiPlain(EnvelopePath());
    AsciiPlain(ViewPath());
    AsciiPlain(BodyRefPath());
    AsciiPlain(ResultPath());
    AsciiPlain(ManifestFormat());
    AsciiPlain(ResultFormat());
  }

  lemma ManifestReadsBack(e: Formats, l: Loaded, f: Fetch, duration: nat)
    requires Sealing(e, l) && Lawful(e)
    ensures e.manifest(ManifestBytes(e, l, f, duration)) == Some(ManifestOf(e, l, f, duration))
    ensures |ManifestBytes(e, l, f, duration)| > 0
  {
    hide Sealing, PlainManifest, ManifestOf;
    ManifestPlain(e, l, f, duration);
  }

  lemma ManifestPlain(e: Formats, l: Loaded, f: Fetch, duration: nat)
    requires Sealing(e, l)
    ensures PlainManifest(ManifestOf(e, l, f, duration))
  {
    hide Sealing, Plain, DigestOf, EnvelopeBytes, ViewBytes, BodyReference, ResultBytes, ValidDigest;
    hide WorkOrderPath, CasPath, EnvelopePath, ViewPath, BodyRefPath, ResultPath, ManifestFormat;
    SealingFacts(e, l);
    AsciiPlain(l.order.id);
    SealingDigest(e, l);
    forall data ensures Plain(DigestOf(e, data)) {
      DigestPlain(e, data);
    }
    FixedTextsPlain(e.hash(f.body));
    assert |ManifestOf(e, l, f, duration).artifacts| == 6;
  }

  lemma SealingDigest(e: Formats, l: Loaded)
    requires Sealing(e, l)
    ensures l.digest == DigestOf(e, l.data)
  {
  }

  lemma LoadedDigest(e: Formats, l: Loaded)
    requires WellLoaded(e, l)
    ensures l.digest == DigestOf(e, l.data) && e.order(l.data) == Some(l.order) && ValidOrder(e, l.order)
  {
  }

  // Every artifact that a manifest lists is in the spool and has the listed digest.
  ghost predicate Attested(e: Formats, files: Files, m: Manifest) {
    forall a :: a in m.artifacts ==> a.path in files && DigestOf(e, files[a.path]) == a.digest
  }

  /** In every disk that any run and any crashes can leave behind, a present manifest lists six
    * artifacts that exist and hash to their listed digests. */
  lemma ManifestLast(e: Formats, run: seq<Attempt>, key: Key)
    requires Lawful(e)
    ensures var d := DiskAfter(e, EMPTY, run);
            key in d.spools && ManifestPath() in d.spools[key] ==>
              var m := e.manifest(d.spools[key][ManifestPath()]);
              m.Some? && ValidManifest(m.value) && Attested(e, d.spools[key], m.value)
  {
    hide Lawful, Sealing, ManifestPath, ValidManifest, Attested, ManifestOf, Completes, ManifestBytes, CompleteFiles;
    AlwaysSealed(e, run);
    var d := DiskAfter(e, EMPTY, run);
    if key in d.spools && ManifestPath() in d.spools[key] {
      var a :| a in run && SealedBy(e, key, d.spools[key], a.loaded, a.retrieval);
      var l, r := a.loaded, a.retrieval;
      CompleteFilesHold(e, l, r.fetch, r.duration);
      ManifestReadsBack(e, l, r.fetch, r.duration);
      ManifestOfValid(e, l, r.fetch, r.duration);
      CompleteAttested(e, l, r.fetch, r.duration);
    }
  }

  lemma CompleteAttested(e: Formats, l: Loaded, f: Fetch, duration: nat)
    requires Sealing(e, l)
    ensures Attested(e, CompleteFiles(e, l, f, duration), ManifestOf(e, l, f, duration))
  {
    hide Sealing, CompleteFiles, DigestOf, EnvelopeBytes, ViewBytes, BodyReference, ResultBytes, ManifestBytes;
    hide WorkOrderPath, CasPath, EnvelopePath, ViewPath, BodyRefPath, ResultPath, ManifestPath;
    CompleteFilesHold(e, l, f, duration);
    SealingDigest(e, l);
  }

  // ----- verification of a spool ---------------------------------------------

  function ArtifactLimit(path: Bytes, maxBody: int): int {
    if HasPrefix(path, CasPrefix()) then maxBody
    else if path == EnvelopePath() then MAX_ENVELOPE_BYTES else MAX_RESULT
  }

  function ReadArtifact(files: Files, path: Bytes, maxBody: int): Option<Bytes> {
    ReadRegular(files, path, ArtifactLimit(path, maxBody))
  }

  predicate ArtifactMatches(e: Formats, files: Files, a: Artifact, maxBody: int) {
    var data := ReadArtifact(files, a.path, maxBody);
    data.Some? && DigestOf(e, data.value) == a.digest
  }

  predicate AllMatch(e: Formats, files: Files, m: Manifest, maxBody: int) {
    forall i :: 0 <= i < |m.artifacts| ==> ArtifactMatches(e, files, m.artifacts[i], maxBody)
  }

  predicate ResultAdmissible(o: Order, orderDigest: Bytes, r: EgressResult, maxBody: int) {
    && r.format == ResultFormat() && r.workOrderID == o.id && r.workOrderDigest == orderDigest
    && r.originID == o.originID && r.purpose == o.purpose && r.requestURL == o.url
    && 100 <= r.httpStatus <= 599 && r.mediaType != [] && |r.mediaType| <= 255
    && 0 <= r.redirectCount <= o.maxRedirects && 0 <= r.durationMillis
    && ValidDigest(r.observationDigest) && ValidDigest(r.bodyDigest) && r.bodySize <= maxBody
  }

  predicate EnvelopeAgrees(env: Envelope, r: EgressResult) {
    && DigestText(env.bodySHA256) == r.bodyDigest && env.bodySize == r.bodySize
    && env.requestURL == r.requestURL && env.finalURL == r.finalURL && env.policyID == WorkerPolicyID()
  }

  predicate BodyAgrees(e: Formats, files: Files, env: Envelope, r: EgressResult, maxBody: int) {
    && ReadRegular(files, BodyRefPath(), MAX_BODY_REFERENCE_BYTES) == Some(r.bodyDigest + [10])
    && CasPath(env.bodySHA256) in files
    && var body := files[CasPath(env.bodySHA256)];
    |body| <= maxBody && e.hash(body) == env.bodySHA256 && |body| == env.bodySize
  }

  // The envelope, the body reference and the stored body agree with the result.
  predicate EvidenceAgrees(e: Formats, files: Files, r: EgressResult, maxBody: int) {
    && EnvelopePath() in files && DigestOf(e, files[EnvelopePath()]) == r.observationDigest
    && var env := UnmarshalEnvelope(files[EnvelopePath()], t => e.time(t).Some?);
    && env.Success? && EnvelopeAgrees(env.value, r) && BodyAgrees(e, files, env.value, r, maxBody)
  }

  // The checks that follow once every listed artifact has been rehashed.
  function ResultVerified(e: Formats, files: Files, m: Manifest, maxBody: int): Option<EgressResult> {
    var order := ReadRegular(files, WorkOrderPath(), MAX_WORK_ORDER);
    var result := ReadRegular(files, ResultPath(), MAX_RESULT);
    if order.None? || DigestOf(e, order.value) != m.workOrderDigest || e.order(order.value).None? then None
    else
      var o := e.order(order.value).value;
      if o.id != m.workOrderID || !ValidOrder(e, o) || result.None? || e.result(result.value).None? then None
      else
        var r := e.result(result.value).value;
        if ResultAdmissible(o, m.workOrderDigest, r, maxBody) && EvidenceAgrees(e, files, r, maxBody) then Some(r)
        else None
  }

  /** What verifying a spool returns: only a complete, rehashed spool yields its result. */
  function Verified(e: Formats, files: Files, maxBody: int): Option<EgressResult> {
    var data := ReadRegular(files, ManifestPath(), MAX_RESULT);
    if maxBody <= 0 || maxBody > MAX_BODY || data.None? || e.manifest(data.value).None? then None
    else
      var m := e.manifest(data.value).value;
      if ValidManifest(m) && AllMatch(e, files, m, maxBody) then ResultVerified(e, files, m, maxBody) else None
  }

  /** The verifier: the manifest, then every artifact in turn, then the result. */
  method VerifySpool(e: Formats, files: Files, maxBody: int) returns (r: Result<EgressResult, Error>)
    ensures r.ToOption() == Verified(e, files, maxBody)
  {
    hide ManifestPath, ResultVerified, ValidManifest, ArtifactLimit;
    if maxBody <= 0 || maxBody > MAX_BODY {
      return Failure(Rejected);
    }
    var data := ReadRegular(files, ManifestPath(), MAX_RESULT);
    if data.None? || e.manifest(data.value).None? {
      return Failure(Rejected);
    }
    var m := e.manifest(data.value).value;
    var valid := ValidateManifest(m);
    if !valid {
      return Failure(Rejected);
    }
    for i := 0 to |m.artifacts|
      invariant forall k :: 0 <= k < i ==> ArtifactMatches(e, files, m.artifacts[k], maxBody)
    {
      var a := m.artifacts[i];
      var found := ReadRegular(files, a.path, ArtifactLimit(a.path, maxBody));
      if found.None? || DigestOf(e, found.value) != a.digest {
        assert !ArtifactMatches(e, files, m.artifacts[i], maxBody);
        return Failure(Rejected);
      }
    }
    r := VerifyResult(e, files, m, maxBody);
  }

  /** The order, the result and the evidence behind a manifest whose artifacts have been rehashed. */
  method VerifyResult(e: Formats, files: Files, m: Manifest, maxBody: int) returns (r: Result<EgressResult, Error>)
    ensures r.ToOption() == ResultVerified(e, files, m, maxBody)
  {
    hide ValidOrder, WorkOrderPath, ResultPath, EvidenceAgrees, DigestOf, ValidDigest;
    var orderData := ReadRegular(files, WorkOrderPath(), MAX_WORK_ORDER);
    if orderData.None? || DigestOf(e, orderData.value) != m.workOrderDigest {
      return Failure(Rejected);
    }
    var decoded := e.order(orderData.value);
    if decoded.None? || decoded.value.id != m.workOrderID || !ValidOrder(e, decoded.value) {
      return Failure(Rejected);
    }
    var order := decoded.value;
    var resultData := ReadRegular(files, ResultPath(), MAX_RESULT);
    if resultData.None? || e.result(resultData.value).None? {
      return Failure(Rejected);
    }
    var result := e.result(resultData.value).value;
    if result.format != ResultFormat() || result.workOrderID != order.id || result.workOrderDigest != m.workOrderDigest
       || result.originID != order.originID || result.purpose != order.purpose || result.requestURL != order.url
       || result.httpStatus < 100 || result.httpStatus > 599 || result.mediaType == [] || |result.mediaType| > 255
       || result.redirectCount < 0 || result.redirectCount > order.maxRedirects || result.durationMillis < 0
       || !ValidDigest(result.observationDigest) || !ValidDigest(result.bodyDigest) || result.bodySize > maxBody {
      return Failure(Rejected);
    }
    var agrees := VerifyEvidence(e, files, result, maxBody);
    r := if agrees then Success(result) else Failure(Rejected);
  }

  /** The envelope against the result, then the body reference, then the stored body. */
  method VerifyEvidence(e: Formats, files: Files, result: EgressResult, maxBody: int) returns (ok: bool)
    ensures ok <==> EvidenceAgrees(e, files, result, maxBody)
  {
    hide UnmarshalEnvelope, EnvelopePath, BodyRefPath, CasPath, WorkerPolicyID, DigestText, DigestOf;
    if EnvelopePath() !in files {
      return false;
    }
    var envelopeBytes := files[EnvelopePath()];
    var loaded := UnmarshalEnvelope(envelopeBytes, t => e.time(t).Some?);
    if loaded.Failure? {
      return false;
    }
    var env := loaded.value;
    if DigestOf(e, envelopeBytes) != result.observationDigest || DigestText(env.bodySHA256) != result.bodyDigest
       || env.bodySize != result.bodySize || env.requestURL != result.requestURL || env.finalURL != result.finalURL
       || env.policyID != WorkerPolicyID() {
      return false;
    }
    var reference := ReadRegular(files, BodyRefPath(), MAX_BODY_REFERENCE_BYTES);
    if reference.None? || reference.value != result.bodyDigest + [10] {
      return false;
    }
    if CasPath(env.bodySHA256) !in files {
      return false;
    }
    var body := files[CasPath(env.bodySHA256)];
    if |body| > maxBody || e.hash(body) != env.bodySHA256 {
      return false;
    }
    ok := |body| == env.bodySize;
  }

  /** The fetch kept to its order, and the body is within what the verifier admits. */
  predicate KeptToOrder(o: Order, f: Fetch, maxBody: int) {
    && 0 < maxBody <= MAX_BODY && f.requestURL == o.url && f.redirects <= o.maxRedirects
    && |f.mediaType| <= 255 && 0 < |f.body| <= maxBody
  }

  lemma ResultReadsBack(e: Formats, l: Loaded, f: Fetch, duration: nat)
    requires Sealing(e, l) && Lawful(e) && Observable(e, f)
    ensures e.result(ResultBytes(e, l, f, duration)) == Some(ResultOf(e, l, f, duration))
    ensures |ResultBytes(e, l, f, duration)| > 0
  {
    hide Sealing, PlainResult, ResultOf, Observable;
    ResultPlain(e, l, f, duration);
  }

  lemma ResultPlain(e: Formats, l: Loaded, f: Fetch, duration: nat)
    requires Sealing(e, l) && Observable(e, f)
    ensures PlainResult(ResultOf(e, l, f, duration))
  {
    FixedTextsPlain(e.hash(f.body));
    DigestPlain(e, f.body);
    DigestPlain(e, EnvelopeBytes(e, f));
    hide Sealing, DigestOf, EnvelopeBytes, ValidDigest, ResultFormat, ValidUtf8;
    hide WorkOrderPath, CasPath, EnvelopePath, ViewPath, BodyRefPath, ResultPath, ManifestFormat;
    LoadedPlain(e, l);
  }

  lemma LoadedPlain(e: Formats, l: Loaded)
    requires Sealing(e, l)
    ensures Plain(l.order.id) && Plain(l.order.originID) && Plain(l.order.purpose) && Plain(l.digest)
  {
    AsciiPlain(l.order.id);
    AsciiPlain(l.order.originID);
    EnumFits(l.order.purpose, ["robots", "profile", "observation"]);
    DigestPlain(e, l.data);
  }

  /** Every file of a completed spool, read under the limit of its kind, is what the attempt wrote;
    * the stored body alone is out of reach when it is empty or above the verifier's limit. */
  lemma CompleteReadsBack(e: Formats, l: Loaded, f: Fetch, duration: nat, maxBody: int)
    requires WellLoaded(e, l) && Lawful(e) && Publishable(e, l, f, duration)
    ensures var files, stored := CompleteFiles(e, l, f, duration), CasPath(e.hash(f.body));
            && ReadArtifact(files, WorkOrderPath(), maxBody) == Some(l.data)
            && ReadArtifact(files, EnvelopePath(), maxBody) == Some(EnvelopeBytes(e, f))
            && ReadArtifact(files, ViewPath(), maxBody) == Some(ViewBytes(e, f))
            && ReadArtifact(files, BodyRefPath(), maxBody) == Some(BodyReference(e, f))
            && ReadArtifact(files, ResultPath(), maxBody) == Some(ResultBytes(e, l, f, duration))
            && ReadArtifact(files, stored, maxBody) == if 0 < |f.body| <= maxBody then Some(f.body) else None
  {
    hide Lawful, WellLoaded, Sealing, Observable, CompleteFiles, EnvelopeBytes, ViewBytes, ResultBytes, ManifestBytes;
    hide WorkOrderPath, CasPath, EnvelopePath, ViewPath, BodyRefPath, ResultPath, ManifestPath, HasPrefix, CasPrefix;
    hide ResultOf, BodyReference, ManifestOf;
    CompleteFilesHold(e, l, f, duration);
    CasPathSafe(e.hash(f.body));
    forall p | p in RequiredPaths() ensures !HasPrefix(p, CasPrefix()) {
      NotStored(p);
    }
    LoadedSealing(e, l);
    ViewNotEmpty(e, f);
    EvidenceSizes(e, f);
    ResultReadsBack(e, l, f, duration);
    PathsDistinct(e.hash(f.body));
  }

  // The verdict on the artifacts depends only on the stored body.
  lemma ArtifactsMatch(e: Formats, l: Loaded, f: Fetch, duration: nat, maxBody: int)
    requires WellLoaded(e, l) && Lawful(e) && Publishable(e, l, f, duration)
    ensures AllMatch(e, CompleteFiles(e, l, f, duration), ManifestOf(e, l, f, duration), maxBody)
            <==> 0 < |f.body| <= maxBody
  {
    hide Lawful, WellLoaded, Publishable, CompleteFiles, DigestOf, EnvelopeBytes, ViewBytes, ResultBytes, ReadArtifact;
    hide WorkOrderPath, CasPath, EnvelopePath, ViewPath, BodyRefPath, ResultPath, BodyReference;
    CompleteReadsBack(e, l, f, duration, maxBody);
    LoadedDigest(e, l);
    var files := CompleteFiles(e, l, f, duration);
    var a := ManifestOf(e, l, f, duration).artifacts;
    assert |a| == 6;
    assert ArtifactMatches(e, files, a[0], maxBody) <==> 0 < |f.body| <= maxBody;
    assert ArtifactMatches(e, files, a[1], maxBody) && ArtifactMatches(e, files, a[2], maxBody);
    assert ArtifactMatches(e, files, a[3], maxBody) && ArtifactMatches(e, files, a[4], maxBody);
    assert ArtifactMatches(e, files, a[5], maxBody);
  }

  lemma LoadedSealing(e: Formats, l: Loaded)
    requires WellLoaded(e, l)
    ensures Sealing(e, l) && 0 < |l.data| <= MAX_WORK_ORDER
  {
  }

  lemma EvidenceSizes(e: Formats, f: Fetch)
    requires EvidenceWritten(e, f, None) == 4
    ensures 0 < |EnvelopeBytes(e, f)| <= MAX_ENVELOPE_BYTES && |ViewBytes(e, f)| <= MAX_JSON_VIEW_BYTES
    ensures |BodyReference(e, f)| == 72 && Observable(e, f)
  {
    NotEmpty(EnvelopeOf(e, f));
  }

  lemma EvidenceAgreement(e: Formats, l: Loaded, f: Fetch, duration: nat, maxBody: int)
    requires Publishable(e, l, f, duration) && |f.body| <= maxBody
    ensures EvidenceAgrees(e, CompleteFiles(e, l, f, duration), ResultOf(e, l, f, duration), maxBody)
  {
    hide CompleteFiles, UnmarshalEnvelope, MarshalEnvelope, EvidenceWritten, EnvelopePath, BodyAgrees, Fitting, DigestText;
    EvidenceSizes(e, f);
    EnvelopeReadsBack(e, f);
    CompleteFilesHold(e, l, f, duration);
    BodyAgreement(e, l, f, duration, maxBody);
  }

  lemma EnvelopeReadsBack(e: Formats, f: Fetch)
    requires Observable(e, f) && |EnvelopeBytes(e, f)| <= MAX_ENVELOPE_BYTES
    ensures UnmarshalEnvelope(EnvelopeBytes(e, f), t => e.time(t).Some?) == Success(EnvelopeOf(e, f))
  {
    hide UnmarshalEnvelope, ValidEnvelope, MarshalEnvelope, Observable;
    ObservableIsValid(e, f);
    EnvelopeRoundTrip(EnvelopeOf(e, f), t => e.time(t).Some?);
  }

  lemma BodyAgreement(e: Formats, l: Loaded, f: Fetch, duration: nat, maxBody: int)
    requires |f.body| <= maxBody
    ensures BodyAgrees(e, CompleteFiles(e, l, f, duration), EnvelopeOf(e, f), ResultOf(e, l, f, duration), maxBody)
  {
    hide CompleteFiles, CasPath, BodyRefPath, EnvelopeBytes;
    CompleteFilesHold(e, l, f, duration);
  }

  lemma ResultAdmitted(e: Formats, l: Loaded, f: Fetch, duration: nat, maxBody: int)
    requires Sealing(e, l) && Observable(e, f) && 0 < |f.body| <= maxBody <= MAX_BODY
    ensures ResultAdmissible(l.order, l.digest, ResultOf(e, l, f, duration), maxBody) <==> KeptToOrder(l.order, f, maxBody)
  {
    DigestPlain(e, f.body);
    DigestPlain(e, EnvelopeBytes(e, f));
    hide DigestOf, EnvelopeBytes, Sealing, ValidUtf8, ValidDigest;
  }

  lemma CompleteResultVerified(e: Formats, l: Loaded, f: Fetch, duration: nat, maxBody: int)
    requires WellLoaded(e, l) && Lawful(e) && Publishable(e, l, f, duration) && 0 < |f.body| <= maxBody <= MAX_BODY
    ensures ResultVerified(e, CompleteFiles(e, l, f, duration), ManifestOf(e, l, f, duration), maxBody)
            == if KeptToOrder(l.order, f, maxBody) then Some(ResultOf(e, l, f, duration)) else None
  {
    hide WellLoaded, Lawful, CompleteFiles, DigestOf, EvidenceAgrees, ResultAdmissible, ValidOrder, Observable, ResultBytes;
    hide KeptToOrder, WorkOrderPath, ResultPath, EvidenceWritten, ManifestBytes;
    LoadedSealing(e, l);
    var m := ManifestOf(e, l, f, duration);
    assert m.workOrderDigest == l.digest && m.workOrderID == l.order.id;
    assert |ResultBytes(e, l, f, duration)| <= MAX_RESULT;
    hide ManifestOf, ResultOf, Fitting;
    EvidenceSizes(e, f);
    CompleteFilesHold(e, l, f, duration);
    LoadedDigest(e, l);
    SealingFacts(e, l);
    ResultReadsBack(e, l, f, duration);
    ResultAdmitted(e, l, f, duration, maxBody);
    EvidenceAgreement(e, l, f, duration, maxBody);
  }

  lemma CompleteVerified(e: Formats, l: Loaded, f: Fetch, duration: nat, maxBody: int)
    requires WellLoaded(e, l) && Lawful(e) && Publishable(e, l, f, duration)
    ensures Verified(e, CompleteFiles(e, l, f, duration), maxBody)
            == if KeptToOrder(l.order, f, maxBody) then Some(ResultOf(e, l, f, duration)) else None
  {
    hide Lawful, WellLoaded, Sealing, CompleteFiles, ManifestBytes, ManifestPath, ValidManifest, ManifestOf, ResultVerified;
    hide ResultOf, AllMatch, Publishable;
    LoadedSealing(e, l);
    ManifestStored(e, l, f, duration);
    ArtifactsMatch(e, l, f, duration, maxBody);
    var files, m := CompleteFiles(e, l, f, duration), ManifestOf(e, l, f, duration);
    if maxBody <= 0 || maxBody > MAX_BODY || !AllMatch(e, files, m, maxBody) {
      assert Verified(e, files, maxBody) == None;
      assert !KeptToOrder(l.order, f, maxBody);
    } else {
      assert Verified(e, files, maxBody) == ResultVerified(e, files, m, maxBody);
      hide Verified, KeptToOrder;
      CompleteResultVerified(e, l, f, duration, maxBody);
    }
  }

  lemma ManifestStored(e: Formats, l: Loaded, f: Fetch, duration: nat)
    requires Sealing(e, l) && Lawful(e) && Publishable(e, l, f, duration)
    ensures var data := ReadRegular(CompleteFiles(e, l, f, duration), ManifestPath(), MAX_RESULT);
            && data.Some? && e.manifest(data.value) == Some(ManifestOf(e, l, f, duration))
            && ValidManifest(ManifestOf(e, l, f, duration))
  {
    hide EvidenceWritten, ManifestBytes, ResultBytes, ResultOf, Lawful, Sealing, CompleteFiles, ManifestPath;
    hide ValidManifest, ManifestOf;
    CompleteFilesHold(e, l, f, duration);
    ManifestReadsBack(e, l, f, duration);
    ManifestOfValid(e, l, f, duration);
  }

  lemma CompletesIs(e: Formats, l: Loaded, r: Retrieval)
    requires Completes(e, l, r)
    ensures Publishable(e, l, r.fetch, r.duration) && Published(e, l, r) == Some(ResultOf(e, l, r.fetch, r.duration))
  {
    hide Publishable, ResultOf, EvidenceWritten;
  }

  /** Verifying a spool that an attempt completed returns the very result the attempt reported,
    * exactly when the fetch kept to its order; otherwise it returns nothing. */
  lemma VerifyAgrees(e: Formats, key: Key, files: Files, l: Loaded, r: Retrieval, maxBody: int)
    requires Lawful(e) && WellLoaded(e, l) && SealedBy(e, key, files, l, r)
    ensures Verified(e, files, maxBody) == if KeptToOrder(l.order, r.fetch, maxBody) then Published(e, l, r) else None
  {
    hide Lawful, WellLoaded, CompleteFiles, Publishable, Published, Completes, KeptToOrder, Verified, KeyOf, ResultOf;
    CompletesIs(e, l, r);
    CompleteVerified(e, l, r.fetch, r.duration, maxBody);
  }

  /** In every disk that a run of loaded orders can leave, verification of a spool returns a result
    * exactly if that is what some completed attempt of the run reported for it, from a fetch that
    * kept to its order. */
  lemma RunVerifies(e: Formats, run: seq<Attempt>, key: Key, maxBody: int, v: EgressResult)
    requires Lawful(e) && Genuine(e, run) && key in DiskAfter(e, EMPTY, run).spools
    ensures var files := DiskAfter(e, EMPTY, run).spools[key];
            Verified(e, files, maxBody) == Some(v)
            <==> exists a :: a in run && KeptReport(e, key, files, a, maxBody, v)
  {
    hide Lawful, WellLoaded, DiskAfter, CompleteFiles, Published, Completes, KeptToOrder, Verified, KeyOf, Sealing, ManifestPath;
    AlwaysSealed(e, run);
    var files := DiskAfter(e, EMPTY, run).spools[key];
    forall a | a in run && SealedBy(e, key, files, a.loaded, a.retrieval)
      ensures Verified(e, files, maxBody)
              == if KeptToOrder(a.loaded.order, a.retrieval.fetch, maxBody) then Published(e, a.loaded, a.retrieval) else None
    {
      VerifyAgrees(e, key, files, a.loaded, a.retrieval, maxBody);
    }
    NoManifestFails(e, files, maxBody);
  }

  // The attempt completed, its fetch kept to its order, and it reported that result for the spool.
  ghost predicate KeptReport(e: Formats, key: Key, files: Files, a: Attempt, maxBody: int, v: EgressResult) {
    && SealedBy(e, key, files, a.loaded, a.retrieval)
    && KeptToOrder(a.loaded.order, a.retrieval.fetch, maxBody) && Published(e, a.loaded, a.retrieval) == Some(v)
  }

  lemma NoManifestFails(e: Formats, files: Files, maxBody: int)
    ensures ManifestPath() !in files ==> Verified(e, files, maxBody) == None
  {
    hide ManifestPath, ValidManifest, AllMatch, ResultVerified;
  }
}
