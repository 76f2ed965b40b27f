/** Attempts of the egress worker that complete, and what verification makes of them.
  *
  * One order, and one fetch for a given media type and body, under lawful formats: the spool is
  * published whatever the body, and verifies only if the fetch kept to its order.
  */
module EgressCases {
  import opened Wrappers
  import opened ByteStrings
  import opened Cbor
  import opened Lexical
  import opened Documents
  import opened Spools
  import opened Observations
  import opened Egress
  import opened Laws

  // ----- the case ------------------------------------------------------------

  function CaseURL(): Text { Ascii("https://example.org/") }

  function CaseOrder(): Order {
    Order(WorkOrderFormat(), Ascii("order"), Ascii("origin"), Ascii("observation"), Ascii("reviewed_policy"),
          Ascii("GET"), CaseURL(), [Ascii("example.org")], Ascii("permit_live"), DigestText(ZeroDigest()),
          DigestText(ZeroDigest()), Ascii("approval"), Minutes(0), Minutes(5), 3, MAX_BODY, 5000, 2000, 2000, 1, 60)
  }

  ghost function CaseFormats(hash: Hash): Formats {
    EgressFormats(hash, _ => Some(CaseOrder()), _ => true)
  }

  ghost function CaseLoaded(hash: Hash): Loaded {
    Loaded(CaseOrder(), DigestOf(CaseFormats(hash), [0]), [0])
  }

  function CaseFetch(mediaType: Text, body: Text): Fetch {
    Fetch(CaseURL(), CaseURL(), Ascii("GET"), 200, mediaType, Minutes(0), body, 0)
  }

  function CaseRetrieval(mediaType: Text, body: Text): Retrieval {
    Fetched(CaseFetch(mediaType, body), None, 0)
  }

  predicate PlainMedia(mediaType: Text) {
    0 < |mediaType| <= 256 && IsAscii(mediaType) && 0 !in mediaType
  }

  lemma CaseAuthority()
    ensures ValidAuthority(CaseOrder()) && OneOf(CaseOrder().purpose, ["robots", "profile", "observation"])
  {
    var purposes := ["robots", "profile", "observation"];
    assert CaseOrder().purpose == Ascii(purposes[2]);
    var decisions := ["permit_live", "permit_with_constraints", "profile_only"];
    assert CaseOrder().policyDecision == Ascii(decisions[0]);
    assert |Ascii("reviewed_policy")| == 15 && |Ascii("policy_evidence_collection")| == 26;
    assert |Ascii("permit_live")| == 11 && |Ascii("profile_only")| == 12;
  }

  lemma CaseLoads(hash: Hash)
    ensures Lawful(CaseFormats(hash)) && WellLoaded(CaseFormats(hash), CaseLoaded(hash))
  {
    hide Lawful, ValidAuthority, OneOf, ValidDigest, DigestText, EgressFormats, DigestOf, WorkOrderFormat;
    var e, o := CaseFormats(hash), CaseOrder();
    EgressLaws(hash, _ => Some(CaseOrder()), _ => true);
    CaseAuthority();
    DigestTextValid(ZeroDigest());
    FormatsAt(hash);
    assert ValidID(o.id) && ValidID(o.originID);
  }

  lemma FormatsAt(hash: Hash)
    ensures var e := CaseFormats(hash);
            && e.order([0]) == Some(CaseOrder()) && e.admitsURL(CaseOrder()) && e.hash == hash
            && e.time(Minutes(0)) == Some(0) && e.time(Minutes(5)) == Some(5 * MINUTE) && (forall v :: e.putView(v) == [0])
            && (forall r :: e.putResult(r) == PutResult(r)) && (forall m :: e.putManifest(m) == PutEgressManifest(m))
  {
    MinutesRead(0);
    MinutesRead(5);
  }

  // ----- sizes ---------------------------------------------------------------

  lemma TextSize(v: Text, tail: Bytes)
    ensures |PutText(v, tail)| <= 9 + |v| + |tail|
  {
  }

  lemma EnvelopeSize(v: Envelope)
    ensures |PutEnvelope(v, [])| <= 200 + |v.requestURL| + |v.finalURL| + |v.httpMethod| + |v.mediaType|
                                    + |v.retrievedAt| + |v.policyID| + |v.observerID|
  {
    hide PutText;
    TextSize(v.observerID, []);
    var t5 := PutText(v.observerID, []);
    TextSize(v.policyID, t5);
    var t4 := PutUint(v.bodySize, PutText(v.policyID, t5));
    assert |t4| <= 9 + |PutText(v.policyID, t5)|;
    var t3 := PutDigest(v.bodySHA256, t4);
    DigestSize(v.bodySHA256, t4);
    TextSize(v.retrievedAt, t3);
    var t2 := PutText(v.retrievedAt, t3);
    TextSize(v.mediaType, t2);
    assert PutEnvelopeTail(v, []) == PutText(v.mediaType, t2);
    var t1 := PutUint(v.status, PutEnvelopeTail(v, []));
    assert |t1| <= 9 + |PutEnvelopeTail(v, [])|;
    TextSize(v.httpMethod, t1);
    TextSize(v.finalURL, PutText(v.httpMethod, t1));
    TextSize(v.requestURL, PutText(v.finalURL, PutText(v.httpMethod, t1)));
  }

  lemma DigestSize(d: Digest, tail: Bytes)
    ensures |PutDigest(d, tail)| <= 41 + |tail|
  {
  }

  lemma {:induction false} ArtifactFields(artifacts: seq<Artifact>, k: nat)
    requires forall a :: a in artifacts ==> |a.path| <= k && |a.digest| <= k
    ensures |EgressArtifacts(artifacts)| == 2 * |artifacts| && forall f :: f in EgressArtifacts(artifacts) ==> |f| <= k
  {
    if artifacts != [] {
      assert artifacts[0] in artifacts && forall a :: a in artifacts[1..] ==> a in artifacts;
      ArtifactFields(artifacts[1..], k);
    }
  }

  lemma ManifestSize(m: Manifest)
    requires |m.format| <= 300 && |m.workOrderID| <= 300 && |m.workOrderDigest| <= 300 && |m.artifacts| == 6
    requires forall a :: a in m.artifacts ==> |a.path| <= 300 && |a.digest| <= 300
    ensures |PutEgressManifest(m)| <= MAX_RESULT
  {
    hide PutFields, EgressArtifacts;
    ArtifactFields(m.artifacts, 300);
    FieldsSize([m.format, m.workOrderID, m.workOrderDigest] + EgressArtifacts(m.artifacts), 300);
  }

  lemma ResultSize(r: EgressResult)
    requires forall f :: f in ResultFields(r) ==> |f| <= 300
    ensures |PutResult(r)| <= MAX_RESULT
  {
    hide PutFields;
    FieldsSize(ResultFields(r), 300);
  }

  // ----- the attempt completes -----------------------------------------------

  lemma CaseObservable(hash: Hash, mediaType: Text, body: Text)
    requires PlainMedia(mediaType) && |body| <= 1
    ensures Observable(CaseFormats(hash), CaseFetch(mediaType, body))
  {
    hide ValidUtf8, EgressFormats, Ascii;
    FormatsAt(hash);
    AsciiIsUtf8(mediaType);
    ConstantURL();
    AsciiIsUtf8(Minutes(0));
  }

  lemma ConstantURL()
    ensures ValidText(CaseURL(), MAX_URL_BYTES, false) && |CaseURL()| == 20
  {
    hide ValidUtf8;
    AsciiIsUtf8(CaseURL());
  }

  lemma CaseTexts()
    ensures |CaseOrder().id| == 5 && |CaseOrder().originID| == 6 && |CaseOrder().purpose| == 11 && |ResultFormat()| == 20
    ensures |ManifestFormat()| == 22 && |WorkerPolicyID()| == 26 && |ObserverID()| == 16 && |Minutes(0)| == 1
  {
  }

  lemma PathSizes()
    ensures |BodyRefPath()| <= 300 && |EnvelopePath()| <= 300 && |ViewPath()| <= 300 && |ResultPath()| <= 300
    ensures |WorkOrderPath()| <= 300
  {
  }

  lemma CaseResultFits(hash: Hash, mediaType: Text, body: Text)
    requires PlainMedia(mediaType) && |body| <= 1
    ensures |ResultBytes(CaseFormats(hash), CaseLoaded(hash), CaseFetch(mediaType, body), 0)| <= MAX_RESULT
  {
    hide EgressFormats, PutResult, EnvelopeBytes, CaseOrder, ResultFormat, CaseURL, Minutes, Numeral;
    var e, l, f := CaseFormats(hash), CaseLoaded(hash), CaseFetch(mediaType, body);
    FormatsAt(hash);
    CaseTexts();
    ConstantURL();
    NumeralSize(200, 3);
    NumeralSize(0, 3);
    NumeralSize(|body|, 3);
    var r := ResultOf(e, l, f, 0);
    assert |l.digest| == 71 && |r.observationDigest| == 71 && |r.bodyDigest| == 71;
    hide DigestOf, DigestText;
    ResultSize(r);
  }

  lemma CaseManifestFits(hash: Hash, mediaType: Text, body: Text)
    ensures |ManifestBytes(CaseFormats(hash), CaseLoaded(hash), CaseFetch(mediaType, body), 0)| <= MAX_RESULT
  {
    hide EgressFormats, PutEgressManifest, EnvelopeBytes, ViewBytes, ResultBytes, CaseOrder, ManifestFormat, BodyReference;
    hide WorkOrderPath, EnvelopePath, ViewPath, BodyRefPath, ResultPath, CasPath, DigestText;
    var e, l, f := CaseFormats(hash), CaseLoaded(hash), CaseFetch(mediaType, body);
    FormatsAt(hash);
    CaseTexts();
    PathSizes();
    ManifestSize(ManifestOf(e, l, f, 0));
  }

  lemma CaseEnvelopeFits(hash: Hash, mediaType: Text, body: Text)
    requires PlainMedia(mediaType)
    ensures |EnvelopeBytes(CaseFormats(hash), CaseFetch(mediaType, body))| <= MAX_ENVELOPE_BYTES
  {
    hide EgressFormats, PutEnvelope, CaseURL, Minutes, WorkerPolicyID, ObserverID;
    CaseTexts();
    ConstantURL();
    assert |Ascii("GET")| == 3;
    EnvelopeSize(EnvelopeOf(CaseFormats(hash), CaseFetch(mediaType, body)));
  }

  lemma CaseCompletes(hash: Hash, mediaType: Text, body: Text)
    requires PlainMedia(mediaType) && |body| <= 1
    ensures Completes(CaseFormats(hash), CaseLoaded(hash), CaseRetrieval(mediaType, body))
  {
    hide EgressFormats, Observable, EnvelopeBytes, ResultBytes, ManifestBytes, DigestOf, CaseOrder;
    FormatsAt(hash);
    CaseObservable(hash, mediaType, body);
    CaseEnvelopeFits(hash, mediaType, body);
    CaseResultFits(hash, mediaType, body);
    CaseManifestFits(hash, mediaType, body);
  }

  // ----- the attempt runs ----------------------------------------------------

  ghost function CaseAttempt(hash: Hash, mediaType: Text, body: Text): Attempt {
    Attempt(CaseLoaded(hash), Control(ControlFormat(), true, false, [], []), 0, CaseRetrieval(mediaType, body), 100)
  }

  lemma CaseAdmitted(hash: Hash, mediaType: Text, body: Text)
    ensures var e, a := CaseFormats(hash), CaseAttempt(hash, mediaType, body);
            Program(e, EMPTY, a.loaded, a.control, a.now, a.retrieval) != []
  {
    hide EgressFormats, ValidOrder, FetchOps, CaseOrder, Lawful;
    CaseLoads(hash);
    FormatsAt(hash);
    CaseTimes();
  }

  lemma CaseTimes()
    ensures CaseOrder().notBefore == Minutes(0) && CaseOrder().expiresAt == Minutes(5)
  {
  }

  lemma CompleteHasManifest(e: Formats, l: Loaded, f: Fetch, duration: nat, now: int)
    ensures !NoManifest(CompleteOps(e, l, f, duration, now)) && |CompleteOps(e, l, f, duration, now)| == 9
  {
    hide WorkOrderPath, EnvelopePath, ViewPath, BodyRefPath, ResultPath, CasPath, ManifestPath, ResultBytes, ManifestBytes;
    var ops := CompleteOps(e, l, f, duration, now);
    assert ops[8] in ops && ops[8].Write? && ops[8].path == ManifestPath();
  }

  /** The one attempt of this run leaves the complete spool behind. */
  lemma CasePublished(hash: Hash, mediaType: Text, body: Text)
    requires PlainMedia(mediaType) && |body| <= 1
    ensures var e, l := CaseFormats(hash), CaseLoaded(hash);
            var spools := DiskAfter(e, EMPTY, [CaseAttempt(hash, mediaType, body)]).spools;
            && Lawful(e) && WellLoaded(e, l)
            && KeyOf(l) in spools && SealedBy(e, KeyOf(l), spools[KeyOf(l)], l, CaseRetrieval(mediaType, body))
  {
    hide EgressFormats, Program, CompleteOps, CompleteFiles, KeyOf, Lawful, ValidOrder, CaseOrder, CircuitOps, NoManifest, OwnedBy;
    hide Completes, WriteAll, ApplyAll;
    var e, l, r, a := CaseFormats(hash), CaseLoaded(hash), CaseRetrieval(mediaType, body), CaseAttempt(hash, mediaType, body);
    CaseLoads(hash);
    CaseCompletes(hash, mediaType, body);
    CaseAdmitted(hash, mediaType, body);
    var p := Program(e, EMPTY, l, a.control, a.now, r);
    ProgramShape(e, EMPTY, l, a.control, a.now, r);
    CompleteHasManifest(e, l, r.fetch, 0, 0);
    ManifestStays(CompleteOps(e, l, r.fetch, 0, 0), CircuitOps(e, Fresh(l.order.originID)));
    CircuitOpsAreFew(e, Fresh(l.order.originID));
    assert Executed(e, EMPTY, a) == p;
    OwnSpool(e, EMPTY, a);
    SpoolFiles(EMPTY, p, KeyOf(l));
    OneAttempt(e, a);
  }

  lemma ManifestStays(a: seq<Op>, b: seq<Op>)
    ensures !NoManifest(a) ==> !NoManifest(a + b)
  {
    if NoManifest(a + b) {
      assert forall op :: op in a ==> op in a + b;
    }
  }

  lemma CircuitOpsAreFew(e: Formats, c: Circuit)
    ensures |CircuitOps(e, c)| <= 1
  {
  }

  lemma OneAttempt(e: Formats, a: Attempt)
    ensures DiskAfter(e, EMPTY, [a]) == ApplyAll(EMPTY, Executed(e, EMPTY, a))
  {
    assert [a][..0] == [];
  }

  // ----- what verification says ----------------------------------------------

  /** The spool of the case verifies exactly if the body is not empty and the media type has at most
    * 255 bytes, though it is published in every case. */
  lemma CaseVerifies(hash: Hash, mediaType: Text, body: Text)
    requires PlainMedia(mediaType) && |body| <= 1
    ensures var e, l, r := CaseFormats(hash), CaseLoaded(hash), CaseRetrieval(mediaType, body);
            var spools := DiskAfter(e, EMPTY, [CaseAttempt(hash, mediaType, body)]).spools;
            && KeyOf(l) in spools && Published(e, l, r).Some?
            && Verified(e, spools[KeyOf(l)], MAX_BODY)
               == if body != [] && |mediaType| <= 255 then Published(e, l, r) else None
  {
    hide EgressFormats, Published, Verified, CompleteFiles, KeyOf, DiskAfter, Lawful, ValidOrder, CaseAttempt, CaseURL;
    CasePublished(hash, mediaType, body);
    var e, l, r := CaseFormats(hash), CaseLoaded(hash), CaseRetrieval(mediaType, body);
    var spools := DiskAfter(e, EMPTY, [CaseAttempt(hash, mediaType, body)]).spools;
    CompletesIs(e, l, r);
    VerifyAgrees(e, KeyOf(l), spools[KeyOf(l)], l, r, MAX_BODY);
  }

  function Media(n: nat): Text
    requires n <= 256
  {
    seq(n, _ => 97)
  }

  /** A fetch with an empty body is published and does not verify. */
  lemma EmptyBodyFails(hash: Hash)
    ensures var e, l, r := CaseFormats(hash), CaseLoaded(hash), CaseRetrieval(Media(9), []);
            var spools := DiskAfter(e, EMPTY, [CaseAttempt(hash, Media(9), [])]).spools;
            && Lawful(e) && WellLoaded(e, l) && r.fetch.body == [] && Completes(e, l, r)
            && KeyOf(l) in spools && Verified(e, spools[KeyOf(l)], MAX_BODY) == None
  {
    hide EgressFormats, Published, Verified, KeyOf, DiskAfter, Lawful, CaseAttempt, CaseLoaded, CaseFormats;
    CaseLoads(hash);
    CaseCompletes(hash, Media(9), []);
    CaseVerifies(hash, Media(9), []);
  }

  /** A fetch with a media type of 256 bytes is published and does not verify. */
  lemma LongMediaTypeFails(hash: Hash)
    ensures var e, l, r := CaseFormats(hash), CaseLoaded(hash), CaseRetrieval(Media(256), [0]);
            var spools := DiskAfter(e, EMPTY, [CaseAttempt(hash, Media(256), [0])]).spools;
            && Lawful(e) && WellLoaded(e, l) && |r.fetch.mediaType| == 256 && Completes(e, l, r)
            && KeyOf(l) in spools && Verified(e, spools[KeyOf(l)], MAX_BODY) == None
  {
    hide EgressFormats, Published, Verified, KeyOf, DiskAfter, Lawful, CaseAttempt, CaseLoaded, CaseFormats;
    CaseLoads(hash);
    CaseCompletes(hash, Media(256), [0]);
    CaseVerifies(hash, Media(256), [0]);
  }

  /** A fetch that keeps to its order is published and verifies. */
  lemma KeptFetchVerifies(hash: Hash)
    ensures var e, l, r := CaseFormats(hash), CaseLoaded(hash), CaseRetrieval(Media(9), [0]);
            var spools := DiskAfter(e, EMPTY, [CaseAttempt(hash, Media(9), [0])]).spools;
            && Lawful(e) && WellLoaded(e, l) && KeptToOrder(l.order, r.fetch, MAX_BODY) && Completes(e, l, r)
            && KeyOf(l) in spools && Verified(e, spools[KeyOf(l)], MAX_BODY).Some?
  {
    hide EgressFormats, Published, Verified, KeyOf, DiskAfter, Lawful, CaseAttempt, CaseFormats, CaseURL;
    CaseLoads(hash);
    CaseCompletes(hash, Media(9), [0]);
    CaseVerifies(hash, Media(9), [0]);
  }
}
