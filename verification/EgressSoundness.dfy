/** What a spool guarantees once it verifies, whatever is in the directory. */
module EgressSoundness {
  // Verification is for directories that somebody may have touched since the worker wrote them.

  import opened Wrappers
  import opened ByteStrings
  import opened Lexical
  import opened Documents
  import opened Spools
  import opened Observations
  import opened Egress

  /** The file is there, not empty and within a size. */
  predicate Holds(files: Files, path: Bytes, maximum: int) {
    path in files && 0 < |files[path]| <= maximum
  }

  /** Every artifact of the manifest is there, within its size, and hashes to its listed digest. */
  predicate Rehashed(e: Formats, files: Files, m: Manifest, maxBody: int) {
    forall a :: a in m.artifacts ==>
      && Holds(files, a.path, if HasPrefix(a.path, CasPrefix()) then maxBody
                              else if a.path == EnvelopePath() then MAX_ENVELOPE_BYTES else MAX_RESULT)
      && DigestText(e.hash(files[a.path])) == a.digest
  }

  /** The order file is the order that the manifest names, and the result is one that it permits. */
  predicate Authorised(e: Formats, files: Files, m: Manifest, r: EgressResult, maxBody: int) {
    && Holds(files, WorkOrderPath(), MAX_WORK_ORDER) && DigestText(e.hash(files[WorkOrderPath()])) == m.workOrderDigest
    && var o := e.order(files[WorkOrderPath()]);
    && o.Some? && ValidOrder(e, o.value) && o.value.id == m.workOrderID
    && r.format == ResultFormat() && r.workOrderID == o.value.id && r.workOrderDigest == m.workOrderDigest
    && r.originID == o.value.originID && r.purpose == o.value.purpose && r.requestURL == o.value.url
    && 100 <= r.httpStatus <= 599 && 0 < |r.mediaType| <= 255 && 0 <= r.redirectCount <= o.value.maxRedirects
    && r.durationMillis >= 0 && ValidDigest(r.observationDigest) && ValidDigest(r.bodyDigest) && r.bodySize <= maxBody
  }

  /** The envelope is the observation that the result names, and the stored body is the one that
    * both name, in digest and in size. */
  predicate Witnessed(e: Formats, files: Files, r: EgressResult) {
    && EnvelopePath() in files && DigestText(e.hash(files[EnvelopePath()])) == r.observationDigest
    && var env := UnmarshalEnvelope(files[EnvelopePath()], t => e.time(t).Some?);
    && env.Success? && env.value.requestURL == r.requestURL && env.value.finalURL == r.finalURL
    && env.value.policyID == WorkerPolicyID()
    && Holds(files, BodyRefPath(), MAX_BODY_REFERENCE_BYTES) && files[BodyRefPath()] == r.bodyDigest + [10]
    && CasPath(env.value.bodySHA256) in files
    && var body := files[CasPath(env.value.bodySHA256)];
    && e.hash(body) == env.value.bodySHA256 && DigestText(e.hash(body)) == r.bodyDigest
    && |body| == env.value.bodySize == r.bodySize
  }

  /** For any directory: verification returns a result exactly if there is a valid manifest, every
    * artifact it lists hashes to its digest, and the order, the result, the envelope and the body
    * agree with each other. */
  lemma VerifiedExactly(e: Formats, files: Files, maxBody: int, r: EgressResult)
    ensures Verified(e, files, maxBody) == Some(r) <==>
              && 0 < maxBody <= MAX_BODY && Holds(files, ManifestPath(), MAX_RESULT)
              && e.manifest(files[ManifestPath()]).Some?
              && var m := e.manifest(files[ManifestPath()]).value;
              && ValidManifest(m) && Rehashed(e, files, m, maxBody)
              && Holds(files, ResultPath(), MAX_RESULT) && e.result(files[ResultPath()]) == Some(r)
              && Authorised(e, files, m, r, maxBody) && Witnessed(e, files, r)
  {
    hide ManifestPath, ValidManifest, AllMatch, Rehashed, Authorised, Witnessed, ResultVerified, ResultPath;
    var data := ReadRegular(files, ManifestPath(), MAX_RESULT);
    if 0 < maxBody <= MAX_BODY && data.Some? && e.manifest(data.value).Some? {
      var m := e.manifest(data.value).value;
      MatchExactly(e, files, m, maxBody);
      ResultExactly(e, files, m, maxBody, r);
    }
  }

  lemma MatchExactly(e: Formats, files: Files, m: Manifest, maxBody: int)
    ensures AllMatch(e, files, m, maxBody) <==> Rehashed(e, files, m, maxBody)
  {
    hide HasPrefix, EnvelopePath, CasPrefix, DigestText;
    if Rehashed(e, files, m, maxBody) {
      forall i | 0 <= i < |m.artifacts| ensures ArtifactMatches(e, files, m.artifacts[i], maxBody) {
        assert m.artifacts[i] in m.artifacts;
      }
    }
  }

  lemma ResultExactly(e: Formats, files: Files, m: Manifest, maxBody: int, r: EgressResult)
    ensures ResultVerified(e, files, m, maxBody) == Some(r) <==>
              && Holds(files, ResultPath(), MAX_RESULT) && e.result(files[ResultPath()]) == Some(r)
              && Authorised(e, files, m, r, maxBody) && Witnessed(e, files, r)
  {
    hide WorkOrderPath, ResultPath, EvidenceAgrees, Witnessed, ValidOrder, ValidDigest, DigestText;
    if r.bodySize <= maxBody {
      EvidenceExactly(e, files, r, maxBody);
    }
  }

  lemma EvidenceExactly(e: Formats, files: Files, r: EgressResult, maxBody: int)
    requires r.bodySize <= maxBody
    ensures EvidenceAgrees(e, files, r, maxBody) <==> Witnessed(e, files, r)
  {
    hide EnvelopePath, BodyRefPath, CasPath, WorkerPolicyID, DigestText, UnmarshalEnvelope;
  }

  /** A spool that verifies has its manifest, a valid one, and every listed artifact hashes to its
    * listed digest, whatever has been done to the directory. */
  lemma VerifiedAttests(e: Formats, files: Files, maxBody: int)
    requires Verified(e, files, maxBody).Some?
    ensures ManifestPath() in files && e.manifest(files[ManifestPath()]).Some?
    ensures var m := e.manifest(files[ManifestPath()]).value; ValidManifest(m) && Attested(e, files, m)
  {
    hide ManifestPath, ValidManifest, Authorised, Witnessed, ResultPath, EnvelopePath, HasPrefix, CasPrefix, DigestText;
    VerifiedExactly(e, files, maxBody, Verified(e, files, maxBody).value);
    hide Verified;
  }

  /** Two directories with the same manifest file that both verify hold the same artifacts and give
    * the same result, unless two different contents have the same hash. */
  lemma ManifestDecides(e: Formats, a: Files, b: Files, maxBody: int)
    requires Verified(e, a, maxBody).Some? && Verified(e, b, maxBody).Some?
    requires ManifestPath() in a && ManifestPath() in b && a[ManifestPath()] == b[ManifestPath()]
    requires forall p, q :: p in a && q in b && e.hash(a[p]) == e.hash(b[q]) ==> a[p] == b[q]
    ensures var m := e.manifest(a[ManifestPath()]);
            m.Some? && forall artifact :: artifact in m.value.artifacts ==>
              artifact.path in a && artifact.path in b && a[artifact.path] == b[artifact.path]
    ensures Verified(e, a, maxBody) == Verified(e, b, maxBody)
  {
    hide ManifestPath, ValidManifest, DigestText, Verified, ResultPath, RequiredPaths;
    VerifiedAttests(e, a, maxBody);
    VerifiedAttests(e, b, maxBody);
    var m := e.manifest(a[ManifestPath()]).value;
    forall artifact | artifact in m.artifacts ensures a[artifact.path] == b[artifact.path] {
      DigestTextInjective(e.hash(a[artifact.path]), e.hash(b[artifact.path]));
    }
    VerifiedExactly(e, a, maxBody, Verified(e, a, maxBody).value);
    VerifiedExactly(e, b, maxBody, Verified(e, b, maxBody).value);
    ResultListed(m);
  }

  lemma ResultListed(m: Manifest)
    requires ValidManifest(m)
    ensures exists a :: a in m.artifacts && a.path == ResultPath()
  {
    hide ResultPath, GoodArtifact;
    assert ResultPath() in PathsOf(m.artifacts);
  }

  /** Changing the content of any listed artifact of a spool that verifies makes it fail, unless the
    * new content has the hash of the old one. */
  lemma ChangedArtifactFails(e: Formats, files: Files, artifact: Artifact, data: Bytes, maxBody: int)
    requires Verified(e, files, maxBody).Some? && ManifestPath() in files
    requires var m := e.manifest(files[ManifestPath()]); m.Some? ==> artifact in m.value.artifacts
    ensures artifact.path in files
    ensures e.hash(data) != e.hash(files[artifact.path]) ==> Verified(e, files[artifact.path := data], maxBody) == None
  {
    hide ManifestPath, DigestText, Verified, ValidManifest;
    VerifiedAttests(e, files, maxBody);
    var changed := files[artifact.path := data];
    ListedNotManifest(e.manifest(files[ManifestPath()]).value, artifact);
    if Verified(e, changed, maxBody).Some? {
      VerifiedAttests(e, changed, maxBody);
      DigestTextInjective(e.hash(data), e.hash(files[artifact.path]));
    }
  }

  lemma ListedNotManifest(m: Manifest, artifact: Artifact)
    requires ValidManifest(m) && artifact in m.artifacts
    ensures artifact.path != ManifestPath()
  {
    hide RequiredPaths, CasPrefix, ManifestPath, HasPrefix, SafeRelativePath, ValidDigest;
    var i :| 0 <= i < |m.artifacts| && m.artifacts[i] == artifact;
    assert GoodArtifact(m, i);
    NotStored(ManifestPath());
    ManifestNotRequired();
  }

  // ----- what a complete spool tells -----------------------------------------

  /** The fetch that the envelope, the stored body and the result of a directory tell of. */
  function FetchIn(e: Formats, files: Files): Option<(Fetch, int)> {
    if EnvelopePath() !in files || ResultPath() !in files then None
    else Told(files, UnmarshalEnvelope(files[EnvelopePath()], t => e.time(t).Some?).ToOption(), e.result(files[ResultPath()]))
  }

  function Told(files: Files, v: Option<Envelope>, r: Option<EgressResult>): Option<(Fetch, int)> {
    if v.None? || r.None? then None
    else Joined(v.value, BodyAt(files, CasPath(v.value.bodySHA256)), r.value)
  }

  function BodyAt(files: Files, path: Bytes): Option<Bytes> {
    if path in files then Some(files[path]) else None
  }

  function Joined(v: Envelope, body: Option<Bytes>, r: EgressResult): Option<(Fetch, int)> {
    if body.None? || |body.value| > MAX_INT || r.redirectCount < 0 then None
    else
      Some((Fetch(v.requestURL, v.finalURL, v.httpMethod, v.status, v.mediaType, v.retrievedAt, body.value, r.redirectCount),
            r.durationMillis))
  }

  /** A complete spool loses nothing of the fetch: all of it, and how long it took, can be told from
    * the files. The result says the same of it as the envelope, and whose order it was. */
  lemma FetchRecovered(e: Formats, l: Loaded, f: Fetch, duration: nat)
    requires WellLoaded(e, l) && Lawful(e) && Publishable(e, l, f, duration)
    ensures var files := CompleteFiles(e, l, f, duration);
            && FetchIn(e, files) == Some((f, duration)) && WorkOrderPath() in files && files[WorkOrderPath()] == l.data
            && ResultPath() in files && e.result(files[ResultPath()]).Some?
            && var r := e.result(files[ResultPath()]).value;
            && (r.workOrderID, r.workOrderDigest) == (l.order.id, l.digest)
            && (r.originID, r.purpose) == (l.order.originID, l.order.purpose)
            && (r.requestURL, r.finalURL, r.retrievedAt) == (f.requestURL, f.finalURL, f.retrievedAt)
            && (r.httpStatus, r.mediaType, r.bodySize) == (f.status as int, f.mediaType, |f.body|)
  {
    hide *;
    CompleteFilesHold(e, l, f, duration);
    LoadedSealing(e, l);
    EnvelopeRead(e, l, f, duration);
    ResultReadsBack(e, l, f, duration);
    RecoveredFrom(e, CompleteFiles(e, l, f, duration), l, f, duration);
  }

  lemma EnvelopeRead(e: Formats, l: Loaded, f: Fetch, duration: nat)
    requires Publishable(e, l, f, duration)
    ensures Observable(e, f) && UnmarshalEnvelope(EnvelopeBytes(e, f), t => e.time(t).Some?) == Success(EnvelopeOf(e, f))
  {
    hide Observable, ValidEnvelope, EnvelopeOf, CasPath, ViewBytes, BodyReference;
    EvidenceSizes(e, f);
    ObservableIsValid(e, f);
    EnvelopeRoundTrip(EnvelopeOf(e, f), t => e.time(t).Some?);
  }

  lemma RecoveredFrom(e: Formats, files: Files, l: Loaded, f: Fetch, duration: nat)
    requires EnvelopePath() in files && CasPath(e.hash(f.body)) in files && files[CasPath(e.hash(f.body))] == f.body
    requires UnmarshalEnvelope(files[EnvelopePath()], t => e.time(t).Some?) == Success(EnvelopeOf(e, f))
    requires ResultPath() in files && e.result(files[ResultPath()]) == Some(ResultOf(e, l, f, duration))
    ensures FetchIn(e, files) == Some((f, duration))
    ensures var r := e.result(files[ResultPath()]).value;
            && (r.workOrderID, r.workOrderDigest) == (l.order.id, l.digest)
            && (r.originID, r.purpose) == (l.order.originID, l.order.purpose)
            && (r.requestURL, r.finalURL, r.retrievedAt) == (f.requestURL, f.finalURL, f.retrievedAt)
            && (r.httpStatus, r.mediaType, r.bodySize) == (f.status as int, f.mediaType, |f.body|)
  {
    hide EnvelopePath, ResultPath, CasPath, UnmarshalEnvelope, DigestOf, EnvelopeBytes;
  }

  // ----- manifests -----------------------------------------------------------

  /** The five paths that every spool has. */
  function FixedPaths(): set<Bytes> {
    {Ascii("evidence/body.ref"), Ascii("evidence/observation.cbor"), Ascii("evidence/observation.json"),
     Ascii("result.json"), Ascii("work-order.json")}
  }

  /** A manifest is valid exactly when its artifacts come strictly sorted by path, with safe paths and
    * well-formed digests, and are the five that every spool has and one body of the store. */
  lemma ManifestExactly(m: Manifest)
    ensures ValidManifest(m) <==>
              && m.format == Ascii("tw.egress-manifest/0.1") && ValidID(m.workOrderID) && ValidDigest(m.workOrderDigest)
              && (forall i :: 0 < i < |m.artifacts| ==> Less(m.artifacts[i - 1].path, m.artifacts[i].path))
              && (forall a :: a in m.artifacts ==> SafeRelativePath(a.path) && ValidDigest(a.digest))
              && exists stored :: HasPrefix(stored, Ascii("cas/sha256/")) && PathsOf(m.artifacts) == FixedPaths() + {stored}
  {
    FixedAreRequired();
    NamesOf();
    hide SafeRelativePath, ValidDigest, ValidID, Less, HasPrefix, Ascii, FixedPaths, RequiredPaths, CasPrefix, ManifestFormat;
    hide GoodArtifact, PathsOf;
    if ValidManifest(m) {
      GoodOnes(m);
      var stored :| stored in PathsOf(m.artifacts) && HasPrefix(stored, CasPrefix());
      SixPaths(m, stored);
    }
    forall stored | HasPrefix(stored, CasPrefix()) && PathsOf(m.artifacts) == FixedPaths() + {stored} && InOrder(m)
      ensures |m.artifacts| == 6 && forall i :: 0 <= i < 6 ==> GoodArtifact(m, i)
    {
      SixArtifacts(m, stored);
    }
  }

  predicate InOrder(m: Manifest) {
    && (forall i :: 0 < i < |m.artifacts| ==> Less(m.artifacts[i - 1].path, m.artifacts[i].path))
    && (forall a :: a in m.artifacts ==> SafeRelativePath(a.path) && ValidDigest(a.digest))
  }

  lemma NamesOf()
    ensures CasPrefix() == Ascii("cas/sha256/") && ManifestFormat() == Ascii("tw.egress-manifest/0.1")
  {
  }

  lemma FixedAreRequired()
    ensures FixedPaths() == RequiredPaths() && |FixedPaths()| == 5
    ensures forall p :: p in FixedPaths() ==> !HasPrefix(p, CasPrefix())
  {
    FixedNames();
    hide FixedPaths, HasPrefix, CasPrefix;
    forall p | p in RequiredPaths() ensures !HasPrefix(p, CasPrefix()) {
      NotStored(p);
    }
    hide BodyRefPath, EnvelopePath, ViewPath, ResultPath, WorkOrderPath;
    PathsDistinct(ZeroDigest());
    Five(BodyRefPath(), EnvelopePath(), ViewPath(), ResultPath(), WorkOrderPath());
  }

  lemma Five<T>(a: T, b: T, c: T, d: T, e: T)
    requires a != b && c !in {a, b} && d !in {a, b, c} && e !in {a, b, c, d}
    ensures |{a, b, c, d, e}| == 5
  {
    assert {a, b, c, d, e} == {a, b, c, d} + {e};
    assert {a, b, c, d} == {a, b, c} + {d};
    assert {a, b, c} == {a, b} + {c};
  }

  lemma FixedNames()
    ensures FixedPaths() == RequiredPaths()
  {
  }

  lemma GoodOnes(m: Manifest)
    requires ValidManifest(m)
    ensures InOrder(m)
  {
    hide SafeRelativePath, ValidDigest, Less, HasPrefix, RequiredPaths, PathsOf;
    forall a | a in m.artifacts ensures SafeRelativePath(a.path) && ValidDigest(a.digest) {
      var i :| 0 <= i < |m.artifacts| && m.artifacts[i] == a;
      assert GoodArtifact(m, i);
    }
    forall i | 0 < i < |m.artifacts| ensures Less(m.artifacts[i - 1].path, m.artifacts[i].path) {
      assert GoodArtifact(m, i);
    }
  }

  lemma {:induction false} AsManyPaths(artifacts: seq<Artifact>)
    requires forall i :: 0 < i < |artifacts| ==> Less(artifacts[i - 1].path, artifacts[i].path)
    ensures |PathsOf(artifacts)| == |artifacts|
  {
    hide PathsOf;
    var n := |artifacts| - 1;
    if n < 0 {
      NoPaths();
    } else {
      AsManyPaths(artifacts[..n]);
      PathsGrow(artifacts, n);
      assert artifacts[..n + 1] == artifacts;
      LastIsNew(artifacts);
    }
  }

  lemma NoPaths()
    ensures PathsOf([]) == {}
  {
  }

  lemma LastIsNew(artifacts: seq<Artifact>)
    requires artifacts != [] && forall i :: 0 < i < |artifacts| ==> Less(artifacts[i - 1].path, artifacts[i].path)
    ensures artifacts[|artifacts| - 1].path !in PathsOf(artifacts[..|artifacts| - 1])
  {
    hide Less;
    var paths := seq(|artifacts|, i requires 0 <= i < |artifacts| => artifacts[i].path);
    assert StrictlySorted(paths);
    SortedDistinct(paths);
    var n := |artifacts| - 1;
    forall a | a in artifacts[..n] ensures a.path != artifacts[n].path {
      var i :| 0 <= i < n && artifacts[i] == a;
      assert paths[i] != paths[n];
    }
  }

  lemma SixPaths(m: Manifest, stored: Bytes)
    requires ValidManifest(m) && InOrder(m) && stored in PathsOf(m.artifacts) && HasPrefix(stored, CasPrefix())
    ensures PathsOf(m.artifacts) == FixedPaths() + {stored}
  {
    FixedAreRequired();
    hide Less, HasPrefix, PathsOf, FixedPaths, RequiredPaths, GoodArtifact, SafeRelativePath, ValidDigest;
    AsManyPaths(m.artifacts);
    assert stored !in FixedPaths();
    assert |FixedPaths() + {stored}| == 6;
    SubsetSize(FixedPaths() + {stored}, PathsOf(m.artifacts));
  }

  lemma SixArtifacts(m: Manifest, stored: Bytes)
    requires InOrder(m) && HasPrefix(stored, CasPrefix()) && PathsOf(m.artifacts) == FixedPaths() + {stored}
    ensures |m.artifacts| == 6 && forall i :: 0 <= i < 6 ==> GoodArtifact(m, i)
  {
    FixedAreRequired();
    hide Less, HasPrefix, FixedPaths, RequiredPaths, SafeRelativePath, ValidDigest;
    AsManyPaths(m.artifacts);
    assert stored !in FixedPaths();
    forall i | 0 <= i < 6 ensures GoodArtifact(m, i) {
      assert m.artifacts[i] in m.artifacts && m.artifacts[i].path in PathsOf(m.artifacts);
    }
  }

  // ----- authority -----------------------------------------------------------

  /** What an order may be for, by the class and the decision that it rests on. */
  function Authorities(): set<(string, string, string)> {
    {("policy_evidence_collection", "uncertain", "robots"),
     ("reviewed_policy", "permit_live", "robots"), ("reviewed_policy", "permit_live", "profile"),
     ("reviewed_policy", "permit_live", "observation"), ("reviewed_policy", "permit_with_constraints", "robots"),
     ("reviewed_policy", "permit_with_constraints", "profile"), ("reviewed_policy", "permit_with_constraints", "observation"),
     ("reviewed_policy", "profile_only", "robots"), ("reviewed_policy", "profile_only", "profile")}
  }

  predicate Spells(o: Order, t: (string, string, string)) {
    o.authorityClass == Ascii(t.0) && o.policyDecision == Ascii(t.1) && o.purpose == Ascii(t.2)
  }

  /** An order has authority exactly in these nine combinations. */
  lemma AuthorityExactly(o: Order)
    ensures ValidAuthority(o) && OneOf(o.purpose, ["robots", "profile", "observation"])
            <==> exists t :: t in Authorities() && Spells(o, t)
  {
    DistinctWords();
    hide Ascii;
    var purposes, decisions := ["robots", "profile", "observation"], ["permit_live", "permit_with_constraints", "profile_only"];
    assert OneOf(o.purpose, purposes) <==>
        o.purpose == Ascii(purposes[0]) || o.purpose == Ascii(purposes[1]) || o.purpose == Ascii(purposes[2]);
    assert OneOf(o.policyDecision, decisions) <==>
        o.policyDecision == Ascii(decisions[0]) || o.policyDecision == Ascii(decisions[1])
        || o.policyDecision == Ascii(decisions[2]);
    hide OneOf;
    assert Spells(o, ("policy_evidence_collection", "uncertain", "robots")) <==>
        o.authorityClass == Ascii("policy_evidence_collection") && o.policyDecision == Ascii("uncertain")
        && o.purpose == Ascii("robots");
    if ValidAuthority(o) && OneOf(o.purpose, purposes) {
      var class_ := if o.authorityClass == Ascii("reviewed_policy") then "reviewed_policy" else "policy_evidence_collection";
      var decision := if o.policyDecision == Ascii("permit_live") then "permit_live"
                      else if o.policyDecision == Ascii("permit_with_constraints") then "permit_with_constraints"
                      else if o.policyDecision == Ascii("profile_only") then "profile_only" else "uncertain";
      var purpose := if o.purpose == Ascii("robots") then "robots"
                     else if o.purpose == Ascii("profile") then "profile" else "observation";
      assert Spells(o, (class_, decision, purpose)) && (class_, decision, purpose) in Authorities();
    }
  }

  lemma DistinctWords()
    ensures Ascii("policy_evidence_collection") != Ascii("reviewed_policy")
    ensures Ascii("uncertain") !in {Ascii("permit_live"), Ascii("permit_with_constraints"), Ascii("profile_only")}
    ensures Ascii("profile_only") !in {Ascii("permit_live"), Ascii("permit_with_constraints")}
    ensures Ascii("observation") !in {Ascii("robots"), Ascii("profile")} && Ascii("robots") != Ascii("profile")
  {
    assert |Ascii("policy_evidence_collection")| == 26 && |Ascii("reviewed_policy")| == 15 && |Ascii("uncertain")| == 9;
    assert |Ascii("permit_live")| == 11 && |Ascii("permit_with_constraints")| == 23 && |Ascii("profile_only")| == 12;
    assert |Ascii("observation")| == 11 && |Ascii("robots")| == 6 && |Ascii("profile")| == 7;
  }
}
