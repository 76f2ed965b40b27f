/** What an archived capture guarantees once it verifies, whatever is in the directory. */
module ArchiveSoundness {
  // Verification is for directories that somebody may have touched since they were published.

  import opened Wrappers
  import opened ByteStrings
  import opened Lexical
  import opened Spools
  import opened ArchiveOrders
  import opened ArchiveIndex
  import opened ArchiveSpool

  /** The file is there, not empty and within a size. */
  predicate Holds(files: Files, path: Bytes, maximum: int) {
    path in files && 0 < |files[path]| <= maximum
  }

  /** Every artifact is there, within the limit of its kind, with its listed size and digest. */
  predicate Rehashed(e: Formats, files: Files, artifacts: seq<Artifact>) {
    forall a :: a in artifacts ==>
      Holds(files, a.path, ArtifactLimit(a.path)) && |files[a.path]| == a.size && DigestText(e.hash(files[a.path])) == a.digest
  }

  /** The raw evidence is what the evidence manifest names: an order that permits one capture only
    * for the index record, the bytes of that capture, and the response that delivered them. */
  predicate Evidenced(e: Formats, files: Files, m: EvidenceManifest, raw: Raw) {
    var w, c := raw.loaded.order, raw.capture;
    && Holds(files, OrderPath(), MAX_WORK_ORDER) && files[OrderPath()] == raw.loaded.data
    && DigestText(e.hash(raw.loaded.data)) == raw.loaded.digest == m.workOrderDigest
    && e.order(raw.loaded.data) == Some(w) && w.id == m.workOrderID && ValidOrder(e.index.order, w)
    && Holds(files, IndexPath(), MAX_INDEX_LINE + 1)
    && ResolveAll(e, w, files[IndexPath()], Pairs(w.collectionIDs, w.permittedRoutes)) == [c]
    && Holds(files, RecordPath(), w.maxCompressedRecordBytes) && files[RecordPath()] == raw.compressed
    && |raw.compressed| == c.length
    && Holds(files, RangePath(), MAX_METADATA) && e.range(files[RangePath()]) == Some(raw.range)
    && ValidRangeEvidence(e, raw.range, c, raw.compressed, w.maxCompressedRecordBytes)
  }

  /** For any directory: the raw evidence verifies exactly if there is a valid evidence manifest, all
    * that it lists hashes to its digests, and order, index record, record and response agree. */
  lemma RawExactly(e: Formats, files: Files, raw: Raw)
    ensures VerifyRaw(e, files) == Some(raw) <==>
              && Holds(files, EvidencePath(), MAX_METADATA) && e.evidence(files[EvidencePath()]).Some?
              && var m := e.evidence(files[EvidencePath()]).value;
              ValidEvidenceManifest(m) && Rehashed(e, files, m.artifacts) && Evidenced(e, files, m, raw)
  {
    hide EvidencePath, ValidEvidenceManifest, AllMatch, Rehashed, VerifyListed, Evidenced;
    var data := ReadRegular(files, EvidencePath(), MAX_METADATA);
    if data.Some? && e.evidence(data.value).Some? {
      var m := e.evidence(data.value).value;
      MatchExactly(e, files, m.artifacts);
      ListedExactly(e, files, m, raw);
    }
  }

  lemma MatchExactly(e: Formats, files: Files, artifacts: seq<Artifact>)
    ensures AllMatch(e, files, artifacts) <==> Rehashed(e, files, artifacts)
  {
    hide ArtifactLimit, DigestText;
    if Rehashed(e, files, artifacts) {
      forall i | 0 <= i < |artifacts| ensures ArtifactMatches(e, files, artifacts[i]) {
        assert artifacts[i] in artifacts;
      }
    }
  }

  lemma ListedExactly(e: Formats, files: Files, m: EvidenceManifest, raw: Raw)
    ensures VerifyListed(e, files, m) == Some(raw) <==> Evidenced(e, files, m, raw)
  {
    hide OrderPath, IndexPath, RecordPath, RangePath, ValidOrder, ResolveAll, Pairs, ValidRangeEvidence, DigestText;
    var order := ReadRegular(files, OrderPath(), MAX_WORK_ORDER);
    var index := ReadRegular(files, IndexPath(), MAX_INDEX_LINE + 1);
    if order.Some? && e.order(order.value).Some? && index.Some? {
      var w := e.order(order.value).value;
      var captures := ResolveAll(e, w, index.value, Pairs(w.collectionIDs, w.permittedRoutes));
      assert |captures| == 1 ==> captures == [captures[0]];
    }
  }

  /** The capture evidence says of the order, the capture, the response and the record what they are. */
  predicate Describes(e: Formats, v: CaptureEvidence, raw: Raw, p: ParsedRecord) {
    var w, c := raw.loaded.order, raw.capture;
    && ValidCaptureEvidence(e, v, w) && v.workOrderDigest == raw.loaded.digest && v.originID == w.originID
    && (v.collectionID, v.captureTimestamp, v.targetURL) == (c.collectionID, c.timestamp, c.capturedURL)
    && (v.warcFile, v.warcOffset, v.warcLength) == (c.filename, c.offset, c.length)
    && (v.rangeHTTPStatus, v.rangeContentRange) == (raw.range.httpStatus, raw.range.contentRange)
    && v.compressedRecordDigest == DigestText(e.hash(raw.compressed))
    && (v.representationDigest, v.representationSize) == (p.bodyDigest, |p.body|)
    && v.providerPayloadDigest == p.providerDigest
    && (v.httpStatus, v.mediaType) == (p.httpStatus, p.mediaType)
    && (v.contentEncoding, v.contentLanguage) == (p.contentEncoding, p.contentLanguage)
  }

  /** The body in the directory is that of the record parsed again, and the capture file is its
    * evidence, behind the evidence manifest that the final manifest names. */
  predicate Derived(e: Formats, files: Files, m: CaptureManifest, raw: Raw, v: CaptureEvidence) {
    var w, p := raw.loaded.order, e.parse(raw.compressed, raw.capture, raw.loaded.order);
    && raw.loaded.digest == m.workOrderDigest
    && Holds(files, EvidencePath(), MAX_METADATA) && DigestText(e.hash(files[EvidencePath()])) == m.evidenceDigest
    && p.Some? && Holds(files, BodyPath(), w.maxRetainedBodyBytes) && files[BodyPath()] == p.value.body
    && DigestText(e.hash(p.value.body)) == p.value.bodyDigest
    && Holds(files, CapturePath(), MAX_METADATA) && e.capture(files[CapturePath()]) == Some(v)
    && Describes(e, v, raw, p.value)
  }

  /** For any directory: verification returns evidence exactly if there is a valid final manifest, all
    * that it lists hashes to its digests, the raw evidence verifies, and what was derived is derived
    * from it again. */
  lemma VerifiedExactly(e: Formats, files: Files, v: CaptureEvidence)
    ensures Verified(e, files) == Some(v) <==>
              && Holds(files, ManifestPath(), MAX_METADATA) && e.manifest(files[ManifestPath()]).Some?
              && var m := e.manifest(files[ManifestPath()]).value;
              && ValidCaptureManifest(m) && Rehashed(e, files, m.artifacts)
              && VerifyRaw(e, files).Some? && Derived(e, files, m, VerifyRaw(e, files).value, v)
  {
    hide ManifestPath, ValidCaptureManifest, AllMatch, Rehashed, VerifyRaw, VerifyDerived, Derived;
    var data := ReadRegular(files, ManifestPath(), MAX_METADATA);
    if data.Some? && e.manifest(data.value).Some? && VerifyRaw(e, files).Some? {
      var m := e.manifest(data.value).value;
      MatchExactly(e, files, m.artifacts);
      DerivedExactly(e, files, m, VerifyRaw(e, files).value, v);
    }
  }

  lemma DerivedExactly(e: Formats, files: Files, m: CaptureManifest, raw: Raw, v: CaptureEvidence)
    ensures VerifyDerived(e, files, m, raw) == Some(v) <==> Derived(e, files, m, raw, v)
  {
    hide EvidencePath, BodyPath, CapturePath, ValidCaptureEvidence, DigestText;
  }

  /** What verified evidence says is so of the files themselves: the digests and sizes are those of
    * the order, the record and the body in the directory, the response was for this record, named
    * its first and last byte, and delivered it whole. */
  lemma EvidenceNamesFiles(e: Formats, files: Files, v: CaptureEvidence)
    requires Verified(e, files) == Some(v)
    ensures {OrderPath(), RecordPath(), BodyPath(), RangePath()} <= files.Keys
    ensures DigestText(e.hash(files[OrderPath()])) == v.workOrderDigest
    ensures DigestText(e.hash(files[RecordPath()])) == v.compressedRecordDigest && |files[RecordPath()]| == v.warcLength
    ensures DigestText(e.hash(files[BodyPath()])) == v.representationDigest && |files[BodyPath()]| == v.representationSize
    ensures e.range(files[RangePath()]).Some?
    ensures var r := e.range(files[RangePath()]).value;
            && r.dataURL == e.dataURL(v.warcFile) && r.contentRange == v.rangeContentRange
            && r.bodyDigest == v.compressedRecordDigest && r.bodySize == v.warcLength > 0
    ensures exists total :: v.rangeContentRange == ContentRange(v.warcOffset, v.warcLength, total)
                            && total != [] && AllDigits(total) && v.warcOffset + v.warcLength <= Decimal(total)
  {
    hide ManifestPath, ValidCaptureManifest, Rehashed, VerifyRaw, Verified, OrderPath, RecordPath, BodyPath, RangePath;
    hide EvidencePath, CapturePath, IndexPath, DigestText, ValidOrder, ResolveAll, Pairs, ValidCaptureEvidence, ValidRangeEvidence;
    VerifiedExactly(e, files, v);
    var raw := VerifyRaw(e, files).value;
    RawExactly(e, files, raw);
    RangeOf(e, raw.range, raw.capture, raw.compressed, raw.loaded.order.maxCompressedRecordBytes);
  }

  lemma RangeOf(e: Formats, r: RangeEvidence, c: Capture, compressed: Bytes, maximum: nat)
    requires ValidRangeEvidence(e, r, c, compressed, maximum)
    ensures r.dataURL == e.dataURL(c.filename) && r.bodyDigest == DigestText(e.hash(compressed)) && r.bodySize == |compressed|
    ensures |compressed| == c.length > 0
    ensures exists total :: r.contentRange == ContentRange(c.offset, c.length, total)
                            && total != [] && AllDigits(total) && c.offset + c.length <= Decimal(total)
  {
    hide ValidRange, ValidIdentity, RangeHeader, DigestText, Numeral, Decimal;
    RangeExactly(e.index, c, r.httpStatus, r.contentRange, |compressed|, maximum);
  }

  /** Verified evidence stays within its order, and never passes for a current statement of the
    * publisher. */
  lemma EvidenceWithinOrder(e: Formats, files: Files, v: CaptureEvidence)
    requires Verified(e, files) == Some(v)
    ensures OrderPath() in files && e.order(files[OrderPath()]).Some?
    ensures var w := e.order(files[OrderPath()]).value;
            && v.workOrderID == w.id && v.originID == w.originID
            && v.collectionID in w.collectionIDs && v.targetURL in w.permittedRoutes
            && v.warcLength <= w.maxCompressedRecordBytes && v.representationSize <= w.maxRetainedBodyBytes
    ensures v.evidenceClass == Ascii("archive_observation") && v.freshness == Ascii("historical")
    ensures !v.currentPublisherStatement && v.httpStatus == 200
  {
    hide ManifestPath, ValidCaptureManifest, Rehashed, VerifyRaw, Verified, OrderPath, RecordPath, BodyPath, RangePath;
    hide EvidencePath, CapturePath, IndexPath, DigestText, ValidOrder, ResolveAll, Pairs, ValidRangeEvidence;
    hide ValidWARCPath, ValidRange, ProviderDigest, ValidPlainText, HeaderText, Ascii;
    VerifiedExactly(e, files, v);
    RawExactly(e, files, VerifyRaw(e, files).value);
  }

  /** A capture that verifies has its final manifest, a valid one, and every listed artifact has its
    * listed size and hashes to its listed digest, whatever has been done to the directory. */
  lemma VerifiedAttests(e: Formats, files: Files)
    requires Verified(e, files).Some?
    ensures ManifestPath() in files && e.manifest(files[ManifestPath()]).Some?
    ensures var m := e.manifest(files[ManifestPath()]).value; ValidCaptureManifest(m) && Rehashed(e, files, m.artifacts)
  {
    hide ManifestPath, ValidCaptureManifest, Rehashed, VerifyRaw, Derived, Verified;
    VerifiedExactly(e, files, Verified(e, files).value);
  }

  /** Changing the content of any listed artifact of a capture that verifies makes it fail, unless
    * the new content has the hash of the old one. */
  lemma ChangedArtifactFails(e: Formats, files: Files, artifact: Artifact, data: Bytes)
    requires Verified(e, files).Some? && ManifestPath() in files
    requires var m := e.manifest(files[ManifestPath()]); m.Some? ==> artifact in m.value.artifacts
    ensures artifact.path in files
    ensures e.hash(data) != e.hash(files[artifact.path]) ==> Verified(e, files[artifact.path := data]) == None
  {
    hide ManifestPath, DigestText, Verified, ValidCaptureManifest, ArtifactLimit;
    VerifiedAttests(e, files);
    var changed := files[artifact.path := data];
    ListedNotManifest(e.manifest(files[ManifestPath()]).value, artifact);
    if Verified(e, changed).Some? {
      VerifiedAttests(e, changed);
      DigestTextInjective(e.hash(data), e.hash(files[artifact.path]));
    }
  }

  lemma ListedNotManifest(m: CaptureManifest, artifact: Artifact)
    requires ValidCaptureManifest(m) && artifact in m.artifacts
    ensures artifact.path != ManifestPath()
  {
    hide ManifestPath, OrderPath, IndexPath, RangePath, RecordPath, EvidencePath, BodyPath, CapturePath, ValidDigest;
    PathsDistinct();
    var i :| 0 <= i < |m.artifacts| && m.artifacts[i] == artifact;
    assert artifact.path == FinalPaths()[i];
  }
}
