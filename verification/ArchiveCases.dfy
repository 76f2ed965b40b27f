/** Publications of the archive importer that succeed, and what verification makes of them.
  *
  * One order with one capture of two bytes, and one record for any two archived headers, under lawful formats:
  * the capture is published whatever the headers, and verifies only if both are UTF-8.
  */
module ArchiveCases {
  import opened Wrappers
  import opened ByteStrings
  import opened Lexical
  import opened Spools
  import Documents
  import Egress
  import opened ArchiveOrders
  import opened ArchiveIndex
  import opened ArchiveSpool
  import opened Laws

  // ----- the case ------------------------------------------------------------

  function CaseCollection(): Bytes { Ascii("CC-MAIN-2024-10") }
  function CaseRoute(): Bytes { Ascii("https://example.org/") }
  function CaseTime(): Bytes { Ascii("20240101000000") }
  function CaseFile(): Bytes { WARCRoot(CaseCollection()) + CaseName() }
  function CaseName(): Bytes { Ascii("a.warc.gz") }
  function CaseProvider(): Bytes { seq(32, _ => 65) }
  function CaseDigest(): Bytes { DigestText(Documents.ZeroDigest()) }

  function CaseOrder(): WorkOrder {
    WorkOrder(Ascii("tw.common-crawl-work-order/0.2"), Ascii("order"), Ascii("origin"), [97], [CaseRoute()],
              [CaseCollection()], [CaseSelection()], 1, 1, MAX_INDEX_RESPONSE, MAX_COMPRESSED, MAX_DECOMPRESSED,
              MAX_RETAINED_BODY, Ascii("completed"), Ascii("permit_live"), CaseDigest(), CaseDigest(), [97], [97], [97],
              Ascii("archive_observation"), Ascii("historical"), false, Ascii("common_crawl"))
  }

  function CaseSelection(): Selection {
    Selection(CaseCollection(), CaseRoute(), CaseTime(), CaseProvider(), CaseFile(), 7, 2)
  }

  function CaseSyntax(): Syntax {
    Syntax(v => true, (o, v) => true, v => v == CaseTime(), v => true, v => true)
  }

  function CaseIndex(): Index {
    Index(CaseSyntax(), v => v == [],
          v => Some(IndexRecord(CaseRoute(), CaseTime(), Some(200), [97], CaseProvider(), CaseFile(), Some(7), Some(2))),
          v => true)
  }

  function CaseCapture(): Capture {
    Capture(CaseCollection(), CaseRoute(), CaseRoute(), CaseTime(), 200, [97], CaseProvider(), CaseFile(), 7, 2, [97])
  }

  ghost function CaseFormats(hash: Hash, encoding: Bytes, language: Bytes): Formats {
    ArchiveFormats(hash, CaseIndex(), _ => Some(CaseOrder()), encoding, language)
  }

  function CaseInput(hash: Hash): Input {
    Input(Loaded(CaseOrder(), DigestText(hash([0])), [0]), CaseCapture(), 206, CaseRange(), CaseBytes())
  }

  function CaseRange(): Bytes { Ascii("bytes 7-8/9") }
  function CaseBytes(): Bytes { [0, 0] }

  // ----- the texts are in form -----------------------------------------------

  lemma CaseTexts()
    ensures CollectionID(CaseCollection()) && ProviderDigest(CaseProvider()) && ValidDigest(CaseDigest())
    ensures CaseRoute() != [] && 0 !in CaseRoute() && |CaseRoute()| == 20 && |CaseTime()| == 14 && 0 !in CaseTime()
    ensures 0 !in CaseCollection() && |CaseFile()| == 36 && 0 !in CaseFile() && 0 !in CaseProvider()
    ensures |CaseProvider()| == 32 && |CaseDigest()| == 71 && |CaseCollection()| == 15
  {
    hide *;
    CaseCollectionValid();
    CaseProviderValid();
    CaseFileBytes();
    CaseShortTexts();
  }

  lemma CaseShortTexts()
    ensures CaseRoute() != [] && 0 !in CaseRoute() && |CaseRoute()| == 20 && |CaseTime()| == 14 && 0 !in CaseTime()
    ensures ValidDigest(CaseDigest()) && |CaseDigest()| == 71
  {
    hide ValidDigest, DigestText;
    DigestTextValid(Documents.ZeroDigest());
  }

  lemma CaseCollectionValid()
    ensures CollectionID(CaseCollection()) && 0 !in CaseCollection() && |CaseCollection()| == 15
  {
    var c := CaseCollection();
    assert c[..8] == Ascii("CC-MAIN-");
    assert forall i :: 0 <= i < 4 ==> IsDigit(c[8..12][i]);
    assert forall i :: 0 <= i < 2 ==> IsDigit(c[13..][i]);
  }

  lemma CaseProviderValid()
    ensures ProviderDigest(CaseProvider()) && 0 !in CaseProvider() && |CaseProvider()| == 32
  {
    var p, name := CaseProvider(), Ascii("sha1:");
    assert p[0] == 65 && name[0] == 115;
    assert p[..5][0] == 65;
    assert !HasPrefix(p, name);
    assert forall i :: 0 <= i < 32 ==> Base32(p[i]);
  }

  lemma CasePath()
    ensures ValidWARCPath(CaseFile(), CaseCollection())
  {
    hide SafeRelativePath, HasSuffix, HasPrefix, WARCRoot, CaseCollection, CaseFile;
    CaseFileBytes();
    CasePathAffixes();
    Egress.PlainPathSafe(CaseFile());
  }

  lemma CaseFileBytes()
    ensures var p := CaseFile();
            && |p| == 36 && p[0] == 99 && p[35] == 122 && 92 !in p && 0 !in p
            && forall i :: 0 <= i < 36 && (p[i] == 46 || p[i] == 47) ==> i in {10, 26, 28, 33}
  {
    CaseRootBytes();
    CaseNameBytes();
    hide WARCRoot, CaseCollection, CaseName;
  }

  lemma CaseRootBytes()
    ensures var r := WARCRoot(CaseCollection());
            && |r| == 27 && r[0] == 99 && 92 !in r && 0 !in r
            && forall i :: 0 <= i < 27 && (r[i] == 46 || r[i] == 47) ==> i in {10, 26}
  {
  }

  lemma CaseNameBytes()
    ensures var n := CaseName();
            && |n| == 9 && n[8] == 122 && 92 !in n && 0 !in n && n[1..] == Ascii(".warc.gz")
            && forall i :: 0 <= i < 9 && (n[i] == 46 || n[i] == 47) ==> i in {1, 6}
  {
  }

  lemma CasePathAffixes()
    ensures HasSuffix(CaseFile(), Ascii(".warc.gz")) && HasPrefix(CaseFile(), WARCRoot(CaseCollection()))
  {
    hide CaseCollection, CaseName, WARCRoot;
    CaseRootBytes();
    CaseNameBytes();
    assert CaseFile()[..27] == WARCRoot(CaseCollection()) && CaseFile()[28..] == CaseName()[1..];
  }

  lemma AsciiPlainText(v: Bytes, maximum: nat)
    requires v != [] && |v| <= maximum && forall i :: 0 <= i < |v| ==> 32 <= v[i] < 127
    ensures ValidPlainText(v, maximum)
  {
    AsciiIsUtf8(v);
  }

  lemma CasePlain()
    ensures ValidPlainText(CaseFile(), 4096) && ValidPlainText([97], 255) && ValidPlainText([97], 256)
    ensures ValidPlainText(CaseRange(), 1024) && |CaseRange()| == 11
  {
    hide ValidPlainText;
    AsciiPlainText(CaseFile(), 4096);
    AsciiPlainText([97], 255);
    AsciiPlainText([97], 256);
    AsciiPlainText(CaseRange(), 1024);
  }

  lemma CaseLawTexts()
    ensures Plain(CaseRoute()) && Plain(CaseTime())
  {
    hide Plain;
    AsciiPlain(CaseRoute());
    AsciiPlain(CaseTime());
  }

  lemma CaseOrderValid()
    ensures ValidOrder(CaseSyntax(), CaseOrder())
  {
    hide CaseCollection, CaseRoute, CaseTime, CaseFile, CaseProvider, CaseDigest, CollectionID, ProviderDigest;
    hide ValidWARCPath, ValidDigest, ValidPlainText, ValidUtf8;
    CaseTexts();
    CasePath();
    CasePlain();
    assert |Keys(CaseOrder().selectedCaptures)| == 1;
  }

  lemma CaseIdentity()
    ensures ValidIdentity(CaseIndex(), CaseCapture())
  {
    hide CaseCollection, CaseRoute, CaseTime, CaseFile, CaseProvider, CollectionID, ProviderDigest, ValidWARCPath;
    CaseTexts();
    CasePath();
  }

  lemma CaseRangeValid()
    ensures ValidRange(CaseIndex(), CaseCapture(), 206, CaseRange(), 2, MAX_COMPRESSED)
    ensures |RangeHeader(CaseCapture())| == 9
  {
    hide CaseCollection, CaseRoute, CaseTime, CaseFile, CaseProvider, ValidIdentity;
    CaseIdentity();
    var r, c := CaseRange(), CaseCapture();
    assert Numeral(7) == [55] && Numeral(8) == [56];
    assert RangePrefix(c) == Ascii("bytes ") + [55] + [45] + [56] + [47] == r[..10];
    assert r[10..] == [57];
    assert Decimal([57]) == 10 * Decimal([]) + 9;
    assert |Ascii("bytes=")| == 6;
  }

  // ----- the index record resolves -------------------------------------------

  lemma CaseLines()
    ensures Filled(CaseIndex(), Lines([97, 10])) == [[97]]
  {
    hide Filled, Lines, CaseRoute, CaseTime, CaseProvider, CaseFile;
    OneLine(97);
    FilledLine(CaseIndex(), [97]);
  }

  // One byte and a newline: a line, and nothing behind it.
  lemma OneLine(b: byte)
    requires b != 10
    ensures Lines([b, 10]) == [[b], []]
  {
    var end: Bytes := [10];
    var all: Bytes := [b] + end;
    assert end[1..] == [] && all[1..] == end;
    assert Split([], 10) == [[]];
    assert Split(end, 10) == [[], []];
    hide Split;
    SplitFirst(all);
    assert all == [b, 10] && [b] + [] == [b];
    assert Split(all, 10) == [[b]] + [[]];
  }

  lemma SplitFirst(s: Bytes)
    requires s != [] && s[0] != 10
    ensures var tail := Split(s[1..], 10); Split(s, 10) == [[s[0]] + tail[0]] + tail[1..]
  {
  }

  lemma FilledLine(x: Index, line: Bytes)
    requires x.blank([]) && !x.blank(line)
    ensures Filled(x, [line, []]) == [line]
  {
    var lines: seq<Bytes> := [line, []];
    NoneFilled(x, lines);
    FilledNext(x, lines, 0);
    FilledNext(x, lines, 1);
    assert lines[..2] == lines;
    hide Filled;
  }

  lemma CaseLineParses()
    ensures ParseIndexLine(CaseIndex(), [97], CaseCollection(), CaseRoute()) == Some(CaseCapture())
  {
    hide CaseCollection, CaseRoute, CaseTime, CaseFile, CaseProvider, CollectionID, ProviderDigest, ValidWARCPath;
    hide ValidIdentity, ValidPlainText;
    CaseTexts();
    CasePath();
    CasePlain();
    CaseIdentity();
  }

  lemma CaseSelected()
    ensures Selected(CaseOrder(), CaseCollection(), CaseRoute()) == Some(CaseSelection())
  {
    hide CaseCollection, CaseRoute, CaseTime, CaseFile, CaseProvider, CaseDigest, Less, PairKey;
    var key := PairKey(CaseCollection(), CaseRoute());
    assert Keys(CaseOrder().selectedCaptures) == [key];
    LessIrreflexive(key);
    assert Position([key], key) == 0;
  }

  lemma CaseResolves()
    ensures Resolve(CaseIndex(), CaseOrder(), [97, 10], CaseCollection(), CaseRoute()) == Some(CaseCapture())
  {
    hide CaseCollection, CaseRoute, CaseTime, CaseFile, CaseProvider, Filled, Lines, ParseIndexLine, Selected, ValidOrder;
    CaseOrderValid();
    CaseLines();
    CaseLineParses();
    CaseSelected();
  }

  lemma CaseResolvesAlone(e: Formats)
    requires e.index == CaseIndex()
    ensures var w := CaseOrder();
            ResolveAll(e, w, [97, 10], Pairs(w.collectionIDs, w.permittedRoutes)) == [CaseCapture()]
  {
    hide CaseCollection, CaseRoute, Resolve, CaseCapture, CaseIndex, ResolveAll, Pairs;
    CaseResolves();
    var p := (CaseCollection(), CaseRoute());
    OnePair(CaseCollection(), CaseRoute());
    OneResolved(e, CaseOrder(), [97, 10], p);
  }

  lemma OnePair(c: Bytes, r: Bytes)
    ensures Pairs([c], [r]) == [(c, r)]
  {
    var cs: seq<Bytes> := [c];
    assert cs[..0] == [];
    assert Pairs([], [r]) == [];
  }

  lemma OneResolved(e: Formats, w: WorkOrder, data: Bytes, p: (Bytes, Bytes))
    requires Resolve(e.index, w, data, p.0, p.1).Some?
    ensures ResolveAll(e, w, data, [p]) == [Resolve(e.index, w, data, p.0, p.1).value]
  {
    hide Resolve;
    ResolveNext(e, w, data, [], p);
  }

  // ----- the formats, and sizes ----------------------------------------------

  lemma CaseLawful(hash: Hash, encoding: Bytes, language: Bytes)
    ensures Lawful(CaseFormats(hash, encoding, language))
    ensures forall m :: CaseFormats(hash, encoding, language).evidence(PutEvidence(m)) == Some(m)
  {
    hide CaseRoute, CaseTime, Plain, Lawful, PutEvidence;
    CaseLawTexts();
    assert forall v :: v in CaseOrder().permittedRoutes ==> v == CaseRoute();
    ArchiveLaws(hash, CaseIndex(), _ => Some(CaseOrder()), encoding, language);
  }

  lemma FormatsAt(hash: Hash, encoding: Bytes, language: Bytes)
    ensures var e := CaseFormats(hash, encoding, language);
            && e.index == CaseIndex() && e.order([0]) == Some(CaseOrder()) && e.hash == hash
            && e.parse == ParseByte(hash, encoding, language) && e.dataURL(CaseFile()) == []
            && (forall r :: e.putRange(r) == PutRange(r)) && (forall m :: e.putEvidence(m) == PutEvidence(m))
            && (forall m :: e.putManifest(m) == PutArchiveManifest(m)) && (forall c :: e.putCapture(c) == PutCapture(c))
  {
  }

  lemma {:induction false} ArtifactSizes(artifacts: seq<Artifact>, k: nat)
    requires k >= 7 && forall a :: a in artifacts ==> |a.path| <= k && |a.digest| <= k && a.size < Pow10(7)
    ensures |ArchiveArtifacts(artifacts)| == 3 * |artifacts| && forall f :: f in ArchiveArtifacts(artifacts) ==> |f| <= k
  {
    if artifacts != [] {
      assert artifacts[0] in artifacts && forall a :: a in artifacts[1..] ==> a in artifacts;
      NumeralSize(artifacts[0].size, 7);
      ArtifactSizes(artifacts[1..], k);
    }
  }

  lemma RangeSize(r: RangeEvidence)
    requires forall f :: f in RangeFields(r) ==> |f| <= 1024
    ensures |PutRange(r)| <= MAX_METADATA
  {
    hide PutFields;
    FieldsSize(RangeFields(r), 1024);
  }

  predicate ShortCapture(c: CaptureEvidence) {
    && |c.format| <= 1024 && |c.workOrderID| <= 1024 && |c.workOrderDigest| <= 1024 && |c.originID| <= 1024
    && |c.evidenceClass| <= 1024 && |c.freshness| <= 1024 && |c.observedBy| <= 1024 && |c.collectionID| <= 1024
    && |c.captureTimestamp| <= 1024 && |c.targetURL| <= 1024 && |c.warcFile| <= 1024 && |c.rangeContentRange| <= 1024
    && |c.providerPayloadDigest| <= 1024 && |c.compressedRecordDigest| <= 1024 && |c.representationDigest| <= 1024
    && |c.mediaType| <= 1024 && |c.contentEncoding| <= 1024 && |c.contentLanguage| <= 1024
    && c.warcOffset < 1000 && c.warcLength < 1000 && c.rangeHTTPStatus < 1000 && c.representationSize < 1000
    && c.httpStatus < 1000
  }

  lemma CaptureSize(c: CaptureEvidence)
    requires ShortCapture(c)
    ensures |PutCapture(c)| <= MAX_METADATA
  {
    hide PutFields, Coerce, Numeral;
    CoerceShort(c.contentEncoding);
    CoerceShort(c.contentLanguage);
    assert Pow10(3) == 1000;
    hide Pow10;
    NumeralSize(c.warcOffset, 3);
    NumeralSize(c.warcLength, 3);
    NumeralSize(c.rangeHTTPStatus, 3);
    NumeralSize(c.representationSize, 3);
    NumeralSize(c.httpStatus, 3);
    FieldsSize(CaptureFields(Coerced(c)), 1024);
  }

  lemma EvidenceSize(m: EvidenceManifest)
    requires |m.format| <= 1024 && |m.workOrderID| <= 1024 && |m.workOrderDigest| <= 1024 && |m.artifacts| == 4
    requires forall a :: a in m.artifacts ==> |a.path| <= 1024 && |a.digest| <= 1024 && a.size < Pow10(7)
    ensures |PutEvidence(m)| <= MAX_METADATA
  {
    hide PutFields, ArchiveArtifacts;
    ArtifactSizes(m.artifacts, 1024);
    FieldsSize([m.format, m.workOrderID, m.workOrderDigest] + ArchiveArtifacts(m.artifacts), 1024);
  }

  lemma ManifestSize(m: CaptureManifest)
    requires |m.format| <= 1024 && |m.workOrderID| <= 1024 && |m.workOrderDigest| <= 1024 && |m.evidenceDigest| <= 1024
    requires |m.artifacts| == 7
    requires forall a :: a in m.artifacts ==> |a.path| <= 1024 && |a.digest| <= 1024 && a.size < Pow10(7)
    ensures |PutArchiveManifest(m)| <= MAX_METADATA
  {
    hide PutFields, ArchiveArtifacts;
    ArtifactSizes(m.artifacts, 1024);
    FieldsSize([m.format, m.workOrderID, m.workOrderDigest, m.evidenceDigest] + ArchiveArtifacts(m.artifacts), 1024);
  }

  // ----- the raw evidence ----------------------------------------------------

  lemma CaseConsistent(hash: Hash, encoding: Bytes, language: Bytes)
    ensures SelfConsistent(CaseFormats(hash, encoding, language), CaseInput(hash))
  {
    hide CaseOrder, CaseCapture, CaseSyntax, CaseRange, ValidOrder, ValidRange, DigestText, ArchiveFormats;
    FormatsAt(hash, encoding, language);
    CaseOrderValid();
    CaseRangeValid();
    CaseScope();
  }

  lemma CaseScope()
    ensures var w, c := CaseOrder(), CaseCapture();
            && c.collectionID in w.collectionIDs && c.requestedURL in w.permittedRoutes && c.length == 2
            && c.filename == CaseFile() && c.raw == [97]
            && w.maxCompressedRecordBytes == MAX_COMPRESSED && w.maxRetainedBodyBytes == MAX_RETAINED_BODY
            && |w.id| == 5 && ValidID(w.id) && |w.originID| == 6
  {
    hide CaseCollection, CaseRoute, CaseTime, CaseProvider, CaseFile, CaseDigest;
  }

  lemma CaseRangeFits(hash: Hash, encoding: Bytes, language: Bytes)
    ensures var e, i := CaseFormats(hash, encoding, language), CaseInput(hash);
            var r := RangeEvidenceOf(e, i);
            && ValidRangeEvidence(e, r, CaseCapture(), CaseBytes(), MAX_COMPRESSED) && |PutRange(r)| <= MAX_METADATA
            && e.range(PutRange(r)) == Some(r)
  {
    hide CaseOrder, CaseCapture, CaseIndex, CaseRange, ValidRange, ValidIdentity, DigestText, ArchiveFormats, PutRange, Lawful;
    hide RangeHeader, Numeral, ValidPlainText;
    var e, i := CaseFormats(hash, encoding, language), CaseInput(hash);
    FormatsAt(hash, encoding, language);
    CaseLawful(hash, encoding, language);
    CaseRangeValid();
    CaseIdentity();
    CasePlain();
    CaseScope();
    NumeralSize(206, 3);
    NumeralSize(2, 1);
    var r := RangeEvidenceOf(e, i);
    RangeSize(r);
    RangePlain(e, r, CaseCapture(), CaseBytes(), MAX_COMPRESSED);
  }

  lemma CaseEvidenceValid(hash: Hash, encoding: Bytes, language: Bytes)
    ensures var e := CaseFormats(hash, encoding, language);
            CaseInput(hash).capture.length == 2
            && var m := EvidenceManifestOf(e, CaseInput(hash), PutRange(RangeEvidenceOf(e, CaseInput(hash))));
            ValidEvidenceManifest(m) && |PutEvidence(m)| <= MAX_METADATA
  {
    hide *;
    CaseParts(hash, encoding, language);
    var e, i := CaseFormats(hash, encoding, language), CaseInput(hash);
    EvidenceValid(e, i, PutRange(RangeEvidenceOf(e, i)));
  }

  // What the case consists of.
  lemma CaseParts(hash: Hash, encoding: Bytes, language: Bytes)
    ensures var e, i := CaseFormats(hash, encoding, language), CaseInput(hash);
            && ValidID(i.loaded.order.id) && i.loaded.digest == DigestOf(e, i.loaded.data)
            && |i.capture.raw| == 1 && |i.compressed| == 2 && |i.loaded.data| == 1 && i.capture.length == 2
            && 0 < |PutRange(RangeEvidenceOf(e, i))| <= MAX_METADATA
  {
    hide ArchiveFormats, CaseOrder, CaseCapture, DigestText, PutRange, RangeEvidenceOf, ValidRangeEvidence;
    CaseScope();
    CaseRangeFits(hash, encoding, language);
    FormatsAt(hash, encoding, language);
    ArchiveNotEmpty();
  }

  lemma DigestSize(e: Formats, data: Bytes)
    ensures ValidDigest(DigestOf(e, data)) && |DigestOf(e, data)| == 71
  {
    DigestTextValid(e.hash(data));
  }

  predicate SmallArtifact(a: Artifact) {
    |a.path| <= 22 && |a.digest| == 71 && ValidDigest(a.digest) && 0 < a.size < Pow10(7)
  }

  lemma ArtifactSmall(e: Formats, path: Bytes, data: Bytes)
    requires |path| <= 22 && 0 < |data| < Pow10(7)
    ensures SmallArtifact(ArtifactFor(e, path, data))
  {
    hide Pow10, DigestOf, ValidDigest;
    DigestSize(e, data);
  }

  lemma EvidenceValid(e: Formats, i: Input, rangeBytes: Bytes)
    requires ValidID(i.loaded.order.id) && i.loaded.digest == DigestOf(e, i.loaded.data)
    requires 0 < |rangeBytes| <= MAX_METADATA && |i.capture.raw| == 1 && |i.compressed| == 2 && |i.loaded.data| == 1
    ensures var m := EvidenceManifestOf(e, i, rangeBytes); ValidEvidenceManifest(m) && |PutEvidence(m)| <= MAX_METADATA
  {
    hide OrderPath, IndexPath, RangePath, RecordPath, DigestOf, ValidDigest, PutEvidence, SmallArtifact;
    var m := EvidenceManifestOf(e, i, rangeBytes);
    PathSizes();
    assert Pow10(7) == 10_000_000 && |Ascii("tw.archive-evidence-manifest/0.1")| == 32;
    hide Pow10;
    DigestSize(e, i.loaded.data);
    ArtifactSmall(e, IndexPath(), i.capture.raw + [10]);
    ArtifactSmall(e, RangePath(), rangeBytes);
    ArtifactSmall(e, RecordPath(), i.compressed);
    ArtifactSmall(e, OrderPath(), i.loaded.data);
    AllSmall(m.artifacts);
    EvidenceSize(m);
  }

  lemma AllSmall(artifacts: seq<Artifact>)
    requires forall i :: 0 <= i < |artifacts| ==> SmallArtifact(artifacts[i])
    ensures forall a :: a in artifacts ==> |a.path| <= 1024 && |a.digest| <= 1024 && a.size < Pow10(7)
    ensures forall i :: 0 <= i < |artifacts| ==> ValidDigest(artifacts[i].digest) && artifacts[i].size > 0
  {
    hide ValidDigest, Pow10;
  }

  lemma PathSizes()
    ensures |OrderPath()| <= 22 && |IndexPath()| <= 22 && |RangePath()| <= 22 && |RecordPath()| <= 22
    ensures |EvidencePath()| <= 22 && |BodyPath()| <= 22 && |CapturePath()| <= 22
  {
  }

  /** The sealed bytes of the input say what the input says: the order decodes, its one index record
    * resolves to the capture, and the range evidence and the manifest read back. */
  ghost predicate SaysItself(e: Formats, i: Input) {
    && SelfConsistent(e, i) && i.capture.length > 0 && e.order(i.loaded.data) == Some(i.loaded.order)
    && ResolveAll(e, i.loaded.order, i.capture.raw + [10], Pairs(i.loaded.order.collectionIDs, i.loaded.order.permittedRoutes))
       == [i.capture]
    && var r := RangeEvidenceOf(e, i);
    && 0 < |e.putRange(r)| <= MAX_METADATA && e.range(e.putRange(r)) == Some(r)
    && ValidRangeEvidence(e, r, i.capture, i.compressed, i.loaded.order.maxCompressedRecordBytes)
    && var m := EvidenceManifestOf(e, i, e.putRange(r));
    && ValidEvidenceManifest(m) && 0 < |e.putEvidence(m)| <= MAX_METADATA && e.evidence(e.putEvidence(m)) == Some(m)
    && 0 < |i.loaded.data| <= MAX_WORK_ORDER && 0 < |i.compressed|
  }

  /** Such an input is read back from its sealed files as it is. */
  lemma SealedReadsBack(e: Formats, i: Input)
    requires SaysItself(e, i)
    ensures VerifyRaw(e, Place(SealedWrites(e, i)))
            == Some(Raw(i.loaded, i.capture, i.compressed, RangeEvidenceOf(e, i)))
  {
    hide EvidencePath, IndexPath, RangePath, RecordPath, OrderPath, RangeEvidenceOf, ValidRangeEvidence, ResolveAll, Pairs;
    hide EvidenceManifestOf, ValidEvidenceManifest, DigestOf, AllMatch, SelfConsistent, Place, SealedWrites, ValidOrder;
    var files := Place(SealedWrites(e, i));
    SealedFiles(e, i);
    PathsDistinct();
    ConsistentFacts(e, i);
    ManifestNames(e, i, e.putRange(RangeEvidenceOf(e, i)));
    RawArtifactsMatch(e, i, files);
  }

  lemma ManifestNames(e: Formats, i: Input, rangeBytes: Bytes)
    ensures var m := EvidenceManifestOf(e, i, rangeBytes);
            m.workOrderID == i.loaded.order.id && m.workOrderDigest == i.loaded.digest
  {
  }

  lemma ConsistentFacts(e: Formats, i: Input)
    requires SelfConsistent(e, i)
    ensures ValidOrder(e.index.order, i.loaded.order) && DigestOf(e, i.loaded.data) == i.loaded.digest
    ensures |i.compressed| == i.capture.length <= i.loaded.order.maxCompressedRecordBytes <= MAX_COMPRESSED
    ensures 0 < |i.capture.raw| <= MAX_INDEX_LINE
  {
    hide ValidOrder, ValidIdentity, RangePrefix, DigestOf;
  }

  lemma RawArtifactsMatch(e: Formats, i: Input, files: Files)
    requires SaysItself(e, i) && files == Place(SealedWrites(e, i))
    ensures AllMatch(e, files, EvidenceManifestOf(e, i, e.putRange(RangeEvidenceOf(e, i))).artifacts)
  {
    hide EvidencePath, IndexPath, RangePath, RecordPath, OrderPath, RangeEvidenceOf, ValidRangeEvidence, ResolveAll, Pairs;
    hide ValidEvidenceManifest, DigestOf, SelfConsistent, Place, SealedWrites, ValidOrder;
    SealedFiles(e, i);
    PathsDistinct();
    ConsistentFacts(e, i);
  }

  lemma CaseSaysItself(hash: Hash, encoding: Bytes, language: Bytes)
    ensures SaysItself(CaseFormats(hash, encoding, language), CaseInput(hash))
  {
    var e, i := CaseFormats(hash, encoding, language), CaseInput(hash);
    hide ArchiveFormats, CaseOrder, CaseCapture, CaseIndex, RangeEvidenceOf, EvidenceManifestOf, PutRange, PutEvidence, DigestOf;
    hide SelfConsistent, ValidRangeEvidence, ValidEvidenceManifest, ResolveAll, Pairs, DigestText, Lawful, ValidID;
    FormatsAt(hash, encoding, language);
    CaseConsistent(hash, encoding, language);
    CaseParts(hash, encoding, language);
    CaseRangeFits(hash, encoding, language);
    CaseEvidenceValid(hash, encoding, language);
    CaseLawful(hash, encoding, language);
    CaseResolvesAlone(e);
    CaseScope();
    ArchiveNotEmpty();
    assert i.capture.raw + [10] == [97, 10];
  }

  // ----- the derived files ---------------------------------------------------

  ghost function CaseRaw(hash: Hash, e: Formats): Raw {
    CaseScope();
    Raw(CaseInput(hash).loaded, CaseCapture(), CaseBytes(), RangeEvidenceOf(e, CaseInput(hash)))
  }

  function CaseRecord(hash: Hash, encoding: Bytes, language: Bytes): ParsedRecord {
    ParsedRecord(CaseRoute(), 200, [97], encoding, language, [97], DigestText(hash([97])), CaseProvider())
  }

  lemma CaseParses(hash: Hash, encoding: Bytes, language: Bytes)
    ensures var e := CaseFormats(hash, encoding, language);
            e.parse(CaseBytes(), CaseCapture(), CaseOrder()) == Some(CaseRecord(hash, encoding, language))
  {
    hide CaseRoute, CaseTime, CaseProvider, CaseFile, CaseCollection, DigestText, CaseOrder, CaseIndex;
  }

  lemma RangeIgnoresRaw(x: Index, c: Capture, contentRange: Bytes, n: nat, maximum: nat)
    requires ValidRange(x, c, 206, contentRange, n, maximum)
    ensures ValidRange(x, c.(raw := []), 206, contentRange, n, maximum)
  {
    hide CollectionID, ProviderDigest, ValidWARCPath, Numeral;
  }

  lemma CaseCaptureValid(hash: Hash, encoding: Bytes, language: Bytes)
    requires HeaderText(encoding) && HeaderText(language)
    ensures var e := CaseFormats(hash, encoding, language);
            var v := CaptureEvidenceOf(e, CaseRaw(hash, e), CaseRaw(hash, e).range, CaseRecord(hash, encoding, language));
            ValidCaptureEvidence(e, v, CaseOrder())
  {
    var e := CaseFormats(hash, encoding, language);
    hide ArchiveFormats, CaseRoute, CaseTime, CaseProvider, CaseFile, CaseCollection, CaseRange, DigestText, ValidOrder, ValidRange;
    hide ValidDigest, CollectionID, ProviderDigest, ValidWARCPath, ValidPlainText, HeaderText, RangeHeader, CaseDigest;
    FormatsAt(hash, encoding, language);
    CaseOrderValid();
    CaseTexts();
    CasePath();
    CasePlain();
    CaseRangeValid();
    RangeIgnoresRaw(CaseIndex(), CaseCapture(), CaseRange(), 2, MAX_COMPRESSED);
    DigestTextValid(hash([0]));
    DigestTextValid(hash(CaseBytes()));
    DigestTextValid(hash([97]));
  }

  lemma CoerceShort(v: Bytes)
    requires |v| <= 1024
    ensures |Coerce(v)| <= 1024
  {
    hide ValidUtf8;
  }

  lemma CaseCaptureFits(hash: Hash, encoding: Bytes, language: Bytes)
    requires HeaderText(encoding) && HeaderText(language)
    ensures var e := CaseFormats(hash, encoding, language);
            var v := CaptureEvidenceOf(e, CaseRaw(hash, e), CaseRaw(hash, e).range, CaseRecord(hash, encoding, language));
            0 < |PutCapture(v)| <= MAX_METADATA
  {
    var e := CaseFormats(hash, encoding, language);
    hide ArchiveFormats, CaseRoute, CaseTime, CaseProvider, CaseFile, CaseCollection, CaseRange, DigestText, PutCapture;
    hide RangeHeader, CaseDigest;
    CaseTexts();
    CasePlain();
    FixedSizes();
    ArchiveNotEmpty();
    CaptureSize(CaptureEvidenceOf(e, CaseRaw(hash, e), CaseRaw(hash, e).range, CaseRecord(hash, encoding, language)));
  }

  lemma FixedSizes()
    ensures |Ascii("tw.archive-capture-evidence/0.1")| <= 64 && |Ascii("archive_observation")| <= 64
    ensures |Ascii("historical")| <= 64 && |Ascii("common_crawl")| <= 64
  {
  }

  // The manifest of seven small files passes its own check and fits.
  lemma ManifestFits(e: Formats, raw: Raw, files: Files)
    requires ValidID(raw.loaded.order.id) && ValidDigest(raw.loaded.digest) && EvidencePath() in files
    requires forall i :: 0 <= i < 7 ==> SmallFile(files, FinalPaths()[i])
    ensures var m := CaptureManifestOf(e, raw, files);
            ValidCaptureManifest(m) && |PutArchiveManifest(m)| <= MAX_METADATA
  {
    hide EvidencePath, IndexPath, RangePath, RecordPath, OrderPath, BodyPath, CapturePath, DigestOf, PutArchiveManifest;
    hide SmallArtifact, Pow10, ValidDigest;
    var m := CaptureManifestOf(e, raw, files);
    PathSizes();
    DigestSize(e, files[EvidencePath()]);
    forall i | 0 <= i < 7 ensures SmallArtifact(m.artifacts[i]) && m.artifacts[i].path == FinalPaths()[i] {
      assert SmallFile(files, FinalPaths()[i]);
      ArtifactSmall(e, FinalPaths()[i], files[FinalPaths()[i]]);
    }
    AllSmall(m.artifacts);
    DigestLength(raw.loaded.digest);
    assert |Ascii("tw.archive-capture-manifest/0.1")| == 31;
    ManifestSize(m);
  }

  predicate SmallFile(files: Files, path: Bytes) {
    path in files && 0 < |files[path]| < Pow10(7)
  }

  lemma DigestLength(v: Bytes)
    ensures ValidDigest(v) ==> |v| == 71
  {
  }

  // Publication of an input that says what it says goes through if its record is parsed, its
  // evidence is valid, and the evidence and the final manifest fit.
  lemma DerivedGoesThrough(e: Formats, files: Files, raw: Raw, p: ParsedRecord)
    requires VerifyRaw(e, files) == Some(raw) && e.parse(raw.compressed, raw.capture, raw.loaded.order) == Some(p)
    requires 0 < |p.body| <= raw.loaded.order.maxRetainedBodyBytes && |p.body| < Pow10(7)
    requires var v := CaptureEvidenceOf(e, raw, raw.range, p);
             ValidCaptureEvidence(e, v, raw.loaded.order) && 0 < |e.putCapture(v)| <= MAX_METADATA
    requires ValidID(raw.loaded.order.id) && ValidDigest(raw.loaded.digest)
    requires forall m :: e.putManifest(m) == PutArchiveManifest(m)
    requires RawSmall(files)
    ensures DerivedPlan(e, files, raw.range).evidence == Some(CaptureEvidenceOf(e, raw, raw.range, p))
  {
    hide EvidencePath, IndexPath, RangePath, RecordPath, OrderPath, BodyPath, CapturePath, ManifestPath, PutArchiveManifest;
    hide VerifyRaw, ValidCaptureEvidence, ValidCaptureManifest, CaptureEvidenceOf, CaptureManifestOf, ValidDigest, Pow10;
    var v := CaptureEvidenceOf(e, raw, raw.range, p);
    var all := files[BodyPath() := p.body][CapturePath() := e.putCapture(v)];
    AllFinalSmall(files, p.body, e.putCapture(v));
    ManifestFits(e, raw, all);
  }

  predicate RawSmall(files: Files) {
    && SmallFile(files, OrderPath()) && SmallFile(files, IndexPath()) && SmallFile(files, RangePath())
    && SmallFile(files, RecordPath()) && SmallFile(files, EvidencePath())
  }

  lemma AllFinalSmall(files: Files, body: Bytes, capture: Bytes)
    requires RawSmall(files) && 0 < |body| < Pow10(7) && 0 < |capture| <= MAX_METADATA
    ensures var all := files[BodyPath() := body][CapturePath() := capture];
            EvidencePath() in all && forall i :: 0 <= i < 7 ==> SmallFile(all, FinalPaths()[i])
  {
    hide EvidencePath, IndexPath, RangePath, RecordPath, OrderPath, BodyPath, CapturePath, ManifestPath;
    assert Pow10(7) == 10_000_000;
    hide Pow10;
    PathsDistinct();
  }

  lemma SealedSmall(e: Formats, i: Input)
    requires SaysItself(e, i) && |i.compressed| < Pow10(7)
    ensures RawSmall(Place(SealedWrites(e, i)))
  {
    hide EvidencePath, IndexPath, RangePath, RecordPath, OrderPath, RangeEvidenceOf, ValidRangeEvidence, ResolveAll, Pairs;
    hide EvidenceManifestOf, ValidEvidenceManifest, SelfConsistent, Place, SealedWrites;
    SealedFiles(e, i);
    PathsDistinct();
    ConsistentFacts(e, i);
    assert Pow10(7) == 10_000_000;
  }

  // ----- publication and verification ----------------------------------------

  // The raw phase of an input that says what it says goes through, and leads to the derived phase.
  lemma RawGoesThrough(e: Formats, i: Input)
    requires SaysItself(e, i)
    ensures RawPlan(e, i).evidence == DerivedPlan(e, Place(SealedWrites(e, i)), RangeEvidenceOf(e, i)).evidence
  {
    hide RangeEvidenceOf, ValidRangeEvidence, ResolveAll, Pairs, EvidenceManifestOf, ValidEvidenceManifest, SelfConsistent;
    hide DerivedPlan, Place, RawWrites, EvidencePath;
    ConsistentFacts(e, i);
  }

  // The record that is parsed is that of the capture.
  lemma RecordParsed(e: Formats, i: Input)
    requires SaysItself(e, i)
    ensures InputRecord(e, i) == e.parse(i.compressed, i.capture, i.loaded.order)
  {
    hide RangeEvidenceOf, ValidRangeEvidence, ResolveAll, Pairs, EvidenceManifestOf, ValidEvidenceManifest, SelfConsistent;
  }

  /** The case is published under any two headers without line breaks, and the record has them. */
  lemma CasePublishes(hash: Hash, encoding: Bytes, language: Bytes)
    requires HeaderText(encoding) && HeaderText(language)
    ensures var e, i := CaseFormats(hash, encoding, language), CaseInput(hash);
            && Lawful(e) && RawPlan(e, i).evidence.Some?
            && InputRecord(e, i) == Some(CaseRecord(hash, encoding, language))
  {
    var e, i := CaseFormats(hash, encoding, language), CaseInput(hash);
    var p, raw := CaseRecord(hash, encoding, language), CaseRaw(hash, e);
    hide *;
    CaseLawful(hash, encoding, language);
    CaseSaysItself(hash, encoding, language);
    RawGoesThrough(e, i);
    RecordParsed(e, i);
    CaseParses(hash, encoding, language);
    CaseInputIs(hash, e);
    SealedReadsBack(e, i);
    SealedSmall(e, i);
    CaseCaptureValid(hash, encoding, language);
    CaseCaptureFits(hash, encoding, language);
    CaseRecordIs(hash, encoding, language);
    DerivedGoesThrough(e, Place(SealedWrites(e, i)), raw, p);
  }

  lemma CaseInputIs(hash: Hash, e: Formats)
    ensures var i, raw := CaseInput(hash), CaseRaw(hash, e);
            && i.loaded.order == CaseOrder() && i.capture == CaseCapture() && i.compressed == CaseBytes() && i.capture.length > 0
            && raw == Raw(i.loaded, i.capture, i.compressed, RangeEvidenceOf(e, i))
            && ValidID(raw.loaded.order.id) && ValidDigest(raw.loaded.digest)
            && raw.loaded.order.maxRetainedBodyBytes == MAX_RETAINED_BODY
            && |i.compressed| < Pow10(7)
  {
    hide DigestText, CaseCapture, CaseOrder, ValidDigest;
    CaseScope();
    DigestTextValid(hash([0]));
    assert Pow10(7) == 10_000_000;
  }

  lemma CaseRecordIs(hash: Hash, encoding: Bytes, language: Bytes)
    ensures var e, p := CaseFormats(hash, encoding, language), CaseRecord(hash, encoding, language);
            && 0 < |p.body| < Pow10(7) && |p.body| <= MAX_RETAINED_BODY
            && p.contentEncoding == encoding && p.contentLanguage == language
            && (forall m :: e.putManifest(m) == PutArchiveManifest(m))
            && (forall c :: e.putCapture(c) == PutCapture(c))
  {
    hide DigestText, CaseOrder, CaseIndex, CaseRoute, CaseProvider, PutArchiveManifest, PutCapture;
    assert Pow10(7) == 10_000_000;
  }

  /** The case is published in every case, and verifies exactly if both headers are UTF-8. */
  lemma CaseVerifies(hash: Hash, encoding: Bytes, language: Bytes)
    requires HeaderText(encoding) && HeaderText(language)
    ensures var e, plan := CaseFormats(hash, encoding, language), RawPlan(CaseFormats(hash, encoding, language), CaseInput(hash));
            && Lawful(e) && plan.evidence.Some?
            && Verified(e, Place(plan.writes)) == if ValidUtf8(encoding) && ValidUtf8(language) then plan.evidence else None
  {
    hide ArchiveFormats, CaseInput, RawPlan, InputRecord, Verified, Place, Lawful, ValidUtf8, HeaderText;
    CasePublishes(hash, encoding, language);
    CaseRecordIs(hash, encoding, language);
    PublishVerifies(CaseFormats(hash, encoding, language), CaseInput(hash));
  }

  /** A record whose Content-Language is the byte 0xff is published and does not verify. */
  lemma BadLanguageFails(hash: Hash)
    ensures var e, i := CaseFormats(hash, [], [0xff]), CaseInput(hash);
            && Lawful(e) && RawPlan(e, i).evidence.Some? && InputRecord(e, i) == Some(CaseRecord(hash, [], [0xff]))
            && Verified(e, Place(RawPlan(e, i).writes)) == None
  {
    hide ArchiveFormats, CaseInput, RawPlan, InputRecord, Verified, Place, Lawful, CaseRecord;
    assert !ValidUtf8([0xff]) && HeaderText([]) && HeaderText([0xff]);
    CasePublishes(hash, [], [0xff]);
    CaseRecordIs(hash, [], [0xff]);
    CaseVerifies(hash, [], [0xff]);
  }

  /** A record without either header is published and verifies. */
  lemma NoHeadersVerify(hash: Hash)
    ensures var e, i := CaseFormats(hash, [], []), CaseInput(hash);
            && Lawful(e) && RawPlan(e, i).evidence.Some?
            && Verified(e, Place(RawPlan(e, i).writes)) == RawPlan(e, i).evidence
  {
    hide ArchiveFormats, CaseInput, RawPlan, InputRecord, Verified, Place, Lawful;
    assert ValidUtf8([]) && HeaderText([]);
    CaseVerifies(hash, [], []);
  }
}
