/** Index responses and byte ranges of the archive importer (internal/archiveimport/index.go). */
module ArchiveIndex {
  // Index records come with their JSON decoded.

  import opened Wrappers
  import opened ByteStrings
  import opened Lexical
  import opened Spools
  import opened ArchiveOrders

  const MAX_INDEX_LINE: nat := 0x1_0000

  /** A decoded index line; a number that is not an unsigned 64-bit integer is None. */
  datatype IndexRecord = IndexRecord(
    url: Bytes, timestamp: Bytes, status: Option<nat>, mime: Bytes, digest: Bytes, filename: Bytes,
    offset: Option<nat>, length: Option<nat>)

  datatype Capture = Capture(
    collectionID: Bytes, requestedURL: Bytes, capturedURL: Bytes, timestamp: Bytes, status: nat, mediaType: Bytes,
    providerDigest: Bytes, filename: Bytes, offset: nat, length: nat, raw: Bytes)

  /** What index lines rely on besides the order syntaxes: which lines are blank, how a line
    * decodes (None when it is malformed or omits a field), and canonical target URLs. */
  datatype Index = Index(order: Syntax, blank: Bytes -> bool, record: Bytes -> Option<IndexRecord>, target: Bytes -> bool)

  // ----- byte ranges ---------------------------------------------------------

  /** The last byte of a capture. */
  function LastByte(c: Capture): int {
    c.offset + c.length - 1
  }

  function RangeHeader(c: Capture): Bytes
    requires c.length > 0
  {
    Ascii("bytes=") + Numeral(c.offset) + [45] + Numeral(LastByte(c))
  }

  function RangePrefix(c: Capture): Bytes
    requires c.length > 0
  {
    Ascii("bytes ") + Numeral(c.offset) + [45] + Numeral(LastByte(c)) + [47]
  }

  predicate ValidIdentity(x: Index, c: Capture) {
    && CollectionID(c.collectionID) && c.requestedURL != [] && c.capturedURL == c.requestedURL && c.status == 200
    && c.mediaType != [] && ProviderDigest(c.providerDigest) && ValidWARCPath(c.filename, c.collectionID)
    && 0 < c.length <= MAX_COMPRESSED && LastByte(c) <= MAX_UINT64
    && x.target(c.requestedURL) && x.order.timestamp(c.timestamp)
  }

  /** The response to a range request: the exact bytes of the capture, out of a known larger total. */
  predicate ValidRange(x: Index, c: Capture, status: int, contentRange: Bytes, bodyLength: nat, maximum: nat) {
    && ValidIdentity(x, c) && 0 < maximum <= MAX_COMPRESSED && c.length <= maximum
    && status == 206 && bodyLength == c.length
    && HasPrefix(contentRange, RangePrefix(c))
    && var total := contentRange[|RangePrefix(c)|..];
    total != [] && AllDigits(total) && LastByte(c) < Decimal(total) <= MAX_UINT64
  }

  // Digits end where another byte stands.
  lemma DigitsEnd(a: Bytes, b: Bytes, x: Bytes, y: Bytes, mark: byte)
    requires AllDigits(a) && AllDigits(x) && !IsDigit(mark) && a + [mark] + b == x + [mark] + y
    ensures a == x && b == y
  {
    DigitsReach(a, b, x, y, mark);
    DigitsReach(x, y, a, b, mark);
    assert (a + [mark] + b)[..|a|] == a && (x + [mark] + y)[..|x|] == x;
    assert (a + [mark] + b)[|a| + 1..] == b && (x + [mark] + y)[|x| + 1..] == y;
  }

  lemma DigitsReach(a: Bytes, b: Bytes, x: Bytes, y: Bytes, mark: byte)
    requires AllDigits(x) && !IsDigit(mark) && a + [mark] + b == x + [mark] + y
    ensures |a| >= |x|
  {
    assert forall k :: 0 <= k < |x| ==> (x + [mark] + y)[k] == x[k];
    assert (a + [mark] + b)[|a|] == mark;
  }

  /** The requested range is the bytes of the capture: however it is read as two numbers, the first is
    * the offset, and the bytes from the first to the second, both included, are as many as the
    * capture has. */
  lemma RangeCovers(c: Capture, from: Bytes, to: Bytes)
    requires c.length > 0
    requires AllDigits(from) && AllDigits(to) && RangeHeader(c) == Ascii("bytes=") + from + [45] + to
    ensures Decimal(from) == c.offset && Decimal(to) - Decimal(from) + 1 == c.length
  {
    hide Numeral, Decimal;
    var header, a, b := RangeHeader(c), Numeral(c.offset), Numeral(LastByte(c));
    assert header[6..] == a + [45] + b && header[6..] == from + [45] + to;
    DigitsEnd(a, b, from, to, 45);
  }

  /** It can be read so. */
  lemma RangeReads(c: Capture)
    requires c.length > 0
    ensures exists from, to :: AllDigits(from) && AllDigits(to) && RangeHeader(c) == Ascii("bytes=") + from + [45] + to
  {
    hide Decimal;
    assert AllDigits(Numeral(c.offset)) && AllDigits(Numeral(LastByte(c)));
  }

  /** The Content-Range of a whole capture out of a total: its first and last byte. */
  function ContentRange(offset: nat, length: nat, total: Bytes): Bytes
    requires length > 0
  {
    Ascii("bytes ") + Numeral(offset) + Ascii("-") + Numeral(offset + length - 1) + Ascii("/") + total
  }

  /** A response is accepted exactly when it is the partial one, with as many bytes as the capture,
    * and names the first and the last byte of the capture in a total that goes beyond them. */
  lemma RangeExactly(x: Index, c: Capture, status: int, contentRange: Bytes, bodyLength: nat, maximum: nat)
    ensures ValidRange(x, c, status, contentRange, bodyLength, maximum) <==>
              && ValidIdentity(x, c) && c.length <= maximum <= MAX_COMPRESSED && status == 206 && bodyLength == c.length > 0
              && exists total :: contentRange == ContentRange(c.offset, c.length, total) && total != [] && AllDigits(total)
                   && c.offset + c.length <= Decimal(total) <= MAX_UINT64
  {
    hide Numeral, Decimal, ValidWARCPath, CollectionID, ProviderDigest;
    if c.length > 0 {
      var prefix := RangePrefix(c);
      assert Ascii("-") == [45] && Ascii("/") == [47];
      assert forall total :: ContentRange(c.offset, c.length, total) == prefix + total;
      assert HasPrefix(contentRange, prefix) ==> contentRange == prefix + contentRange[|prefix|..];
      forall total | contentRange == prefix + total ensures HasPrefix(contentRange, prefix) && contentRange[|prefix|..] == total {
      }
    }
  }

  // ----- index lines ---------------------------------------------------------

  predicate Field(v: Bytes) {
    v != [] && |v| <= 8192 && 0 !in v
  }

  /** One index line, for a collection and a route. */
  function ParseIndexLine(x: Index, line: Bytes, collectionID: Bytes, route: Bytes): (c: Option<Capture>)
    ensures c.Some? ==> c.value.collectionID == collectionID && c.value.requestedURL == route && c.value.raw == line
    ensures c.Some? ==> ValidIdentity(x, c.value) && ValidPlainText(c.value.filename, 4096)
  {
    var decoded := x.record(line);
    if decoded.None? then None
    else
      var r := decoded.value;
      if !Field(r.url) || r.url != route || !Field(r.timestamp) || !x.order.timestamp(r.timestamp)
         || r.status != Some(200) || !Field(r.mime) || !ValidPlainText(r.mime, 255)
         || !Field(r.digest) || !ProviderDigest(r.digest)
         || !Field(r.filename) || !ValidPlainText(r.filename, 4096) || !ValidWARCPath(r.filename, collectionID)
         || r.offset.None? || r.offset.value > MAX_UINT64 || r.length.None?
         || !(0 < r.length.value <= MAX_COMPRESSED) || r.offset.value + r.length.value - 1 > MAX_UINT64
      then None
      else
        var c := Capture(collectionID, route, r.url, r.timestamp, 200, r.mime, r.digest, r.filename,
                         r.offset.value, r.length.value, line);
        if ValidIdentity(x, c) then Some(c) else None
  }

  predicate Matches(s: Selection, c: Capture) {
    && s.collectionID == c.collectionID && s.route == c.requestedURL && s.timestamp == c.timestamp
    && s.providerDigest == c.providerDigest && s.filename == c.filename && s.offset == c.offset && s.length == c.length
  }

  // ----- index responses -----------------------------------------------------

  /** The lines between newlines. */
  function Lines(data: Bytes): seq<Bytes> {
    Split(data, 10)
  }

  function Filled(x: Index, lines: seq<Bytes>): seq<Bytes> {
    if lines == [] then []
    else
      var last := lines[|lines| - 1];
      Filled(x, lines[..|lines| - 1]) + if x.blank(last) then [] else [last]
  }

  // A line that confirms the selection.
  function Confirms(x: Index, w: WorkOrder, s: Selection, line: Bytes, collectionID: Bytes, route: Bytes): Option<Capture> {
    var c := ParseIndexLine(x, line, collectionID, route);
    if |line| <= MAX_INDEX_LINE && c.Some? && c.value.length <= w.maxCompressedRecordBytes && Matches(s, c.value)
    then c else None
  }

  /** What an index response resolves to: the one filled line that confirms the selection. */
  function Resolve(x: Index, w: WorkOrder, data: Bytes, collectionID: Bytes, route: Bytes): Option<Capture> {
    var selection := Selected(w, collectionID, route);
    var filled := Filled(x, Lines(data));
    if !ValidOrder(x.order, w) || collectionID !in w.collectionIDs || route !in w.permittedRoutes
       || |data| == 0 || |data| > w.maxIndexResponseBytes || selection.None? || |filled| != 1 then None
    else Confirms(x, w, selection.value, filled[0], collectionID, route)
  }

  /** What makes two captures the same record. */
  datatype Identity = Identity(filename: Bytes, offset: nat, length: nat)

  function IdentityOf(c: Capture): Identity {
    Identity(c.filename, c.offset, c.length)
  }

  /** The loop over the lines, with its tables of identities and provider digests. Every capture
    * that confirms one selection has the same identity, so a second one is a duplicate. */
  method ScanLines(x: Index, w: WorkOrder, s: Selection, lines: seq<Bytes>, collectionID: Bytes, route: Bytes)
    returns (captures: Option<seq<Capture>>)
    requires w.capturesPerCollection == 1
    ensures captures == (if |Filled(x, lines)| != 1 then None
                         else Alone(Confirms(x, w, s, Filled(x, lines)[0], collectionID, route)))
  {
    hide ParseIndexLine, Filled, Matches;
    NoneFilled(x, lines);
    var found: seq<Capture> := [];
    var identities: set<Identity> := {};
    var digests: set<(Bytes, Identity)> := {};
    for n := 0 to |lines|
      invariant |found| <= 1 && |Filled(x, lines[..n])| == |found|
      invariant found != [] ==> Confirms(x, w, s, Filled(x, lines[..n])[0], collectionID, route) == Some(found[0])
      invariant found == [] ==> identities == {} && digests == {}
      invariant found != [] ==> identities == {IdentityOf(found[0])}
      invariant found != [] ==> forall d :: d in digests ==> d.1 == IdentityOf(found[0])
    {
      var line := lines[n];
      FilledNext(x, lines, n);
      if x.blank(line) {
        continue;
      }
      if |line| > MAX_INDEX_LINE {
        return None;
      }
      var parsed := ParseIndexLine(x, line, collectionID, route);
      if parsed.None? || parsed.value.length > w.maxCompressedRecordBytes || !Matches(s, parsed.value) {
        return None;
      }
      var c := parsed.value;
      var identity := IdentityOf(c);
      if found != [] {
        SameIdentity(s, found[0], c);
      }
      if identity in identities || exists d :: d in digests && d.0 == c.providerDigest && d.1 != identity {
        return None;
      }
      identities := identities + {identity};
      digests := digests + {(c.providerDigest, identity)};
      found := found + [c];
    }
    assert lines[..|lines|] == lines;
    if |found| == 0 || |found| > w.capturesPerCollection {
      return None;
    }
    assert found == [found[0]];
    captures := Some(found);
  }

  lemma SameIdentity(s: Selection, a: Capture, b: Capture)
    requires Matches(s, a) && Matches(s, b)
    ensures IdentityOf(a) == IdentityOf(b)
  {
  }

  function Alone(c: Option<Capture>): Option<seq<Capture>> {
    if c.Some? then Some([c.value]) else None
  }

  method ParseIndexResponse(x: Index, w: WorkOrder, data: Bytes, collectionID: Bytes, route: Bytes)
    returns (captures: Option<seq<Capture>>)
    ensures captures == Alone(Resolve(x, w, data, collectionID, route))
  {
    hide ValidScope, ValidAuthority, Selected, Lines, Filled, Confirms;
    var valid := ValidateOrder(x.order, w);
    if !valid {
      return None;
    }
    ScopeFacts(x.order, w);
    hide ValidOrder;
    var collectionOK := Contains(w.collectionIDs, collectionID);
    var routeOK := Contains(w.permittedRoutes, route);
    if !collectionOK || !routeOK || |data| == 0 || |data| > w.maxIndexResponseBytes || |data| > MAX_INDEX_RESPONSE {
      return None;
    }
    var lines := Lines(data);
    var selection := SelectedCapture(w, collectionID, route);
    if selection.None? {
      return None;
    }
    captures := ScanLines(x, w, selection.value, lines, collectionID, route);
  }

  lemma ScopeFacts(x: Syntax, w: WorkOrder)
    requires ValidOrder(x, w)
    ensures StrictlySorted(w.collectionIDs) && StrictlySorted(w.permittedRoutes)
    ensures StrictlySorted(Keys(w.selectedCaptures)) && w.capturesPerCollection == 1
    ensures w.maxIndexResponseBytes <= MAX_INDEX_RESPONSE
  {
  }

  // Filled lines are only ever added to: after a filled line the whole response has at least as
  // many, and if it has exactly one, it is that line.
  lemma {:induction false} FilledGrows(x: Index, lines: seq<Bytes>, n: nat)
    requires n <= |lines|
    ensures |Filled(x, lines[..n])| <= |Filled(x, lines)|
    ensures Filled(x, lines)[..|Filled(x, lines[..n])|] == Filled(x, lines[..n])
    decreases |lines| - n
  {
    if n == |lines| {
      assert lines[..n] == lines;
    } else {
      FilledGrows(x, lines, n + 1);
      assert lines[..n + 1][..n] == lines[..n];
    }
  }

  lemma FilledNext(x: Index, lines: seq<Bytes>, n: nat)
    requires n < |lines|
    ensures Filled(x, lines[..n + 1]) == if x.blank(lines[n]) then Filled(x, lines[..n]) else Filled(x, lines[..n]) + [lines[n]]
    ensures !x.blank(lines[n]) && |Filled(x, lines)| == 1 ==> |Filled(x, lines[..n])| == 0 && Filled(x, lines)[0] == lines[n]
  {
    assert lines[..n + 1][..n] == lines[..n];
    FilledGrows(x, lines, n + 1);
  }

  lemma NoneFilled(x: Index, lines: seq<Bytes>)
    ensures Filled(x, lines[..0]) == []
  {
  }

  // ----- one collection and one route ----------------------------------------

  lemma WARCPathDeterminesCollection(v: Bytes, a: Bytes, b: Bytes)
    requires CollectionID(a) && CollectionID(b) && ValidWARCPath(v, a) && ValidWARCPath(v, b)
    ensures a == b
  {
    assert |WARCRoot(a)| == 27 && |WARCRoot(b)| == 27;
    assert WARCRoot(a)[11..26] == a && WARCRoot(b)[11..26] == b;
  }

  /** An index response resolves under at most one collection and one route of any order. */
  lemma ResolvesOnce(x: Index, w: WorkOrder, data: Bytes, c1: Bytes, r1: Bytes, c2: Bytes, r2: Bytes)
    requires Resolve(x, w, data, c1, r1).Some? && Resolve(x, w, data, c2, r2).Some?
    ensures c1 == c2 && r1 == r2
  {
    hide ValidOrder, ValidWARCPath, Lines, Filled, Selected;
    var line := Filled(x, Lines(data))[0];
    WARCPathDeterminesCollection(x.record(line).value.filename, c1, c2);
  }
}
