/** What an index response resolves to, said of its lines and of the order that selected it. */
module ArchiveMeaning {
  import opened Wrappers
  import opened ByteStrings
  import opened Lexical
  import opened Spools
  import opened ArchiveOrders
  import opened ArchiveIndex

  // ----- lines ---------------------------------------------------------------

  function Join(parts: seq<Bytes>, separator: byte): Bytes {
    if parts == [] then [] else if |parts| == 1 then parts[0] else parts[0] + [separator] + Join(parts[1..], separator)
  }

  /** Splitting cuts at every separator and loses nothing else. */
  lemma {:induction false} SplitExactly(s: Bytes, separator: byte)
    ensures Join(Split(s, separator), separator) == s
    ensures forall p :: p in Split(s, separator) ==> separator !in p
  {
    if s != [] {
      var parts, rest := Split(s, separator), Split(s[1..], separator);
      SplitExactly(s[1..], separator);
      assert s == [s[0]] + s[1..];
      if s[0] == separator {
        assert parts == [[]] + rest && parts[1..] == rest;
        assert [] + [separator] + Join(rest, separator) == s;
      } else {
        assert parts == [[s[0]] + rest[0]] + rest[1..] && parts[1..] == rest[1..];
        assert rest[0] in rest;
        forall p | p in parts ensures separator !in p {
          assert p == [s[0]] + rest[0] || p in rest;
        }
      }
    }
  }

  /** The one line of a response that is not blank. */
  ghost predicate OnlyLine(x: Index, data: Bytes, line: Bytes) {
    exists n: nat :: IsOnly(x, Lines(data), n) && Lines(data)[n] == line
  }

  predicate IsOnly(x: Index, lines: seq<Bytes>, n: nat) {
    n < |lines| && forall i :: 0 <= i < |lines| ==> (x.blank(lines[i]) <==> i != n)
  }

  lemma {:induction false} NoneFilledIsBlank(x: Index, lines: seq<Bytes>)
    ensures Filled(x, lines) == [] <==> forall i :: 0 <= i < |lines| ==> x.blank(lines[i])
  {
    if lines != [] {
      var n := |lines| - 1;
      NoneFilledIsBlank(x, lines[..n]);
      assert forall i :: 0 <= i < n ==> lines[..n][i] == lines[i];
    }
  }

  lemma {:induction false} OnlyIsFilled(x: Index, lines: seq<Bytes>, n: nat)
    requires IsOnly(x, lines, n)
    ensures Filled(x, lines) == [lines[n]]
  {
    var last := |lines| - 1;
    var init := lines[..last];
    assert forall i :: 0 <= i < last ==> init[i] == lines[i];
    if n == last {
      NoneFilledIsBlank(x, init);
    } else {
      OnlyIsFilled(x, init, n);
    }
  }

  lemma {:induction false} FilledIsOnly(x: Index, lines: seq<Bytes>) returns (n: nat)
    requires |Filled(x, lines)| == 1
    ensures IsOnly(x, lines, n) && Filled(x, lines) == [lines[n]]
  {
    var last := |lines| - 1;
    var init := lines[..last];
    assert forall i :: 0 <= i < last ==> init[i] == lines[i];
    if x.blank(lines[last]) {
      n := FilledIsOnly(x, init);
    } else {
      n := last;
      NoneFilledIsBlank(x, init);
    }
  }

  // ----- captures ------------------------------------------------------------

  /** A text of the record: not empty, bounded, and without a zero byte. */
  predicate Given(v: Bytes) {
    0 < |v| <= 8192 && 0 !in v
  }

  /** The line, decoded, is the record of the capture under the collection and the route. */
  predicate Records(x: Index, line: Bytes, c: Capture, collectionID: Bytes, route: Bytes) {
    && x.record(line) == Some(IndexRecord(route, c.timestamp, Some(200), c.mediaType, c.providerDigest, c.filename,
                                          Some(c.offset), Some(c.length)))
    && (c.collectionID, c.requestedURL, c.capturedURL, c.status, c.raw) == (collectionID, route, route, 200, line)
    && Given(route) && Given(c.timestamp) && Given(c.mediaType) && Given(c.providerDigest) && Given(c.filename)
    && ValidPlainText(c.mediaType, 255) && ValidPlainText(c.filename, 4096) && ProviderDigest(c.providerDigest)
    && CollectionID(collectionID) && ValidWARCPath(c.filename, collectionID) && x.target(route)
    && x.order.timestamp(c.timestamp) && 0 < c.length <= MAX_COMPRESSED && c.offset + c.length <= MAX_UINT64 + 1
  }

  lemma LineExactly(x: Index, line: Bytes, collectionID: Bytes, route: Bytes, c: Capture)
    ensures ParseIndexLine(x, line, collectionID, route) == Some(c) <==>
              Records(x, line, c, collectionID, route)
  {
    hide ValidPlainText, ProviderDigest, ValidWARCPath, CollectionID;
  }

  /** The capture is the one that the order selected for its collection and route. */
  predicate SelectedBy(w: WorkOrder, c: Capture) {
    Selection(c.collectionID, c.requestedURL, c.timestamp, c.providerDigest, c.filename, c.offset, c.length)
    in w.selectedCaptures
  }

  lemma ConfirmsExactly(x: Index, w: WorkOrder, line: Bytes, collectionID: Bytes, route: Bytes, c: Capture)
    requires ValidOrder(x.order, w) && collectionID in w.collectionIDs && route in w.permittedRoutes
    ensures Selected(w, collectionID, route).Some?
    ensures Confirms(x, w, Selected(w, collectionID, route).value, line, collectionID, route) == Some(c) <==>
              && |line| <= MAX_INDEX_LINE && c.length <= w.maxCompressedRecordBytes
              && Records(x, line, c, collectionID, route) && SelectedBy(w, c)
  {
    hide Selected, ValidScope, ParseIndexLine, ValidSelection, ValidBudgets, ValidAuthority;
    SelectedExactly(x.order, w, collectionID, route);
    LineExactly(x, line, collectionID, route, c);
    hide ValidPlainText, ProviderDigest, ValidWARCPath, CollectionID, Given, ValidOrder;
  }

  /** A response resolves to a capture exactly when, under a valid order that permits the collection
    * and the route, its only line that is not blank records that capture, the order selected it, and
    * line, response and record are within their bounds. */
  lemma ResolvedExactly(x: Index, w: WorkOrder, data: Bytes, collectionID: Bytes, route: Bytes, c: Capture)
    ensures Resolve(x, w, data, collectionID, route) == Some(c) <==>
              && ValidOrder(x.order, w) && collectionID in w.collectionIDs && route in w.permittedRoutes
              && 0 < |data| <= w.maxIndexResponseBytes && c.length <= w.maxCompressedRecordBytes
              && exists line :: OnlyLine(x, data, line) && |line| <= MAX_INDEX_LINE
                   && Records(x, line, c, collectionID, route) && SelectedBy(w, c)
  {
    hide ValidOrder, Selected, Lines, Filled, Confirms, Records, IsOnly, SelectedBy;
    forall n: nat | IsOnly(x, Lines(data), n) ensures n < |Lines(data)| && Filled(x, Lines(data)) == [Lines(data)[n]] {
      OnlyInside(x, Lines(data), n);
      OnlyIsFilled(x, Lines(data), n);
    }
    if ValidOrder(x.order, w) && collectionID in w.collectionIDs && route in w.permittedRoutes
       && |Filled(x, Lines(data))| == 1
    {
      var n := FilledIsOnly(x, Lines(data));
      assert OnlyLine(x, data, Lines(data)[n]);
      ConfirmsExactly(x, w, Lines(data)[n], collectionID, route, c);
    }
  }

  lemma OnlyInside(x: Index, lines: seq<Bytes>, n: nat)
    requires IsOnly(x, lines, n)
    ensures n < |lines|
  {
  }
}
