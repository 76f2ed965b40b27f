/** Sealed archive work orders (internal/archiveimport/workorder.go). */
module ArchiveOrders {
  // The selected captures are a bijection with collections times routes, looked up by binary
  // search. URL, time and approval-reference syntax are parameters.

  import opened Wrappers
  import opened ByteStrings
  import opened Lexical
  import opened Spools

  const MAX_WORK_ORDER: nat := 0x1_0000
  const MAX_PERIODS: nat := 2
  const MAX_ROUTES: nat := 6
  const MAX_CAPTURES: nat := 3
  const MAX_INDEX_REQUESTS: nat := 4
  const MAX_INDEX_RESPONSE: nat := 0x4_0000
  const MAX_COMPRESSED: nat := 0x20_0000
  const MAX_DECOMPRESSED: nat := 0x80_0000
  const MAX_RETAINED_BODY: nat := 0x50_0000
  const MAX_UINT64: nat := 0xffff_ffff_ffff_ffff

  datatype Selection = Selection(
    collectionID: Bytes, route: Bytes, timestamp: Bytes, providerDigest: Bytes, filename: Bytes, offset: nat, length: nat)

  datatype WorkOrder = WorkOrder(
    format: Bytes, id: Bytes, originID: Bytes, canonicalOrigin: Bytes, permittedRoutes: seq<Bytes>,
    collectionIDs: seq<Bytes>, selectedCaptures: seq<Selection>, capturesPerCollection: nat, indexRequestBudget: nat,
    maxIndexResponseBytes: nat, maxCompressedRecordBytes: nat, maxDecompressedRecordBytes: nat,
    maxRetainedBodyBytes: nat, policyReviewState: Bytes, policyDecision: Bytes, policyEvidenceDigest: Bytes,
    decisionDigest: Bytes, approvalReference: Bytes, approvedBy: Bytes, approvedAt: Bytes, evidenceClass: Bytes,
    freshness: Bytes, currentPublisherStatement: bool, observedBy: Bytes)

  /** The syntaxes that work orders rely on: a canonical origin, a canonical route on an origin,
    * a 14-digit timestamp, an approval time and an approval reference. */
  datatype Syntax = Syntax(
    origin: Bytes -> bool, route: (Bytes, Bytes) -> bool, timestamp: Bytes -> bool, approvedAt: Bytes -> bool,
    approvalReference: Bytes -> bool)

  // ----- lexical forms -------------------------------------------------------

  /** `^CC-MAIN-[0-9]{4}-[0-9]{2}$`. */
  predicate CollectionID(v: Bytes) {
    |v| == 15 && v[..8] == Ascii("CC-MAIN-") && AllDigits(v[8..12]) && v[12] == 45 && AllDigits(v[13..])
  }

  predicate Base32(b: byte) {
    65 <= b <= 90 || 50 <= b <= 55
  }

  /** `^(?:sha1:)?[A-Z2-7]{32}$`. */
  predicate ProviderDigest(v: Bytes) {
    var rest := if HasPrefix(v, Ascii("sha1:")) then v[5..] else v;
    |rest| == 32 && forall i :: 0 <= i < 32 ==> Base32(rest[i])
  }

  predicate HasSuffix(v: Bytes, suffix: Bytes) {
    |suffix| <= |v| && v[|v| - |suffix|..] == suffix
  }

  function WARCRoot(collectionID: Bytes): Bytes {
    Ascii("crawl-data/") + collectionID + [47]
  }

  /** A cleaned relative path below the collection's own directory. */
  predicate ValidWARCPath(v: Bytes, collectionID: Bytes) {
    && |v| <= 4096 && SafeRelativePath(v) && (forall i :: 0 < i < |v| ==> !(v[i - 1] == 46 && v[i] == 46))
    && HasSuffix(v, Ascii(".warc.gz")) && HasPrefix(v, WARCRoot(collectionID))
  }

  predicate ValidPlainText(v: Bytes, maximum: nat) {
    v != [] && |v| <= maximum && ValidUtf8(v) && forall i :: 0 <= i < |v| ==> v[i] >= 32 && v[i] != 127
  }

  predicate SortedUniqueTexts(values: seq<Bytes>) {
    StrictlySorted(values) && forall v :: v in values ==> v != [] && 0 !in v
  }

  // ----- binary search -------------------------------------------------------

  /** Where a key belongs in a sorted list: how many leading elements are smaller. */
  function Position(keys: seq<Bytes>, key: Bytes): (n: nat)
    ensures n <= |keys|
    ensures forall i :: 0 <= i < n ==> Less(keys[i], key)
    ensures n < |keys| ==> !Less(keys[n], key)
  {
    if keys == [] || !Less(keys[0], key) then 0 else 1 + Position(keys[1..], key)
  }

  /** `sort.Search` for the first element that is not smaller than the key. */
  method Search(keys: seq<Bytes>, key: Bytes) returns (n: nat)
    requires StrictlySorted(keys)
    ensures n == Position(keys, key)
  {
    var i, j := 0, |keys|;
    while i < j
      invariant 0 <= i <= j <= |keys|
      invariant forall k :: 0 <= k < i ==> Less(keys[k], key)
      invariant j < |keys| ==> !Less(keys[j], key)
    {
      var h := (i + j) / 2;
      if Less(keys[h], key) {
        forall k | 0 <= k < h ensures Less(keys[k], key) {
          SortedApart(keys, k, h);
          LessTransitive(keys[k], keys[h], key);
        }
        i := h + 1;
      } else {
        j := h;
      }
    }
    n := i;
    PositionUnique(keys, key, n);
  }

  lemma {:induction false} PositionUnique(keys: seq<Bytes>, key: Bytes, n: nat)
    requires n <= |keys| && (forall i :: 0 <= i < n ==> Less(keys[i], key)) && (n < |keys| ==> !Less(keys[n], key))
    ensures n == Position(keys, key)
  {
    hide Less;
    if n > 0 {
      assert Less(keys[0], key);
      PositionUnique(keys[1..], key, n - 1);
    }
  }

  /** In a sorted list a key is present exactly at its position. */
  lemma PositionFinds(keys: seq<Bytes>, key: Bytes)
    requires StrictlySorted(keys)
    ensures var n := Position(keys, key); (n < |keys| && keys[n] == key) <==> key in keys
  {
    if key in keys {
      var i :| 0 <= i < |keys| && keys[i] == key;
      forall k | 0 <= k < i ensures Less(keys[k], key) {
        SortedApart(keys, k, i);
      }
      LessIrreflexive(key);
      PositionUnique(keys, key, i);
    }
  }

  method Contains(values: seq<Bytes>, target: Bytes) returns (found: bool)
    requires StrictlySorted(values)
    ensures found <==> target in values
  {
    var n := Search(values, target);
    PositionFinds(values, target);
    found := n < |values| && values[n] == target;
  }

  // ----- selections ----------------------------------------------------------

  function PairKey(collectionID: Bytes, route: Bytes): Bytes {
    collectionID + [0] + route
  }

  function Key(s: Selection): Bytes {
    PairKey(s.collectionID, s.route)
  }

  function Keys(selections: seq<Selection>): (keys: seq<Bytes>)
    ensures |keys| == |selections| && forall i :: 0 <= i < |keys| ==> keys[i] == Key(selections[i])
  {
    seq(|selections|, i requires 0 <= i < |selections| => Key(selections[i]))
  }

  predicate ValidSelection(x: Syntax, s: Selection) {
    && CollectionID(s.collectionID) && s.route != [] && x.timestamp(s.timestamp) && ProviderDigest(s.providerDigest)
    && ValidWARCPath(s.filename, s.collectionID)
    && 0 < s.length <= MAX_COMPRESSED && s.offset + (s.length - 1) <= MAX_UINT64
  }

  // A selection inside the reviewed scope.
  predicate InScope(x: Syntax, w: WorkOrder, s: Selection) {
    s.collectionID in w.collectionIDs && s.route in w.permittedRoutes && ValidSelection(x, s)
  }

  predicate ValidSelections(x: Syntax, w: WorkOrder) {
    StrictlySorted(Keys(w.selectedCaptures)) && forall s :: s in w.selectedCaptures ==> InScope(x, w, s)
  }

  function KeySet(keys: seq<Bytes>): set<Bytes> {
    set k | k in keys
  }

  /** The single pass over the selections, with the previous key and the keys seen. */
  method ValidateSelections(x: Syntax, w: WorkOrder) returns (ok: bool)
    requires StrictlySorted(w.collectionIDs) && StrictlySorted(w.permittedRoutes)
    ensures ok <==> ValidSelections(x, w)
  {
    hide Less, ValidSelection, PairKey, KeySet;
    var previous: Bytes := [];
    var seen: set<Bytes> := {};
    var selections := w.selectedCaptures;
    ghost var keys := Keys(selections);
    NoKeys(keys);
    for n := 0 to |selections|
      invariant previous == if n == 0 then [] else keys[n - 1]
      invariant StrictlySorted(keys[..n])
      invariant seen == KeySet(keys[..n])
      invariant forall i :: 0 <= i < n ==> InScope(x, w, selections[i])
    {
      var s := selections[n];
      var key := Key(s);
      KeyAfterNothing(s);
      assert keys[n] == key && s in selections;
      var collection := Contains(w.collectionIDs, s.collectionID);
      var route := Contains(w.permittedRoutes, s.route);
      if !Less(previous, key) || !collection || !route || !ValidSelection(x, s) {
        return false;
      }
      NextKey(keys, n);
      if key in seen {
        return false;
      }
      seen := seen + {key};
      previous := key;
    }
    assert keys[..|selections|] == keys;
    ok := true;
  }

  lemma KeyAfterNothing(s: Selection)
    ensures Less([], Key(s))
  {
  }

  lemma NoKeys(keys: seq<Bytes>)
    ensures KeySet(keys[..0]) == {}
  {
  }

  // The key after a sorted prefix extends it, and is new: the check for repetition never fires.
  lemma NextKey(keys: seq<Bytes>, n: nat)
    requires n < |keys| && StrictlySorted(keys[..n]) && (n > 0 ==> Less(keys[n - 1], keys[n]))
    ensures StrictlySorted(keys[..n + 1])
    ensures keys[n] !in KeySet(keys[..n]) && KeySet(keys[..n + 1]) == KeySet(keys[..n]) + {keys[n]}
  {
    hide Less;
    assert keys[..n + 1] == keys[..n] + [keys[n]];
    SortedDistinct(keys[..n + 1]);
    assert forall i :: 0 <= i < n ==> keys[..n + 1][i] == keys[..n][i];
  }

  // ----- work orders ---------------------------------------------------------

  predicate ValidBudgets(w: WorkOrder) {
    && 0 < w.maxIndexResponseBytes <= MAX_INDEX_RESPONSE && 0 < w.maxCompressedRecordBytes <= MAX_COMPRESSED
    && 0 < w.maxDecompressedRecordBytes <= MAX_DECOMPRESSED && 0 < w.maxRetainedBodyBytes <= MAX_RETAINED_BODY
    && w.maxRetainedBodyBytes <= w.maxDecompressedRecordBytes
  }

  predicate ValidAuthority(x: Syntax, w: WorkOrder) {
    && w.policyReviewState == Ascii("completed")
    && (w.policyDecision == Ascii("permit_live") || w.policyDecision == Ascii("permit_with_constraints")
        || w.policyDecision == Ascii("profile_only"))
    && ValidDigest(w.policyEvidenceDigest) && ValidDigest(w.decisionDigest)
    && x.approvalReference(w.approvalReference) && ValidPlainText(w.approvedBy, 256) && x.approvedAt(w.approvedAt)
    && w.evidenceClass == Ascii("archive_observation") && w.freshness == Ascii("historical")
    && !w.currentPublisherStatement && w.observedBy == Ascii("common_crawl")
  }

  predicate ValidScope(x: Syntax, w: WorkOrder) {
    && x.origin(w.canonicalOrigin)
    && 0 < |w.permittedRoutes| <= MAX_ROUTES && SortedUniqueTexts(w.permittedRoutes)
    && (forall r :: r in w.permittedRoutes ==> x.route(w.canonicalOrigin, r))
    && 0 < |w.collectionIDs| <= MAX_PERIODS && SortedUniqueTexts(w.collectionIDs)
    && (forall c :: c in w.collectionIDs ==> CollectionID(c))
    && w.capturesPerCollection == 1 && 0 < w.indexRequestBudget <= MAX_INDEX_REQUESTS
    && |w.collectionIDs| * |w.permittedRoutes| <= w.indexRequestBudget
    && |w.selectedCaptures| == |w.collectionIDs| * |w.permittedRoutes| <= MAX_PERIODS * MAX_ROUTES * MAX_CAPTURES
    && ValidSelections(x, w)
  }

  predicate ValidOrder(x: Syntax, w: WorkOrder) {
    && w.format == Ascii("tw.common-crawl-work-order/0.2") && ValidID(w.id) && ValidID(w.originID)
    && ValidScope(x, w) && ValidBudgets(w) && ValidAuthority(x, w)
  }

  /** The validation of a work order, its selections by the loop above. */
  method ValidateOrder(x: Syntax, w: WorkOrder) returns (ok: bool)
    ensures ok <==> ValidOrder(x, w)
  {
    hide ValidBudgets, ValidAuthority, ValidSelections, ValidID;
    if w.format != Ascii("tw.common-crawl-work-order/0.2") || !ValidID(w.id) || !ValidID(w.originID) {
      return false;
    }
    if !x.origin(w.canonicalOrigin) || |w.permittedRoutes| == 0 || |w.permittedRoutes| > MAX_ROUTES
       || !SortedUniqueTexts(w.permittedRoutes) || exists r :: r in w.permittedRoutes && !x.route(w.canonicalOrigin, r)
    {
      return false;
    }
    if |w.collectionIDs| == 0 || |w.collectionIDs| > MAX_PERIODS || !SortedUniqueTexts(w.collectionIDs)
       || exists c :: c in w.collectionIDs && !CollectionID(c)
    {
      return false;
    }
    if w.capturesPerCollection != 1 || w.indexRequestBudget == 0 || w.indexRequestBudget > MAX_INDEX_REQUESTS
       || |w.collectionIDs| * |w.permittedRoutes| > w.indexRequestBudget
    {
      return false;
    }
    var expected := |w.collectionIDs| * |w.permittedRoutes|;
    if |w.selectedCaptures| != expected || |w.selectedCaptures| > MAX_PERIODS * MAX_ROUTES * MAX_CAPTURES {
      return false;
    }
    ok := ValidateSelections(x, w);
    if !ok || !ValidBudgets(w) || !ValidAuthority(x, w) {
      return false;
    }
  }

  // ----- the bijection -------------------------------------------------------

  type Pair = (Bytes, Bytes)

  function Product(a: set<Bytes>, b: set<Bytes>): set<Pair> {
    set p, q | p in a && q in b :: (p, q)
  }

  function Row(p: Bytes, b: set<Bytes>): set<Pair> {
    set q | q in b :: (p, q)
  }

  lemma {:induction false} ProductSize(a: set<Bytes>, b: set<Bytes>)
    ensures |Product(a, b)| == |a| * |b|
    decreases |a|
  {
    hide Product, Row;
    if a == {} {
      ProductEmpty(b);
    } else {
      var x :| x in a;
      ProductSplit(a, b, x);
      RowSize(x, b);
      ProductSize(a - {x}, b);
      assert |a - {x}| == |a| - 1;
      assert (|a| - 1) * |b| + |b| == |a| * |b|;
    }
  }

  lemma ProductEmpty(b: set<Bytes>)
    ensures Product({}, b) == {}
  {
  }

  lemma ProductSplit(a: set<Bytes>, b: set<Bytes>, x: Bytes)
    requires x in a
    ensures Product(a, b) == Product(a - {x}, b) + Row(x, b) && Product(a - {x}, b) !! Row(x, b)
  {
  }

  lemma {:induction false} RowSize(x: Bytes, b: set<Bytes>)
    ensures |Row(x, b)| == |b|
    decreases |b|
  {
    if b == {} {
      assert Row(x, b) == {};
    } else {
      var y :| y in b;
      RowSize(x, b - {y});
      assert Row(x, b) == Row(x, b - {y}) + {(x, y)};
    }
  }

  function PairsOf(selections: seq<Selection>): set<Pair> {
    set s | s in selections :: (s.collectionID, s.route)
  }

  lemma {:induction false} DistinctSize(selections: seq<Selection>)
    requires forall i, j :: 0 <= i < j < |selections| ==> Key(selections[i]) != Key(selections[j])
    ensures |PairsOf(selections)| == |selections|
  {
    if selections == [] {
      assert PairsOf(selections) == {};
    } else {
      var last := selections[|selections| - 1];
      var init := selections[..|selections| - 1];
      DistinctSize(init);
      assert selections == init + [last];
      assert PairsOf(selections) == PairsOf(init) + {(last.collectionID, last.route)};
      assert (last.collectionID, last.route) !in PairsOf(init);
    }
  }

  lemma {:induction false} SetSize(values: seq<Bytes>)
    requires forall i, j :: 0 <= i < j < |values| ==> values[i] != values[j]
    ensures |(set v | v in values)| == |values|
  {
    if values == [] {
      assert (set v | v in values) == {};
    } else {
      var last := values[|values| - 1];
      var init := values[..|values| - 1];
      SetSize(init);
      assert values == init + [last];
      assert (set v | v in values) == (set v | v in init) + {last};
    }
  }

  /** The selections of a valid order are a bijection with collections times routes: every pair
    * has exactly one selection, and no selection is outside. */
  lemma SelectionsAreABijection(x: Syntax, w: WorkOrder)
    requires ValidScope(x, w)
    ensures PairsOf(w.selectedCaptures) == Product(set c | c in w.collectionIDs, set r | r in w.permittedRoutes)
    ensures forall i, j :: 0 <= i < j < |w.selectedCaptures| ==>
              (w.selectedCaptures[i].collectionID, w.selectedCaptures[i].route)
              != (w.selectedCaptures[j].collectionID, w.selectedCaptures[j].route)
  {
    hide ValidSelection;
    var collections := set c | c in w.collectionIDs;
    var routes := set r | r in w.permittedRoutes;
    SortedDistinct(w.collectionIDs);
    SortedDistinct(w.permittedRoutes);
    SetSize(w.collectionIDs);
    SetSize(w.permittedRoutes);
    ProductSize(collections, routes);
    var keys := Keys(w.selectedCaptures);
    SortedDistinct(keys);
    assert forall i :: 0 <= i < |keys| ==> keys[i] == Key(w.selectedCaptures[i]);
    DistinctSize(w.selectedCaptures);
    SubsetSize(PairsOf(w.selectedCaptures), Product(collections, routes));
  }

  // ----- lookup --------------------------------------------------------------

  /** The selection found for a collection and a route. */
  function Selected(w: WorkOrder, collectionID: Bytes, route: Bytes): Option<Selection> {
    var n := Position(Keys(w.selectedCaptures), PairKey(collectionID, route));
    if n < |w.selectedCaptures| && w.selectedCaptures[n].collectionID == collectionID
       && w.selectedCaptures[n].route == route
    then Some(w.selectedCaptures[n]) else None
  }

  method SelectedCapture(w: WorkOrder, collectionID: Bytes, route: Bytes) returns (found: Option<Selection>)
    requires StrictlySorted(Keys(w.selectedCaptures))
    ensures found == Selected(w, collectionID, route)
  {
    hide PairKey;
    var n := Search(Keys(w.selectedCaptures), PairKey(collectionID, route));
    if n >= |w.selectedCaptures| {
      return None;
    }
    var candidate := w.selectedCaptures[n];
    found := if candidate.collectionID == collectionID && candidate.route == route then Some(candidate) else None;
  }

  /** In a valid order the lookup finds the one matching selection for every permitted pair, and
    * nothing for any other pair. */
  lemma SelectedExactly(x: Syntax, w: WorkOrder, collectionID: Bytes, route: Bytes)
    requires ValidScope(x, w)
    ensures var found := Selected(w, collectionID, route);
            && (found.Some? <==> collectionID in w.collectionIDs && route in w.permittedRoutes)
            && (found.Some? ==> forall s :: s in w.selectedCaptures && s.collectionID == collectionID && s.route == route
                                  ==> s == found.value)
            && (found.Some? ==> found.value in w.selectedCaptures && ValidSelection(x, found.value))
  {
    hide ValidSelection, PairKey, Position, PairsOf, Product;
    SelectionsAreABijection(x, w);
    var keys, key := Keys(w.selectedCaptures), PairKey(collectionID, route);
    PositionFinds(keys, key);
    SortedDistinct(keys);
    var found := Selected(w, collectionID, route);
    assert found.Some? ==> found.value in w.selectedCaptures;
    if collectionID in w.collectionIDs && route in w.permittedRoutes {
      var i := Covered(w, collectionID, route);
      assert keys[i] == key;
    }
  }

  lemma Covered(w: WorkOrder, collectionID: Bytes, route: Bytes) returns (i: nat)
    requires PairsOf(w.selectedCaptures) == Product(set c | c in w.collectionIDs, set r | r in w.permittedRoutes)
    requires collectionID in w.collectionIDs && route in w.permittedRoutes
    ensures i < |w.selectedCaptures|
    ensures w.selectedCaptures[i].collectionID == collectionID && w.selectedCaptures[i].route == route
  {
    assert (collectionID, route) in PairsOf(w.selectedCaptures);
    var s :| s in w.selectedCaptures && s.collectionID == collectionID && s.route == route;
    i :| 0 <= i < |w.selectedCaptures| && w.selectedCaptures[i] == s;
  }
}
