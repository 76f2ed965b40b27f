/** The atlas metrics (internal/atlas/metrics.go, internal/atlas/capability.go). */
module Metrics {
  // Every candidate starts in the default bucket of each state dimension, and every public
  // record moves one count to the state it is in.

  import opened Wrappers
  import opened ByteStrings
  import opened AtlasState

  type Counts<!K> = map<K, int>

  // ----- the states of each dimension ----------------------------------------

  function CatalogStates(): seq<CatalogState> { [CatalogCandidate, Cataloged] }
  function ReviewStates(): seq<ReviewState> { [Pending, Completed] }
  function Decisions(): seq<PolicyDecision> {
    [PermitLive, PermitWithConstraints, ProfileOnly, CatalogOnly, Deny, Uncertain]
  }
  function TechnicalOrder(): seq<TechnicalStage> {
    [Unprofiled, Profiled, Observed, NativeSchema, Compiled, SemanticallyLinked, Live]
  }
  function PublisherStates(): seq<PublisherStatus> { [Unclaimed, DomainVerified, PublisherApproved, PublisherSigned] }
  function HealthStates(): seq<HealthStatus> { [HealthUnknown, Healthy, Degraded, Stale, Suspended, Revoked] }
  function AdapterStates(): seq<AdapterTrust> {
    [AdapterNone, AdapterCandidate, AdapterReviewed, AdapterConformant, AdapterRevoked]
  }
  function MappingStates(): seq<MappingTrust> {
    [MappingNone, MappingCandidate, MappingReviewed, MappingDisputed, MappingRevoked]
  }
  function AccessClasses(): seq<AccessClass> {
    [PublicFree, Authenticated, Subscription, Metered, PaidPerUse, QuoteRequired, Restricted, AccessUnknown]
  }
  function PriceStates(): seq<PriceStatus> { [NotAssessed, NotFound, PriceCandidate, SourceStated, PriceReviewed] }

  /** The place of a stage in the technical order. */
  function StageIndex(s: TechnicalStage): (i: nat)
    ensures i < |TechnicalOrder()| && TechnicalOrder()[i] == s
  {
    match s
    case Unprofiled => 0
    case Profiled => 1
    case Observed => 2
    case NativeSchema => 3
    case Compiled => 4
    case SemanticallyLinked => 5
    case Live => 6
  }

  // ----- what a dimension should count ---------------------------------------

  function Occurrences<K(==)>(values: seq<K>, k: K): nat {
    if values == [] then 0
    else Occurrences(values[..|values| - 1], k) + if values[|values| - 1] == k then 1 else 0
  }

  /** How many of `total` candidates are in a state, when the records say `values` and every
    * candidate without a record is in the default state. */
  function InState<K(==)>(default: K, total: int, values: seq<K>, k: K): int {
    Occurrences(values, k) + if k == default then total - |values| else 0
  }

  predicate Distinct<K(==)>(states: seq<K>) {
    forall i, j :: 0 <= i < j < |states| ==> states[i] != states[j]
  }

  /** The counters are exactly the number of candidates in each state. */
  predicate Exact<K(==)>(m: Counts<K>, states: seq<K>, default: K, total: int, values: seq<K>) {
    m.Keys == (set k | k in states) && forall k :: k in m ==> m[k] == InState(default, total, values, k)
  }

  function Total<K(==)>(m: Counts<K>, states: seq<K>): int
    requires forall k :: k in states ==> k in m
  {
    if states == [] then 0 else m[states[0]] + Total(m, states[1..])
  }

  // ----- moving one count ----------------------------------------------------

  /** One count leaves the default bucket for the bucket of a state. */
  function Moved<K(==)>(m: Counts<K>, default: K, state: K): Counts<K>
    requires default in m && state in m
  {
    var less := m[default := m[default] - 1];
    less[state := less[state] + 1]
  }

  lemma OccurrencesEnd<K>(values: seq<K>, v: K, k: K)
    ensures Occurrences(values + [v], k) == Occurrences(values, k) + if v == k then 1 else 0
  {
    assert (values + [v])[..|values|] == values;
  }

  // Moving a count accounts for one more record, and a record in the default state needs no move.
  lemma MovedExact<K>(m: Counts<K>, states: seq<K>, default: K, total: int, values: seq<K>, v: K)
    requires Exact(m, states, default, total, values) && default in states && v in states
    ensures Exact(Moved(m, default, v), states, default, total, values + [v])
    ensures v == default ==> Exact(m, states, default, total, values + [v])
  {
    forall k | k in m ensures Moved(m, default, v)[k] == InState(default, total, values + [v], k) {
      OccurrencesEnd(values, v, k);
    }
    if v == default {
      forall k | k in m ensures m[k] == InState(default, total, values + [v], k) {
        OccurrencesEnd(values, v, k);
      }
    }
    assert Moved(m, default, v).Keys == m.Keys;
  }

  // ----- conservation --------------------------------------------------------

  // The same counters without one state.
  lemma {:induction false} TotalIgnores<K>(m: Counts<K>, n: Counts<K>, states: seq<K>)
    requires forall k :: k in states ==> k in m && k in n && m[k] == n[k]
    ensures Total(m, states) == Total(n, states)
  {
    if states != [] {
      TotalIgnores(m, n, states[1..]);
    }
  }

  lemma {:induction false} TotalMoved<K>(m: Counts<K>, states: seq<K>, k: K, delta: int)
    requires Distinct(states) && k in states && forall s :: s in states ==> s in m
    ensures Total(m[k := m[k] + delta], states) == Total(m, states) + delta
  {
    var n := m[k := m[k] + delta];
    var rest := states[1..];
    assert forall s :: s in rest ==> s in states;
    if states[0] == k {
      forall s | s in rest ensures s != k {
        var i :| 0 <= i < |rest| && rest[i] == s;
        assert states[i + 1] == s;
      }
      TotalIgnores(n, m, rest);
    } else {
      assert states == [states[0]] + rest;
      TotalMoved(m, rest, k, delta);
    }
  }

  lemma {:induction false} TotalZero<K>(m: Counts<K>, states: seq<K>)
    requires forall s :: s in states ==> s in m && m[s] == 0
    ensures Total(m, states) == 0
  {
    if states != [] {
      TotalZero(m, states[1..]);
    }
  }

  // One more record moves a count and changes no total.
  lemma MoveKeepsTotal<K>(before: Counts<K>, after: Counts<K>, states: seq<K>, default: K, total: int, values: seq<K>, v: K)
    requires Distinct(states) && default in states && v in states
    requires Exact(before, states, default, total, values) && Exact(after, states, default, total, values + [v])
    ensures Total(after, states) == Total(before, states)
  {
    hide Occurrences, Total, Distinct, InState;
    MovedExact(before, states, default, total, values, v);
    var less := before[default := before[default] - 1];
    TotalMoved(before, states, default, -1);
    TotalMoved(less, states, v, 1);
    TotalIgnores(after, Moved(before, default, v), states);
  }

  lemma StartTotal<K>(m: Counts<K>, states: seq<K>, default: K, total: int)
    requires Distinct(states) && default in states && Exact(m, states, default, total, [])
    ensures Total(m, states) == total
  {
    var zero := m[default := 0];
    TotalZero(zero, states);
    TotalMoved(zero, states, default, total);
    TotalIgnores(m, zero[default := zero[default] + total], states);
  }

  /** Conservation: whatever the records say, the counters of a dimension sum to the number of
    * candidates, and none is negative while there are no more records than candidates. */
  lemma {:induction false} Conservation<K>(m: Counts<K>, states: seq<K>, default: K, total: int, values: seq<K>)
    requires Distinct(states) && default in states && (forall v :: v in values ==> v in states)
    requires Exact(m, states, default, total, values)
    ensures Total(m, states) == total
    ensures |values| <= total ==> forall k :: k in m ==> m[k] >= 0
  {
    hide Total, Distinct;
    if values == [] {
      StartTotal(m, states, default, total);
    } else {
      var n := |values| - 1;
      var v := values[n];
      assert values == values[..n] + [v] && v in values;
      var before := map k | k in m :: InState(default, total, values[..n], k);
      assert before.Keys == m.Keys;
      Conservation(before, states, default, total, values[..n]);
      MoveKeepsTotal(before, m, states, default, total, values[..n], v);
    }
  }

  // ----- the stages reached --------------------------------------------------

  /** How many records are at a place of the technical order or beyond it. */
  function Reached(records: seq<OriginRecord>, place: nat): nat {
    if records == [] then 0
    else Reached(records[..|records| - 1], place) + if StageIndex(records[|records| - 1].technical) >= place then 1 else 0
  }

  /** Every candidate is at least unprofiled; a later place counts the records that reached it. */
  predicate ExactlyReached(m: Counts<TechnicalStage>, total: int, records: seq<OriginRecord>) {
    && m.Keys == (set k | k in TechnicalOrder())
    && forall k :: k in m ==> m[k] == if k == Unprofiled then total else Reached(records, StageIndex(k))
  }

  lemma ReachedEnd(records: seq<OriginRecord>, r: OriginRecord, place: nat)
    ensures Reached(records + [r], place) == Reached(records, place) + if StageIndex(r.technical) >= place then 1 else 0
  {
    assert (records + [r])[..|records|] == records;
  }

  lemma StagesKnown()
    ensures |TechnicalOrder()| == 7 && forall k: TechnicalStage :: k in TechnicalOrder()
  {
    forall k: TechnicalStage ensures k in TechnicalOrder() {
      assert TechnicalOrder()[StageIndex(k)] == k;
    }
  }

  // ----- projections ---------------------------------------------------------

  /** What the records say on one dimension. */
  function Along<K>(records: seq<OriginRecord>, f: OriginRecord -> K): seq<K> {
    seq(|records|, i requires 0 <= i < |records| => f(records[i]))
  }

  lemma AlongEnd<K>(records: seq<OriginRecord>, r: OriginRecord, f: OriginRecord -> K)
    ensures Along(records + [r], f) == Along(records, f) + [f(r)]
  {
  }

  function CatalogOf(r: OriginRecord): CatalogState { r.catalog }
  function ReviewOf(r: OriginRecord): ReviewState { r.review }
  function DecisionOf(r: OriginRecord): PolicyDecision { r.decision }
  function TechnicalOf(r: OriginRecord): TechnicalStage { r.technical }
  function PublisherOf(r: OriginRecord): PublisherStatus { r.publisher }
  function HealthOf(r: OriginRecord): HealthStatus { r.health }
  function AdapterOf(r: OriginRecord): AdapterTrust { r.adapterTrust }
  function MappingOf(r: OriginRecord): MappingTrust { r.mappingTrust }
  function AccessOf(r: OriginRecord): AccessClass { r.access }
  function PriceOf(r: OriginRecord): PriceStatus { r.price }

  // Every state has a place in the list of its dimension, and only one.
  lemma StatesListed()
    ensures Distinct(CatalogStates()) && forall v: CatalogState :: v in CatalogStates()
    ensures Distinct(ReviewStates()) && forall v: ReviewState :: v in ReviewStates()
    ensures Distinct(Decisions()) && forall v: PolicyDecision :: v in Decisions()
    ensures Distinct(TechnicalOrder()) && forall v: TechnicalStage :: v in TechnicalOrder()
    ensures Distinct(PublisherStates()) && forall v: PublisherStatus :: v in PublisherStates()
    ensures Distinct(HealthStates()) && forall v: HealthStatus :: v in HealthStates()
    ensures Distinct(AdapterStates()) && forall v: AdapterTrust :: v in AdapterStates()
    ensures Distinct(MappingStates()) && forall v: MappingTrust :: v in MappingStates()
    ensures Distinct(AccessClasses()) && forall v: AccessClass :: v in AccessClasses()
    ensures Distinct(PriceStates()) && forall v: PriceStatus :: v in PriceStates()
  {
    StagesKnown();
    ListCatalog();
    ListReview();
    ListDecision();
    ListPublisher();
    ListHealth();
    ListAdapter();
    ListMapping();
    ListAccess();
    ListPrice();
  }

  lemma ListCatalog()
    ensures Distinct(CatalogStates()) && forall v: CatalogState :: v in CatalogStates()
  {
    forall v: CatalogState ensures v in CatalogStates() {
      match v
      case CatalogCandidate => assert CatalogStates()[0] == v;
      case Cataloged => assert CatalogStates()[1] == v;
    }
  }

  lemma ListReview()
    ensures Distinct(ReviewStates()) && forall v: ReviewState :: v in ReviewStates()
  {
    forall v: ReviewState ensures v in ReviewStates() {
      match v
      case Pending => assert ReviewStates()[0] == v;
      case Completed => assert ReviewStates()[1] == v;
    }
  }

  lemma ListDecision()
    ensures Distinct(Decisions()) && forall v: PolicyDecision :: v in Decisions()
  {
    forall v: PolicyDecision ensures v in Decisions() {
      match v
      case PermitLive => assert Decisions()[0] == v;
      case PermitWithConstraints => assert Decisions()[1] == v;
      case ProfileOnly => assert Decisions()[2] == v;
      case CatalogOnly => assert Decisions()[3] == v;
      case Deny => assert Decisions()[4] == v;
      case Uncertain => assert Decisions()[5] == v;
    }
  }

  lemma ListPublisher()
    ensures Distinct(PublisherStates()) && forall v: PublisherStatus :: v in PublisherStates()
  {
    forall v: PublisherStatus ensures v in PublisherStates() {
      match v
      case Unclaimed => assert PublisherStates()[0] == v;
      case DomainVerified => assert PublisherStates()[1] == v;
      case PublisherApproved => assert PublisherStates()[2] == v;
      case PublisherSigned => assert PublisherStates()[3] == v;
    }
  }

  lemma ListHealth()
    ensures Distinct(HealthStates()) && forall v: HealthStatus :: v in HealthStates()
  {
    forall v: HealthStatus ensures v in HealthStates() {
      match v
      case HealthUnknown => assert HealthStates()[0] == v;
      case Healthy => assert HealthStates()[1] == v;
      case Degraded => assert HealthStates()[2] == v;
      case Stale => assert HealthStates()[3] == v;
      case Suspended => assert HealthStates()[4] == v;
      case Revoked => assert HealthStates()[5] == v;
    }
  }

  lemma ListAdapter()
    ensures Distinct(AdapterStates()) && forall v: AdapterTrust :: v in AdapterStates()
  {
    forall v: AdapterTrust ensures v in AdapterStates() {
      match v
      case AdapterNone => assert AdapterStates()[0] == v;
      case AdapterCandidate => assert AdapterStates()[1] == v;
      case AdapterReviewed => assert AdapterStates()[2] == v;
      case AdapterConformant => assert AdapterStates()[3] == v;
      case AdapterRevoked => assert AdapterStates()[4] == v;
    }
  }

  lemma ListMapping()
    ensures Distinct(MappingStates()) && forall v: MappingTrust :: v in MappingStates()
  {
    forall v: MappingTrust ensures v in MappingStates() {
      match v
      case MappingNone => assert MappingStates()[0] == v;
      case MappingCandidate => assert MappingStates()[1] == v;
      case MappingReviewed => assert MappingStates()[2] == v;
      case MappingDisputed => assert MappingStates()[3] == v;
      case MappingRevoked => assert MappingStates()[4] == v;
    }
  }

  lemma ListAccess()
    ensures Distinct(AccessClasses()) && forall v: AccessClass :: v in AccessClasses()
  {
    forall v: AccessClass ensures v in AccessClasses() {
      match v
      case PublicFree => assert AccessClasses()[0] == v;
      case Authenticated => assert AccessClasses()[1] == v;
      case Subscription => assert AccessClasses()[2] == v;
      case Metered => assert AccessClasses()[3] == v;
      case PaidPerUse => assert AccessClasses()[4] == v;
      case QuoteRequired => assert AccessClasses()[5] == v;
      case Restricted => assert AccessClasses()[6] == v;
      case AccessUnknown => assert AccessClasses()[7] == v;
    }
  }

  lemma ListPrice()
    ensures Distinct(PriceStates()) && forall v: PriceStatus :: v in PriceStates()
  {
    forall v: PriceStatus ensures v in PriceStates() {
      match v
      case NotAssessed => assert PriceStates()[0] == v;
      case NotFound => assert PriceStates()[1] == v;
      case PriceCandidate => assert PriceStates()[2] == v;
      case SourceStated => assert PriceStates()[3] == v;
      case PriceReviewed => assert PriceStates()[4] == v;
    }
  }

  // ----- the counters --------------------------------------------------------

  /** The counters of the eight state dimensions, of the stages reached, and of the records of
    * either scope. */
  datatype Tally = Tally(
    catalog: Counts<CatalogState>,
    review: Counts<ReviewState>,
    decision: Counts<PolicyDecision>,
    technical: Counts<TechnicalStage>,
    publisher: Counts<PublisherStatus>,
    health: Counts<HealthStatus>,
    adapterTrust: Counts<AdapterTrust>,
    mappingTrust: Counts<MappingTrust>,
    atOrBeyond: Counts<TechnicalStage>, publicRecords: nat, testFixtures: nat)

  /** Every counter is exact for the given public records. */
  ghost predicate Counting(t: Tally, total: int, records: seq<OriginRecord>) {
    && Exact(t.catalog, CatalogStates(), CatalogCandidate, total, Along(records, CatalogOf))
    && Exact(t.review, ReviewStates(), Pending, total, Along(records, ReviewOf))
    && Exact(t.decision, Decisions(), Uncertain, total, Along(records, DecisionOf))
    && Exact(t.technical, TechnicalOrder(), Unprofiled, total, Along(records, TechnicalOf))
    && Exact(t.publisher, PublisherStates(), Unclaimed, total, Along(records, PublisherOf))
    && Exact(t.health, HealthStates(), HealthUnknown, total, Along(records, HealthOf))
    && Exact(t.adapterTrust, AdapterStates(), AdapterNone, total, Along(records, AdapterOf))
    && Exact(t.mappingTrust, MappingStates(), MappingNone, total, Along(records, MappingOf))
    && ExactlyReached(t.atOrBeyond, total, records)
  }

  /** A counter for every state: all candidates in the default one. */
  method Start<K(==)>(states: seq<K>, default: K, total: int) returns (m: Counts<K>)
    requires default in states
    ensures Exact(m, states, default, total, [])
  {
    m := map[];
    for i := 0 to |states|
      invariant m.Keys == set k | k in states[..i]
      invariant forall k :: k in m ==> m[k] == 0
    {
      m := m[states[i] := 0];
      assert states[..i + 1] == states[..i] + [states[i]];
    }
    assert states[..|states|] == states;
    m := m[default := total];
    assert m.Keys == set k | k in states;
  }

  /** The counters before any record: every candidate in its default state. */
  method Initial(total: nat) returns (t: Tally)
    ensures Counting(t, total, []) && t.publicRecords == 0 && t.testFixtures == 0
  {
    hide Exact, Along;
    StatesListed();
    NothingAlong();
    var catalog := Start(CatalogStates(), CatalogCandidate, total);
    var review := Start(ReviewStates(), Pending, total);
    var decision := Start(Decisions(), Uncertain, total);
    var technical := Start(TechnicalOrder(), Unprofiled, total);
    var publisher := Start(PublisherStates(), Unclaimed, total);
    var health := Start(HealthStates(), HealthUnknown, total);
    var adapterTrust := Start(AdapterStates(), AdapterNone, total);
    var mappingTrust := Start(MappingStates(), MappingNone, total);
    NothingReached(technical, total);
    t := Tally(catalog, review, decision, technical, publisher, health, adapterTrust, mappingTrust, technical, 0, 0);
  }

  lemma NothingAlong()
    ensures Along([], CatalogOf) == []
    ensures Along([], ReviewOf) == []
    ensures Along([], DecisionOf) == []
    ensures Along([], TechnicalOf) == []
    ensures Along([], PublisherOf) == []
    ensures Along([], HealthOf) == []
    ensures Along([], AdapterOf) == []
    ensures Along([], MappingOf) == [] && Along([], AccessOf) == [] && Along([], PriceOf) == []
  {
  }

  lemma NothingReached(m: Counts<TechnicalStage>, total: int)
    requires Exact(m, TechnicalOrder(), Unprofiled, total, [])
    ensures ExactlyReached(m, total, [])
  {
  }

  /** One count moves from the default state to a state. */
  method Move<K(==)>(m: Counts<K>, default: K, v: K, ghost states: seq<K>, ghost total: int, ghost values: seq<K>)
    returns (n: Counts<K>)
    requires Exact(m, states, default, total, values) && default in states && v in states
    ensures Exact(n, states, default, total, values + [v])
  {
    MovedExact(m, states, default, total, values, v);
    n := m;
    if v != default {
      n := n[default := n[default] - 1];
      n := n[v := n[v] + 1];
    }
  }

  /** The record is counted at every stage from the second up to its own. */
  method Reach(m: Counts<TechnicalStage>, r: OriginRecord, ghost total: int, ghost records: seq<OriginRecord>)
    returns (n: Counts<TechnicalStage>)
    requires ExactlyReached(m, total, records)
    ensures ExactlyReached(n, total, records + [r])
  {
    StagesKnown();
    n := m;
    var order := TechnicalOrder();
    for place := 1 to StageIndex(r.technical) + 1
      invariant n.Keys == m.Keys
      invariant forall k :: k in n ==>
                  n[k] == m[k] + if 1 <= StageIndex(k) < place then 1 else 0
    {
      StageAt(place);
      n := n[order[place] := n[order[place]] + 1];
    }
    forall k | k in n && k != Unprofiled ensures n[k] == Reached(records + [r], StageIndex(k)) {
      ReachedEnd(records, r, StageIndex(k));
    }
  }

  lemma StageAt(place: nat)
    requires place < |TechnicalOrder()|
    ensures forall k :: StageIndex(k) == place <==> k == TechnicalOrder()[place]
  {
    StagesKnown();
  }

  /** One public record: every dimension, then the stages it reached. */
  method Count(t: Tally, r: OriginRecord, ghost total: int, ghost records: seq<OriginRecord>) returns (n: Tally)
    requires Counting(t, total, records)
    ensures Counting(n, total, records + [r])
    ensures n.publicRecords == t.publicRecords + 1 && n.testFixtures == t.testFixtures
  {
    hide Exact, ExactlyReached, Along;
    StatesListed();
    hide CatalogStates;
    hide ReviewStates;
    hide Decisions;
    hide TechnicalOrder;
    hide PublisherStates;
    hide HealthStates;
    hide AdapterStates;
    hide MappingStates;
    AlongEnd(records, r, CatalogOf);
    AlongEnd(records, r, ReviewOf);
    AlongEnd(records, r, DecisionOf);
    AlongEnd(records, r, TechnicalOf);
    AlongEnd(records, r, PublisherOf);
    AlongEnd(records, r, HealthOf);
    AlongEnd(records, r, AdapterOf);
    AlongEnd(records, r, MappingOf);
    var catalog := Move(t.catalog, CatalogCandidate, r.catalog, CatalogStates(), total, Along(records, CatalogOf));
    var review := Move(t.review, Pending, r.review, ReviewStates(), total, Along(records, ReviewOf));
    var decision := Move(t.decision, Uncertain, r.decision, Decisions(), total, Along(records, DecisionOf));
    var technical := Move(t.technical, Unprofiled, r.technical, TechnicalOrder(), total, Along(records, TechnicalOf));
    var publisher := Move(t.publisher, Unclaimed, r.publisher, PublisherStates(), total, Along(records, PublisherOf));
    var health := Move(t.health, HealthUnknown, r.health, HealthStates(), total, Along(records, HealthOf));
    var adapterTrust := Move(t.adapterTrust, AdapterNone, r.adapterTrust, AdapterStates(), total, Along(records, AdapterOf));
    var mappingTrust := Move(t.mappingTrust, MappingNone, r.mappingTrust, MappingStates(), total, Along(records, MappingOf));
    var atOrBeyond := Reach(t.atOrBeyond, r, total, records);
    n := Tally(catalog, review, decision, technical, publisher, health, adapterTrust, mappingTrust, atOrBeyond, t.publicRecords + 1, t.testFixtures);
  }

  /** The loop over the registry: fixtures are only counted, public records are tallied. */
  method BuildMetrics(x: Checks, candidates: seq<Candidate>, policyOrigins: seq<Bytes>, origins: seq<OriginRecord>)
    returns (t: Option<Tally>, capabilities: CapabilityCounts)
    ensures fresh(capabilities)
    ensures t.Some? <==> ValidSelection(candidates) && ValidRegistry(x, candidates, policyOrigins, origins)
    ensures t.Some? ==>
              && Counting(t.value, |candidates|, PublicRecords(origins))
              && capabilities.Counting(|candidates|, PublicRecords(origins))
              && t.value.publicRecords == |PublicRecords(origins)|
              && t.value.publicRecords + t.value.testFixtures == |origins|
  {
    hide ValidRegistry, Counting, CapabilityCounts.Counting, PublicRecords, ValidSelection;
    capabilities := new CapabilityCounts(|candidates|);
    t := None;
    if !ValidSelection(candidates) {
      return;
    }
    var ok := ValidateRegistry(x, candidates, policyOrigins, origins);
    if !ok {
      return;
    }
    ScopesKnown(x, candidates, policyOrigins, origins);
    var counts := Initial(|candidates|);
    NoPublic(origins);
    for i := 0 to |origins|
      invariant Counting(counts, |candidates|, PublicRecords(origins[..i]))
      invariant capabilities.Counting(|candidates|, PublicRecords(origins[..i]))
      invariant counts.publicRecords == |PublicRecords(origins[..i])|
      invariant counts.publicRecords + counts.testFixtures == i
    {
      var r := origins[i];
      PublicNext(origins, i);
      if r.scope == TestFixture {
        counts := counts.(testFixtures := counts.testFixtures + 1);
        SameCounters(counts, |candidates|, PublicRecords(origins[..i]));
        continue;
      }
      capabilities.Add(r, true, |candidates|, PublicRecords(origins[..i]));
      counts := Count(counts, r, |candidates|, PublicRecords(origins[..i]));
    }
    assert origins[..|origins|] == origins;
    t := Some(counts);
  }

  lemma PublicNext(origins: seq<OriginRecord>, i: nat)
    requires i < |origins|
    ensures PublicRecords(origins[..i + 1])
            == if origins[i].scope == GenesisPublic then PublicRecords(origins[..i]) + [origins[i]]
               else PublicRecords(origins[..i])
  {
    assert origins[..i + 1][..i] == origins[..i] && origins[..i + 1][i] == origins[i];
    assert PublicRecords(origins[..i]) + [] == PublicRecords(origins[..i]);
  }

  lemma NoPublic(origins: seq<OriginRecord>)
    ensures PublicRecords(origins[..0]) == []
  {
  }

  lemma SameCounters(t: Tally, total: int, records: seq<OriginRecord>)
    requires t.testFixtures > 0 && Counting(t.(testFixtures := t.testFixtures - 1), total, records)
    ensures Counting(t, total, records)
  {
    hide Exact, ExactlyReached;
  }

  lemma ScopesKnown(x: Checks, candidates: seq<Candidate>, policyOrigins: seq<Bytes>, origins: seq<OriginRecord>)
    requires ValidRegistry(x, candidates, policyOrigins, origins)
    ensures forall i :: 0 <= i < |origins| ==> origins[i].scope == GenesisPublic || origins[i].scope == TestFixture
  {
    hide ValidRecord, NoRepeats;
    forall i | 0 <= i < |origins| ensures origins[i].scope == GenesisPublic || origins[i].scope == TestFixture {
      assert AdmissibleRecord(x, candidates, origins[i]);
    }
  }

  // ----- what the metrics add up to ------------------------------------------

  // The counters of one dimension sum to the candidates and none is negative.
  predicate Conserved<K(==)>(m: Counts<K>, states: seq<K>, total: int) {
    m.Keys == (set k | k in states) && Total(m, states) == total && forall k :: k in m ==> m[k] >= 0
  }

  lemma ConservedAlong<K>(m: Counts<K>, states: seq<K>, default: K, total: int, records: seq<OriginRecord>, f: OriginRecord -> K)
    requires Exact(m, states, default, total, Along(records, f)) && |records| <= total
    requires Distinct(states) && default in states && forall r: OriginRecord :: f(r) in states
    ensures Conserved(m, states, total)
  {
    var values := Along(records, f);
    assert forall i :: 0 <= i < |values| ==> values[i] == f(records[i]);
    Conservation(m, states, default, total, Along(records, f));
  }

  /** For every valid registry, each of the eight state dimensions sums to the number of
    * candidates and has no negative counter. */
  lemma MetricsConserved(x: Checks, candidates: seq<Candidate>, policyOrigins: seq<Bytes>, origins: seq<OriginRecord>, t: Tally)
    requires ValidRegistry(x, candidates, policyOrigins, origins)
    requires Counting(t, |candidates|, PublicRecords(origins))
    ensures Conserved(t.catalog, CatalogStates(), |candidates|)
    ensures Conserved(t.review, ReviewStates(), |candidates|)
    ensures Conserved(t.decision, Decisions(), |candidates|)
    ensures Conserved(t.technical, TechnicalOrder(), |candidates|)
    ensures Conserved(t.publisher, PublisherStates(), |candidates|)
    ensures Conserved(t.health, HealthStates(), |candidates|)
    ensures Conserved(t.adapterTrust, AdapterStates(), |candidates|)
    ensures Conserved(t.mappingTrust, MappingStates(), |candidates|)
  {
    hide ValidRegistry, Exact, Along, PublicRecords, Conserved;
    PublicRecordsBounded(x, candidates, policyOrigins, origins);
    StatesListed();
    hide CatalogStates;
    hide ReviewStates;
    hide Decisions;
    hide TechnicalOrder;
    hide PublisherStates;
    hide HealthStates;
    hide AdapterStates;
    hide MappingStates;
    var records, total := PublicRecords(origins), |candidates|;
    ConservedAlong(t.catalog, CatalogStates(), CatalogCandidate, total, records, CatalogOf);
    ConservedAlong(t.review, ReviewStates(), Pending, total, records, ReviewOf);
    ConservedAlong(t.decision, Decisions(), Uncertain, total, records, DecisionOf);
    ConservedAlong(t.technical, TechnicalOrder(), Unprofiled, total, records, TechnicalOf);
    ConservedAlong(t.publisher, PublisherStates(), Unclaimed, total, records, PublisherOf);
    ConservedAlong(t.health, HealthStates(), HealthUnknown, total, records, HealthOf);
    ConservedAlong(t.adapterTrust, AdapterStates(), AdapterNone, total, records, AdapterOf);
    ConservedAlong(t.mappingTrust, MappingStates(), MappingNone, total, records, MappingOf);
  }

  lemma {:induction false} ReachedSplits(records: seq<OriginRecord>, place: nat)
    requires place < |TechnicalOrder()|
    ensures Reached(records, place) == Occurrences(Along(records, TechnicalOf), TechnicalOrder()[place]) + Reached(records, place + 1)
  {
    if records != [] {
      var n := |records| - 1;
      ReachedSplits(records[..n], place);
      assert records == records[..n] + [records[n]];
      AlongEnd(records[..n], records[n], TechnicalOf);
      OccurrencesEnd(Along(records[..n], TechnicalOf), records[n].technical, TechnicalOrder()[place]);
      StageAt(place);
      assert StageIndex(records[n].technical) == place <==> records[n].technical == TechnicalOrder()[place];
    } else {
      assert Along([], TechnicalOf) == [];
    }
  }

  lemma {:induction false} NoneBeyond(records: seq<OriginRecord>)
    ensures Reached(records, |TechnicalOrder()|) == 0
  {
    if records != [] {
      NoneBeyond(records[..|records| - 1]);
    }
  }

  lemma {:induction false} SuffixIsReached(m: Counts<TechnicalStage>, total: int, records: seq<OriginRecord>, place: nat)
    requires Exact(m, TechnicalOrder(), Unprofiled, total, Along(records, TechnicalOf)) && 1 <= place <= |TechnicalOrder()|
    ensures Total(m, TechnicalOrder()[place..]) == Reached(records, place)
    decreases |TechnicalOrder()| - place
  {
    StagesKnown();
    if place == |TechnicalOrder()| {
      NoneBeyond(records);
    } else {
      SuffixIsReached(m, total, records, place + 1);
      ReachedSplits(records, place);
      var suffix := TechnicalOrder()[place..];
      assert suffix[1..] == TechnicalOrder()[place + 1..] && suffix[0] == TechnicalOrder()[place];
      StageAt(place);
    }
  }

  /** The count at or beyond a stage is the sum of the counts from that stage on. */
  lemma AtOrBeyondIsSuffixSum(t: Tally, total: int, records: seq<OriginRecord>, place: nat)
    requires Counting(t, total, records) && place < |TechnicalOrder()|
    ensures TechnicalOrder()[place] in t.atOrBeyond && (forall k :: k in TechnicalOrder()[place..] ==> k in t.technical)
    ensures t.atOrBeyond[TechnicalOrder()[place]] == Total(t.technical, TechnicalOrder()[place..])
  {
    hide Exact, Along;
    StagesKnown();
    ExactKeys(t.technical, TechnicalOrder(), Unprofiled, total, Along(records, TechnicalOf));
    if place == 0 {
      assert TechnicalOrder()[0..] == TechnicalOrder();
      StatesListed();
      ValuesListed(records);
      Conservation(t.technical, TechnicalOrder(), Unprofiled, total, Along(records, TechnicalOf));
    } else {
      StageAt(place);
      SuffixIsReached(t.technical, total, records, place);
    }
  }

  lemma ExactKeys<K>(m: Counts<K>, states: seq<K>, default: K, total: int, values: seq<K>)
    requires Exact(m, states, default, total, values)
    ensures forall k :: k in states <==> k in m
  {
  }

  lemma ValuesListed(records: seq<OriginRecord>)
    ensures forall v :: v in Along(records, TechnicalOf) ==> v in TechnicalOrder()
  {
    StagesKnown();
  }

  // ----- access and price ----------------------------------------------------

  /** The capability counters of access classes and price-discovery states. */
  class CapabilityCounts {
    var accessClasses: Counts<AccessClass>
    var priceDiscovery: Counts<PriceStatus>

    /** Exact for these records, each of which replaced one default. */
    ghost predicate Counting(total: int, records: seq<OriginRecord>)
      reads this
    {
      && Exact(accessClasses, AccessClasses(), AccessUnknown, total, Along(records, AccessOf))
      && Exact(priceDiscovery, PriceStates(), NotAssessed, total, Along(records, PriceOf))
    }

    constructor (defaultOrigins: nat)
      ensures Counting(defaultOrigins, [])
    {
      var access: Counts<AccessClass> := map[];
      var price: Counts<PriceStatus> := map[];
      new;
      StatesListed();
      NothingAlong();
      accessClasses := Start(AccessClasses(), AccessUnknown, defaultOrigins);
      priceDiscovery := Start(PriceStates(), NotAssessed, defaultOrigins);
    }

    method Add(r: OriginRecord, replacesDefault: bool, ghost total: int, ghost records: seq<OriginRecord>)
      requires Counting(total, records)
      modifies this
      ensures replacesDefault ==> Counting(total, records + [r])
      ensures !replacesDefault ==> Counting(total + 1, records + [r])
    {
      hide Exact, Along, AccessClasses, PriceStates;
      StatesListed();
      AlongEnd(records, r, AccessOf);
      AlongEnd(records, r, PriceOf);
      ExactKeys(accessClasses, AccessClasses(), AccessUnknown, total, Along(records, AccessOf));
      ExactKeys(priceDiscovery, PriceStates(), NotAssessed, total, Along(records, PriceOf));
      if replacesDefault {
        MovedExact(accessClasses, AccessClasses(), AccessUnknown, total, Along(records, AccessOf), r.access);
        MovedExact(priceDiscovery, PriceStates(), NotAssessed, total, Along(records, PriceOf), r.price);
        accessClasses := accessClasses[AccessUnknown := accessClasses[AccessUnknown] - 1];
        priceDiscovery := priceDiscovery[NotAssessed := priceDiscovery[NotAssessed] - 1];
      } else {
        AddedExact(accessClasses, AccessClasses(), AccessUnknown, total, Along(records, AccessOf), r.access);
        AddedExact(priceDiscovery, PriceStates(), NotAssessed, total, Along(records, PriceOf), r.price);
      }
      accessClasses := accessClasses[r.access := accessClasses[r.access] + 1];
      priceDiscovery := priceDiscovery[r.price := priceDiscovery[r.price] + 1];
    }
  }

  // A record that replaces no default adds to the total.
  lemma AddedExact<K>(m: Counts<K>, states: seq<K>, default: K, total: int, values: seq<K>, v: K)
    requires Exact(m, states, default, total, values) && v in m
    ensures Exact(m[v := m[v] + 1], states, default, total + 1, values + [v])
  {
    forall k | k in m ensures m[v := m[v] + 1][k] == InState(default, total + 1, values + [v], k) {
      OccurrencesEnd(values, v, k);
    }
    assert m[v := m[v] + 1].Keys == m.Keys;
  }

  /** Access classes and price states too sum to the total, none negative. */
  lemma CapabilitiesConserved(counts: CapabilityCounts, total: int, records: seq<OriginRecord>)
    requires counts.Counting(total, records) && |records| <= total
    ensures Conserved(counts.accessClasses, AccessClasses(), total)
    ensures Conserved(counts.priceDiscovery, PriceStates(), total)
  {
    hide Exact, Along, Conserved;
    StatesListed();
    ConservedAlong(counts.accessClasses, AccessClasses(), AccessUnknown, total, records, AccessOf);
    ConservedAlong(counts.priceDiscovery, PriceStates(), NotAssessed, total, records, PriceOf);
  }
}
