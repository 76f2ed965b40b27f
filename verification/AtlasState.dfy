/** The atlas registry (internal/atlas/state.go, internal/atlas/selection.go). */
module AtlasState {
  // Origin records over orthogonal state dimensions, validated against the selected candidates.
  // Record checks that no other part of the atlas relies on are one parameter.

  import opened Wrappers
  import opened ByteStrings

  const REQUIRED_CANDIDATES: nat := 500
  const MAX_TEST_FIXTURES: nat := 64

  datatype Scope = GenesisPublic | TestFixture | UnknownScope
  datatype CatalogState = CatalogCandidate | Cataloged
  datatype ReviewState = Pending | Completed
  datatype PolicyDecision = PermitLive | PermitWithConstraints | ProfileOnly | CatalogOnly | Deny | Uncertain
  datatype TechnicalStage = Unprofiled | Profiled | Observed | NativeSchema | Compiled | SemanticallyLinked | Live
  datatype PublisherStatus = Unclaimed | DomainVerified | PublisherApproved | PublisherSigned
  datatype HealthStatus = HealthUnknown | Healthy | Degraded | Stale | Suspended | Revoked
  datatype AdapterTrust = AdapterNone | AdapterCandidate | AdapterReviewed | AdapterConformant | AdapterRevoked
  datatype MappingTrust = MappingNone | MappingCandidate | MappingReviewed | MappingDisputed | MappingRevoked
  datatype AccessClass =
    | PublicFree | Authenticated | Subscription | Metered | PaidPerUse | QuoteRequired | Restricted | AccessUnknown
  datatype PriceStatus = NotAssessed | NotFound | PriceCandidate | SourceStated | PriceReviewed

  datatype SchedulerMode = Disabled | Ready | Cooldown
  datatype RefreshClass = Hot | Warm | Cool | Archival | NoRefresh

  /** Times are nanoseconds in UTC. */
  datatype Scheduler = Scheduler(
    mode: SchedulerMode, lastAttempt: Option<int>, cooldownUntil: Option<int>, consecutiveFailures: int,
    publicValue: int, semanticNovelty: int, demonstratedDemand: int, changeProbability: int, healthNeed: int,
    estimatedRequestCost: int)

  datatype OriginRecord = OriginRecord(
    id: Bytes, scope: Scope, canonicalOrigin: Bytes, domainFamilies: seq<Bytes>, executionIDs: seq<Bytes>,
    catalog: CatalogState, review: ReviewState, decision: PolicyDecision, policyBound: bool, technical: TechnicalStage,
    publisher: PublisherStatus, health: HealthStatus, adapterTrust: AdapterTrust, mappingTrust: MappingTrust,
    access: AccessClass, price: PriceStatus, refreshClass: RefreshClass, requestBudget: int, storageBudget: int,
    scheduler: Scheduler)

  datatype Candidate = Candidate(id: Bytes, canonicalOrigin: Bytes, domainFamily: Bytes)

  /** The checks that are parameters: everything else in a record, and its binding to its policy. */
  datatype Checks = Checks(record: OriginRecord -> bool, binding: OriginRecord -> bool)

  // ----- records -------------------------------------------------------------

  predicate InBounds(v: int, low: int, high: int) {
    low <= v <= high
  }

  predicate PermitsLive(d: PolicyDecision) {
    d == PermitLive || d == PermitWithConstraints
  }

  predicate Withdrawn(r: OriginRecord) {
    r.health == Suspended || r.health == Revoked || r.adapterTrust == AdapterRevoked || r.mappingTrust == MappingRevoked
  }

  /** A scheduler that is disabled carries nothing; an active one carries budgets, a refresh class,
    * positive priority factors, and a cooldown exactly when it cools down. */
  predicate ValidScheduler(s: Scheduler, refresh: RefreshClass, requestBudget: int, storageBudget: int) {
    && InBounds(s.consecutiveFailures, 0, 1000)
    && InBounds(s.publicValue, 0, 100) && InBounds(s.semanticNovelty, 0, 100) && InBounds(s.demonstratedDemand, 0, 100)
    && InBounds(s.changeProbability, 0, 100) && InBounds(s.healthNeed, 0, 100)
    && InBounds(s.estimatedRequestCost, 0, 100)
    && if s.mode.Disabled? then
         && s.cooldownUntil.None? && s.publicValue == 0 && s.semanticNovelty == 0 && s.demonstratedDemand == 0
         && s.changeProbability == 0 && s.healthNeed == 0 && s.estimatedRequestCost == 0
       else
         && requestBudget > 0 && storageBudget > 0 && refresh != NoRefresh
         && s.publicValue != 0 && s.semanticNovelty != 0 && s.demonstratedDemand != 0
         && s.changeProbability != 0 && s.healthNeed != 0 && s.estimatedRequestCost != 0
         && (s.mode.Cooldown? <==> s.cooldownUntil.Some?)
  }

  predicate ValidRecord(x: Checks, r: OriginRecord) {
    && x.record(r) && r.catalog == Cataloged
    && (r.review == Pending ==> r.decision == Uncertain)
    && InBounds(r.requestBudget, 0, 1440) && InBounds(r.storageBudget, 0, 100 * 0x10_0000)
    && ValidScheduler(r.scheduler, r.refreshClass, r.requestBudget, r.storageBudget)
    && (!r.scheduler.mode.Disabled? ==> r.review == Completed && PermitsLive(r.decision))
    && (Withdrawn(r) ==> r.scheduler.mode.Disabled?)
  }

  // ----- selection -----------------------------------------------------------

  predicate ValidSelection(candidates: seq<Candidate>) {
    && |candidates| == REQUIRED_CANDIDATES
    && (forall i, j :: 0 <= i < j < |candidates| ==>
          candidates[i].id != candidates[j].id && candidates[i].canonicalOrigin != candidates[j].canonicalOrigin)
  }

  /** The first candidate with an ID. */
  function FindCandidate(candidates: seq<Candidate>, id: Bytes): (c: Option<Candidate>)
    ensures c.Some? ==> c.value in candidates && c.value.id == id
    ensures c.None? ==> forall k :: k in candidates ==> k.id != id
  {
    if candidates == [] then None
    else if candidates[0].id == id then Some(candidates[0])
    else FindCandidate(candidates[1..], id)
  }

  // ----- the registry --------------------------------------------------------

  // A record belongs to its candidate, or is a fixture that no candidate names.
  predicate InScope(candidates: seq<Candidate>, r: OriginRecord) {
    var c := FindCandidate(candidates, r.id);
    match r.scope
    case GenesisPublic =>
      c.Some? && c.value.canonicalOrigin == r.canonicalOrigin && c.value.domainFamily in r.domainFamilies
    case TestFixture => c.None?
    case UnknownScope => false
  }

  predicate PolicyScoped(x: Checks, r: OriginRecord) {
    r.policyBound ==> r.scope == GenesisPublic && x.binding(r)
  }

  predicate AdmissibleRecord(x: Checks, candidates: seq<Candidate>, r: OriginRecord) {
    ValidRecord(x, r) && InScope(candidates, r) && PolicyScoped(x, r)
  }

  function ExecutionIDs(origins: seq<OriginRecord>): seq<Bytes> {
    if origins == [] then [] else ExecutionIDs(origins[..|origins| - 1]) + origins[|origins| - 1].executionIDs
  }

  predicate NoRepeats(values: seq<Bytes>) {
    forall i, j :: 0 <= i < j < |values| ==> values[i] != values[j]
  }

  function IDs(origins: seq<OriginRecord>): seq<Bytes> {
    seq(|origins|, i requires 0 <= i < |origins| => origins[i].id)
  }

  function CanonicalOrigins(origins: seq<OriginRecord>): seq<Bytes> {
    seq(|origins|, i requires 0 <= i < |origins| => origins[i].canonicalOrigin)
  }

  predicate PublicWithID(origins: seq<OriginRecord>, id: Bytes) {
    exists r :: r in origins && r.scope == GenesisPublic && r.id == id
  }

  /** A valid registry: sorted records with distinct IDs, origins and execution IDs, each
    * admissible, and a public record for every policy. */
  predicate ValidRegistry(x: Checks, candidates: seq<Candidate>, policyOrigins: seq<Bytes>, origins: seq<OriginRecord>) {
    && |origins| <= REQUIRED_CANDIDATES + MAX_TEST_FIXTURES
    && (forall i :: 0 < i < |origins| ==> !Less(origins[i].id, origins[i - 1].id))
    && NoRepeats(IDs(origins)) && NoRepeats(CanonicalOrigins(origins)) && NoRepeats(ExecutionIDs(origins))
    && (forall i :: 0 <= i < |origins| ==> AdmissibleRecord(x, candidates, origins[i]))
    && forall p :: p in policyOrigins ==> PublicWithID(origins, p)
  }

  lemma RepeatEnd(values: seq<Bytes>, v: Bytes)
    ensures NoRepeats(values + [v]) <==> NoRepeats(values) && v !in values
  {
    var all := values + [v];
    if NoRepeats(all) {
      forall i, j | 0 <= i < j < |values| ensures values[i] != values[j] {
        assert all[i] == values[i] && all[j] == values[j];
      }
      forall i | 0 <= i < |values| ensures values[i] != v {
        assert all[i] == values[i] && all[|values|] == v;
      }
    }
  }

  // A list with a repetition keeps it whatever follows.
  lemma RepeatPrefix(values: seq<Bytes>, more: seq<Bytes>)
    ensures NoRepeats(values + more) ==> NoRepeats(values)
  {
    forall i, j | 0 <= i < j < |values| ensures (values + more)[i] == values[i] && (values + more)[j] == values[j] {
    }
  }

  /** The loop over the execution IDs of one record, with the IDs seen so far. */
  method AddExecutionIDs(ids: seq<Bytes>, seen: set<Bytes>, ghost before: seq<Bytes>) returns (ok: bool, after: set<Bytes>)
    requires seen == (set v | v in before) && NoRepeats(before)
    ensures ok <==> NoRepeats(before + ids)
    ensures ok ==> after == set v | v in before + ids
  {
    after := seen;
    assert before + ids[..0] == before;
    for i := 0 to |ids|
      invariant NoRepeats(before + ids[..i])
      invariant after == set v | v in before + ids[..i]
    {
      assert before + ids[..i + 1] == before + ids[..i] + [ids[i]];
      RepeatEnd(before + ids[..i], ids[i]);
      if ids[i] in after {
        assert before + ids == before + ids[..i + 1] + ids[i + 1..];
        RepeatPrefix(before + ids[..i + 1], ids[i + 1..]);
        return false, after;
      }
      after := after + {ids[i]};
    }
    assert ids[..|ids|] == ids;
    ok := true;
  }

  // What the registry loop has established about a prefix of the records.
  ghost predicate CheckedPrefix(x: Checks, candidates: seq<Candidate>, origins: seq<OriginRecord>) {
    && NoRepeats(IDs(origins)) && NoRepeats(CanonicalOrigins(origins)) && NoRepeats(ExecutionIDs(origins))
    && forall i :: 0 <= i < |origins| ==> AdmissibleRecord(x, candidates, origins[i])
  }

  // One more record passes exactly when it repeats nothing and is admissible.
  lemma PrefixStep(x: Checks, candidates: seq<Candidate>, origins: seq<OriginRecord>, n: nat)
    requires n < |origins| && CheckedPrefix(x, candidates, origins[..n])
    ensures var r := origins[n];
            CheckedPrefix(x, candidates, origins[..n + 1]) <==>
              && r.id !in IDs(origins[..n]) && r.canonicalOrigin !in CanonicalOrigins(origins[..n])
              && NoRepeats(ExecutionIDs(origins[..n]) + r.executionIDs) && AdmissibleRecord(x, candidates, r)
    ensures CheckedPrefix(x, candidates, origins) ==> CheckedPrefix(x, candidates, origins[..n + 1])
  {
    hide AdmissibleRecord, NoRepeats;
    var a, b, r := origins[..n], origins[..n + 1], origins[n];
    assert b[..n] == a && b[n] == r;
    assert IDs(b) == IDs(a) + [r.id] && CanonicalOrigins(b) == CanonicalOrigins(a) + [r.canonicalOrigin];
    RepeatEnd(IDs(a), r.id);
    RepeatEnd(CanonicalOrigins(a), r.canonicalOrigin);
    assert forall i :: 0 <= i < n ==> b[i] == a[i];
    assert IDs(origins) == IDs(b) + IDs(origins)[n + 1..];
    assert CanonicalOrigins(origins) == CanonicalOrigins(b) + CanonicalOrigins(origins)[n + 1..];
    RepeatPrefix(IDs(b), IDs(origins)[n + 1..]);
    RepeatPrefix(CanonicalOrigins(b), CanonicalOrigins(origins)[n + 1..]);
    var more := ExecutionGrows(origins, n + 1);
    RepeatPrefix(ExecutionIDs(b), more);
    assert forall i :: 0 <= i < n + 1 ==> b[i] == origins[i];
  }

  lemma {:induction false} ExecutionGrows(origins: seq<OriginRecord>, n: nat) returns (more: seq<Bytes>)
    requires n <= |origins|
    ensures ExecutionIDs(origins) == ExecutionIDs(origins[..n]) + more
    decreases |origins|
  {
    if n == |origins| {
      assert origins[..n] == origins;
      more := [];
    } else {
      var init := origins[..|origins| - 1];
      more := ExecutionGrows(init, n);
      assert init[..n] == origins[..n];
      more := more + origins[|origins| - 1].executionIDs;
    }
  }

  /** The registry loop with its tables of identities, then the loop over the policies. */
  method ValidateRegistry(x: Checks, candidates: seq<Candidate>, policyOrigins: seq<Bytes>, origins: seq<OriginRecord>)
    returns (ok: bool)
    ensures ok <==> ValidRegistry(x, candidates, policyOrigins, origins)
  {
    hide AdmissibleRecord, NoRepeats, CheckedPrefix, ExecutionIDs, IDs, CanonicalOrigins, Less;
    CheckedWhole(x, candidates, origins);
    if |origins| > REQUIRED_CANDIDATES + MAX_TEST_FIXTURES || exists i :: 0 < i < |origins| && Less(origins[i].id, origins[i - 1].id) {
      return false;
    }
    var seenIDs: set<Bytes> := {};
    var seenOrigins: set<Bytes> := {};
    var seenExecutionIDs: set<Bytes> := {};
    var publicRecords: set<Bytes> := {};
    NothingChecked(x, candidates, origins);
    for n := 0 to |origins|
      invariant CheckedPrefix(x, candidates, origins[..n])
      invariant seenIDs == set v | v in IDs(origins[..n])
      invariant seenOrigins == set v | v in CanonicalOrigins(origins[..n])
      invariant seenExecutionIDs == set v | v in ExecutionIDs(origins[..n])
      invariant forall p :: p in publicRecords <==> PublicWithID(origins[..n], p)
    {
      var r := origins[n];
      PrefixStep(x, candidates, origins, n);
      PrefixTables(origins, n);
      ghost var before := ExecutionIDs(origins[..n]);
      assert NoRepeats(before) by { assert CheckedPrefix(x, candidates, origins[..n]); PrefixRepeats(x, candidates, origins[..n]); }
      if r.id in seenIDs || r.canonicalOrigin in seenOrigins || !AdmissibleRecord(x, candidates, r) {
        return false;
      }
      var added, after := AddExecutionIDs(r.executionIDs, seenExecutionIDs, before);
      if !added {
        return false;
      }
      seenIDs, seenOrigins, seenExecutionIDs := seenIDs + {r.id}, seenOrigins + {r.canonicalOrigin}, after;
      if r.scope == GenesisPublic {
        publicRecords := publicRecords + {r.id};
      }
    }
    assert origins[..|origins|] == origins;
    ok := forall p :: p in policyOrigins ==> p in publicRecords;
  }

  lemma CheckedWhole(x: Checks, candidates: seq<Candidate>, origins: seq<OriginRecord>)
    ensures CheckedPrefix(x, candidates, origins) <==>
            && NoRepeats(IDs(origins)) && NoRepeats(CanonicalOrigins(origins)) && NoRepeats(ExecutionIDs(origins))
            && forall i :: 0 <= i < |origins| ==> AdmissibleRecord(x, candidates, origins[i])
  {
  }

  lemma PrefixRepeats(x: Checks, candidates: seq<Candidate>, origins: seq<OriginRecord>)
    requires CheckedPrefix(x, candidates, origins)
    ensures NoRepeats(ExecutionIDs(origins))
  {
  }

  lemma NothingChecked(x: Checks, candidates: seq<Candidate>, origins: seq<OriginRecord>)
    ensures CheckedPrefix(x, candidates, origins[..0])
    ensures IDs(origins[..0]) == [] && CanonicalOrigins(origins[..0]) == [] && ExecutionIDs(origins[..0]) == []
  {
  }

  lemma PrefixTables(origins: seq<OriginRecord>, n: nat)
    requires n < |origins|
    ensures var a, b, r := origins[..n], origins[..n + 1], origins[n];
            && IDs(b) == IDs(a) + [r.id] && CanonicalOrigins(b) == CanonicalOrigins(a) + [r.canonicalOrigin]
            && ExecutionIDs(b) == ExecutionIDs(a) + r.executionIDs
            && forall p :: PublicWithID(b, p) <==> PublicWithID(a, p) || (r.scope == GenesisPublic && p == r.id)
  {
    var a, b, r := origins[..n], origins[..n + 1], origins[n];
    assert b[..n] == a && b[n] == r && b == a + [r];
    assert IDs(b) == IDs(a) + [r.id];
    assert r in b && forall q :: q in b <==> q in a || q == r;
  }

  // ----- public records are few ----------------------------------------------

  /** The public records, in registry order. */
  function PublicRecords(origins: seq<OriginRecord>): (records: seq<OriginRecord>)
    ensures forall r :: r in records <==> r in origins && r.scope == GenesisPublic
  {
    if origins == [] then []
    else
      var last := origins[|origins| - 1];
      PublicRecords(origins[..|origins| - 1]) + if last.scope == GenesisPublic then [last] else []
  }

  function IDSet(origins: seq<OriginRecord>): set<Bytes> {
    set r | r in origins :: r.id
  }

  function CandidateIDs(candidates: seq<Candidate>): set<Bytes> {
    set c | c in candidates :: c.id
  }

  lemma RecordID(origins: seq<OriginRecord>, r: OriginRecord)
    requires r in origins
    ensures r.id in IDs(origins)
  {
    var k :| 0 <= k < |origins| && origins[k] == r;
    assert IDs(origins)[k] == r.id;
  }

  lemma IDSetEnd(records: seq<OriginRecord>, last: OriginRecord)
    ensures IDSet(records + [last]) == IDSet(records) + {last.id}
  {
  }

  lemma {:induction false} DistinctRecords(origins: seq<OriginRecord>)
    requires NoRepeats(IDs(origins))
    ensures |IDSet(PublicRecords(origins))| == |PublicRecords(origins)|
  {
    hide NoRepeats, IDs, IDSet;
    if origins == [] {
      NoIDs();
    } else {
      var n := |origins| - 1;
      var init, last := origins[..n], origins[n];
      PrefixTables(origins, n);
      assert origins[..n + 1] == origins;
      RepeatEnd(IDs(init), last.id);
      DistinctRecords(init);
      var records := PublicRecords(init);
      assert records + [] == records;
      if last.scope == GenesisPublic {
        IDSetEnd(records, last);
        NotAmong(init, records, last.id);
      }
    }
  }

  lemma NoIDs()
    ensures IDSet([]) == {}
  {
  }

  lemma NotAmong(origins: seq<OriginRecord>, records: seq<OriginRecord>, id: Bytes)
    requires id !in IDs(origins) && forall r :: r in records ==> r in origins
    ensures id !in IDSet(records)
  {
    if id in IDSet(records) {
      var r :| r in records && r.id == id;
      RecordID(origins, r);
    }
  }

  lemma {:induction false} CandidateCount(candidates: seq<Candidate>)
    ensures |CandidateIDs(candidates)| <= |candidates|
  {
    if candidates == [] {
      assert CandidateIDs([]) == {};
    } else {
      var n := |candidates| - 1;
      CandidateCount(candidates[..n]);
      assert candidates == candidates[..n] + [candidates[n]];
      assert CandidateIDs(candidates) == CandidateIDs(candidates[..n]) + {candidates[n].id};
    }
  }

  /** In a valid registry there are at most as many public records as candidates. */
  lemma PublicRecordsBounded(x: Checks, candidates: seq<Candidate>, policyOrigins: seq<Bytes>, origins: seq<OriginRecord>)
    requires ValidRegistry(x, candidates, policyOrigins, origins)
    ensures |PublicRecords(origins)| <= |candidates|
  {
    hide ValidRecord, NoRepeats, ExecutionIDs, IDs, CanonicalOrigins, Less;
    DistinctRecords(origins);
    CandidateCount(candidates);
    forall id | id in IDSet(PublicRecords(origins)) ensures id in CandidateIDs(candidates) {
      var r :| r in PublicRecords(origins) && r.id == id;
      var k :| 0 <= k < |origins| && origins[k] == r;
      assert AdmissibleRecord(x, candidates, origins[k]);
    }
    SubsetSize(IDSet(PublicRecords(origins)), CandidateIDs(candidates));
  }
}
