/** The dry-run frontier plan (internal/atlas/frontier.go). */
module Frontier {
  // There is one decision per selected candidate and a job for each scheduled one, in a strict
  // total order. Times are nanoseconds in UTC.

  import opened Wrappers
  import opened ByteStrings
  import opened AtlasState
  import opened Sorting

  const HOUR: int := 3_600_000_000_000
  const MAX_INT64: int := 0x7fff_ffff_ffff_ffff

  function RefreshInterval(c: RefreshClass): int {
    match c
    case Hot => HOUR
    case Warm => 24 * HOUR
    case Cool => 7 * 24 * HOUR
    case Archival => 30 * 24 * HOUR
    case NoRefresh => 0
  }

  datatype Action =
    | CatalogReviewPending | PolicyReviewPending | PolicyNotLivePermitted | SchedulerDisabled
    | DeferCooldown(until: int) | DeferNotDue(due: int) | Schedule(due: int)

  datatype Decision = Decision(originID: Bytes, action: Action)

  datatype Job = Job(
    originID: Bytes, priority: int, refreshClass: RefreshClass, dueAt: int, requestBudget: int, storageBudget: int)

  datatype Plan = Plan(decisions: seq<Decision>, jobs: seq<Job>)

  // ----- one candidate -------------------------------------------------------

  /** The public record of a candidate, the last one with its ID. */
  function PublicRecord(origins: seq<OriginRecord>, id: Bytes): (r: Option<OriginRecord>)
    ensures r.Some? ==> r.value in origins && r.value.scope == GenesisPublic && r.value.id == id
    ensures r.None? <==> !PublicWithID(origins, id)
  {
    if origins == [] then None
    else
      var last := origins[|origins| - 1];
      if last.scope == GenesisPublic && last.id == id then Some(last)
      else PublicRecord(origins[..|origins| - 1], id)
  }

  function DueAt(r: OriginRecord, at: int): int {
    if r.scheduler.lastAttempt.Some? then r.scheduler.lastAttempt.value + RefreshInterval(r.refreshClass) else at
  }

  /** What is decided for a public record at a time. */
  function ActionFor(r: OriginRecord, at: int): Action {
    if r.review != Completed then PolicyReviewPending
    else if !PermitsLive(r.decision) then PolicyNotLivePermitted
    else if r.scheduler.mode.Disabled? then SchedulerDisabled
    else if r.scheduler.cooldownUntil.Some? && r.scheduler.cooldownUntil.value > at
    then DeferCooldown(r.scheduler.cooldownUntil.value)
    else if DueAt(r, at) > at then DeferNotDue(DueAt(r, at))
    else Schedule(DueAt(r, at))
  }

  function DecisionFor(origins: seq<OriginRecord>, c: Candidate, at: int): Decision {
    var r := PublicRecord(origins, c.id);
    Decision(c.id, if r.None? then CatalogReviewPending else ActionFor(r.value, at))
  }

  function FactorProduct(s: Scheduler): int {
    s.publicValue * s.semanticNovelty * s.demonstratedDemand * s.changeProbability * s.healthNeed
  }

  function Priority(s: Scheduler): int
    requires s.estimatedRequestCost > 0
  {
    var p := FactorProduct(s) / s.estimatedRequestCost;
    if p == 0 then 1 else p
  }

  function JobFor(r: OriginRecord, due: int): Job
    requires r.scheduler.estimatedRequestCost > 0
  {
    Job(r.id, Priority(r.scheduler), r.refreshClass, due, r.requestBudget, r.storageBudget)
  }

  /** The job that the decision for a candidate asks for, if it is scheduled. */
  function JobsFor(origins: seq<OriginRecord>, c: Candidate, at: int): seq<Job> {
    var r := PublicRecord(origins, c.id);
    var action := DecisionFor(origins, c, at).action;
    if action.Schedule? && r.Some? && r.value.scheduler.estimatedRequestCost > 0 then [JobFor(r.value, action.due)] else []
  }

  // ----- unsorted plans ------------------------------------------------------

  function AllDecisions(origins: seq<OriginRecord>, candidates: seq<Candidate>, at: int): seq<Decision> {
    seq(|candidates|, i requires 0 <= i < |candidates| => DecisionFor(origins, candidates[i], at))
  }

  function AllJobs(origins: seq<OriginRecord>, candidates: seq<Candidate>, at: int): seq<Job> {
    if candidates == [] then []
    else
      AllJobs(origins, candidates[..|candidates| - 1], at) + JobsFor(origins, candidates[|candidates| - 1], at)
  }

  // ----- the two orders ------------------------------------------------------

  predicate JobBefore(a: Job, b: Job) {
    if a.priority != b.priority then a.priority > b.priority else Less(a.originID, b.originID)
  }

  predicate DecisionBefore(a: Decision, b: Decision) {
    Less(a.originID, b.originID)
  }

  /** On jobs of different origins the order is a strict total one. */
  lemma JobOrder()
    ensures StrictOrder(JobBefore)
    ensures forall a: Job, b: Job :: a.originID != b.originID ==> JobBefore(a, b) || JobBefore(b, a)
  {
    forall a, b | JobBefore(a, b) ensures !JobBefore(b, a) {
      LessAsymmetric(a.originID, b.originID);
    }
    forall a, b, c | JobBefore(a, b) && JobBefore(b, c) ensures JobBefore(a, c) {
      if Less(a.originID, b.originID) && Less(b.originID, c.originID) {
        LessTransitive(a.originID, b.originID, c.originID);
      }
    }
    forall a: Job, b: Job | a.originID != b.originID ensures JobBefore(a, b) || JobBefore(b, a) {
      LessTotal(a.originID, b.originID);
    }
  }

  lemma LessAsymmetric(a: Bytes, b: Bytes)
    ensures !(Less(a, b) && Less(b, a))
  {
    if Less(a, b) && Less(b, a) {
      LessTransitive(a, b, a);
      LessIrreflexive(a);
    }
  }

  lemma DecisionOrder()
    ensures StrictOrder(DecisionBefore)
    ensures forall a: Decision, b: Decision :: a.originID != b.originID ==> DecisionBefore(a, b) || DecisionBefore(b, a)
  {
    forall a, b | DecisionBefore(a, b) ensures !DecisionBefore(b, a) {
      LessAsymmetric(a.originID, b.originID);
    }
    forall a, b, c | DecisionBefore(a, b) && DecisionBefore(b, c) ensures DecisionBefore(a, c) {
      LessTransitive(a.originID, b.originID, c.originID);
    }
    forall a: Decision, b: Decision | a.originID != b.originID ensures DecisionBefore(a, b) || DecisionBefore(b, a) {
      LessTotal(a.originID, b.originID);
    }
  }

  // ----- the plan ------------------------------------------------------------

  /** The plan is the sorted decisions of all candidates and the sorted jobs of the scheduled ones. */
  ghost predicate IsPlan(p: Plan, origins: seq<OriginRecord>, candidates: seq<Candidate>, at: int) {
    && SortedBy(DecisionBefore, p.decisions) && multiset(p.decisions) == multiset(AllDecisions(origins, candidates, at))
    && SortedBy(JobBefore, p.jobs) && multiset(p.jobs) == multiset(AllJobs(origins, candidates, at))
  }

  predicate DistinctCandidates(candidates: seq<Candidate>) {
    forall i, j :: 0 <= i < j < |candidates| ==> candidates[i].id != candidates[j].id
  }

  predicate Priced(origins: seq<OriginRecord>) {
    forall r :: r in origins && !r.scheduler.mode.Disabled? ==> r.scheduler.estimatedRequestCost > 0
  }

  lemma {:induction false} JobOwners(origins: seq<OriginRecord>, candidates: seq<Candidate>, at: int)
    ensures forall j :: j in AllJobs(origins, candidates, at) ==>
              exists c :: c in candidates && j.originID == c.id && JobsFor(origins, c, at) == [j]
  {
    if candidates != [] {
      var n := |candidates| - 1;
      JobOwners(origins, candidates[..n], at);
      assert candidates == candidates[..n] + [candidates[n]];
    }
  }

  // Jobs of the same origin are the same job.
  lemma {:induction false} JobsComparable(origins: seq<OriginRecord>, candidates: seq<Candidate>, at: int)
    ensures Comparable(JobBefore, AllJobs(origins, candidates, at))
  {
    JobOrder();
    hide JobBefore;
    if candidates != [] {
      var n := |candidates| - 1;
      JobsComparable(origins, candidates[..n], at);
      JobOwners(origins, candidates[..n], at);
      var before := AllJobs(origins, candidates[..n], at);
      forall i | 0 <= i < |before| && before[i].originID == candidates[n].id
        ensures JobsFor(origins, candidates[n], at) == [before[i]]
      {
        assert before[i] in before;
        var c :| c in candidates[..n] && before[i].originID == c.id && JobsFor(origins, c, at) == [before[i]];
      }
    }
  }

  lemma DecisionsComparable(origins: seq<OriginRecord>, candidates: seq<Candidate>, at: int)
    ensures Comparable(DecisionBefore, AllDecisions(origins, candidates, at))
  {
    DecisionOrder();
    hide DecisionBefore;
  }

  /** The loop over the candidates, then the two sorts. Public records are looked up in a table
    * filled from the registry. */
  method BuildDryRunFrontier(
    x: Checks, candidates: seq<Candidate>, policyOrigins: seq<Bytes>, origins: seq<OriginRecord>, at: int)
    returns (p: Option<Plan>)
    ensures p.Some? <==> ValidRegistry(x, candidates, policyOrigins, origins)
    ensures p.Some? ==> IsPlan(p.value, origins, candidates, at)
  {
    hide ValidRegistry, JobBefore, DecisionBefore, StrictOrder;
    var ok := ValidateRegistry(x, candidates, policyOrigins, origins);
    if !ok {
      return None;
    }
    RegistryPriced(x, candidates, policyOrigins, origins);
    var publicRecords := CollectPublic(origins);
    var decisions: seq<Decision> := [];
    var jobs: seq<Job> := [];
    for i := 0 to |candidates|
      invariant decisions == AllDecisions(origins, candidates[..i], at)
      invariant jobs == AllJobs(origins, candidates[..i], at)
    {
      var c := candidates[i];
      NextCandidate(origins, candidates, i, at);
      if c.id !in publicRecords {
        decisions := decisions + [Decision(c.id, CatalogReviewPending)];
        assert jobs == jobs + [];
        continue;
      }
      var r := publicRecords[c.id];
      var action := Decide(r, at);
      decisions := decisions + [Decision(r.id, action)];
      if action.Schedule? {
        jobs := jobs + [JobFor(r, action.due)];
      } else {
        assert jobs == jobs + [];
      }
    }
    assert candidates[..|candidates|] == candidates;
    DecisionsComparable(origins, candidates, at);
    JobsComparable(origins, candidates, at);
    DecisionOrder();
    JobOrder();
    decisions := SortBy(DecisionBefore, decisions);
    jobs := SortBy(JobBefore, jobs);
    p := Some(Plan(decisions, jobs));
  }

  /** The table of public records by ID; a later record replaces an earlier one. */
  method CollectPublic(origins: seq<OriginRecord>) returns (m: map<Bytes, OriginRecord>)
    ensures forall id :: (id in m <==> PublicRecord(origins, id).Some?)
                         && (id in m ==> PublicRecord(origins, id) == Some(m[id]))
  {
    m := map[];
    for i := 0 to |origins|
      invariant forall id :: (id in m <==> PublicRecord(origins[..i], id).Some?)
                             && (id in m ==> PublicRecord(origins[..i], id) == Some(m[id]))
    {
      assert origins[..i + 1][..i] == origins[..i];
      if origins[i].scope == GenesisPublic {
        m := m[origins[i].id := origins[i]];
      }
    }
    assert origins[..|origins|] == origins;
  }

  /** The decision for one public record, in the order of the checks. */
  method Decide(r: OriginRecord, at: int) returns (action: Action)
    ensures action == ActionFor(r, at)
  {
    if r.review != Completed {
      return PolicyReviewPending;
    }
    if r.decision != PermitLive && r.decision != PermitWithConstraints {
      return PolicyNotLivePermitted;
    }
    if r.scheduler.mode.Disabled? {
      return SchedulerDisabled;
    }
    if r.scheduler.cooldownUntil.Some? && r.scheduler.cooldownUntil.value > at {
      return DeferCooldown(r.scheduler.cooldownUntil.value);
    }
    var due := at;
    if r.scheduler.lastAttempt.Some? {
      due := r.scheduler.lastAttempt.value + RefreshInterval(r.refreshClass);
    }
    action := if due > at then DeferNotDue(due) else Schedule(due);
  }

  lemma NextCandidate(origins: seq<OriginRecord>, candidates: seq<Candidate>, i: nat, at: int)
    requires i < |candidates| && Priced(origins)
    ensures AllDecisions(origins, candidates[..i + 1], at)
            == AllDecisions(origins, candidates[..i], at) + [DecisionFor(origins, candidates[i], at)]
    ensures AllJobs(origins, candidates[..i + 1], at)
            == AllJobs(origins, candidates[..i], at) + JobsFor(origins, candidates[i], at)
    ensures var r := PublicRecord(origins, candidates[i].id);
            JobsFor(origins, candidates[i], at)
            == if r.Some? && ActionFor(r.value, at).Schedule? then [JobFor(r.value, ActionFor(r.value, at).due)] else []
    ensures var r := PublicRecord(origins, candidates[i].id);
            r.Some? && ActionFor(r.value, at).Schedule? ==> r.value.scheduler.estimatedRequestCost > 0
  {
    assert candidates[..i + 1][..i] == candidates[..i];
  }

  lemma RegistryPriced(x: Checks, candidates: seq<Candidate>, policyOrigins: seq<Bytes>, origins: seq<OriginRecord>)
    requires ValidRegistry(x, candidates, policyOrigins, origins)
    ensures Priced(origins)
    ensures forall r :: r in origins ==> ValidRecord(x, r)
  {
    hide ExecutionIDs, NoRepeats, IDs, CanonicalOrigins, Less;
    forall r | r in origins ensures ValidRecord(x, r) {
      var i :| 0 <= i < |origins| && origins[i] == r;
      assert AdmissibleRecord(x, candidates, origins[i]);
    }
  }

  // ----- what every plan guarantees ------------------------------------------

  /** The plan does not depend on the order in which the candidates are listed. */
  lemma OrderFree(
    p: Plan, q: Plan, origins: seq<OriginRecord>, candidates: seq<Candidate>, reordered: seq<Candidate>, at: int)
    requires multiset(candidates) == multiset(reordered)
    requires IsPlan(p, origins, candidates, at) && IsPlan(q, origins, reordered, at)
    ensures p == q
  {
    hide JobBefore, DecisionBefore, StrictOrder;
    SameParts(origins, candidates, reordered, at);
    DecisionOrder();
    JobOrder();
    SortedUniquely(DecisionBefore, p.decisions, q.decisions);
    SortedUniquely(JobBefore, p.jobs, q.jobs);
  }

  // Decisions and jobs are taken candidate by candidate, so a permutation permutes them.
  lemma {:induction false} SameParts(origins: seq<OriginRecord>, a: seq<Candidate>, b: seq<Candidate>, at: int)
    requires multiset(a) == multiset(b)
    ensures multiset(AllDecisions(origins, a, at)) == multiset(AllDecisions(origins, b, at))
    ensures multiset(AllJobs(origins, a, at)) == multiset(AllJobs(origins, b, at))
    decreases |a|
  {
    hide DecisionFor, JobsFor, AllDecisions, AllJobs;
    assert |multiset(a)| == |a| && |multiset(b)| == |b|;
    if a == [] {
      assert b == [];
    } else {
      var n := |a| - 1;
      var last := a[n];
      assert last in multiset(b);
      var k :| 0 <= k < |b| && b[k] == last;
      var others := b[..k] + b[k + 1..];
      WithoutLast(a, b, k);
      assert a == a[..n] + [last];
      assert b == b[..k] + [last] + b[k + 1..];
      SameParts(origins, a[..n], others, at);
      PartsEnd(origins, a[..n], last, at);
      PartsMiddle(origins, b[..k], last, b[k + 1..], at);
    }
  }

  lemma PartsEnd(origins: seq<OriginRecord>, a: seq<Candidate>, c: Candidate, at: int)
    ensures AllDecisions(origins, a + [c], at) == AllDecisions(origins, a, at) + [DecisionFor(origins, c, at)]
    ensures AllJobs(origins, a + [c], at) == AllJobs(origins, a, at) + JobsFor(origins, c, at)
  {
    assert (a + [c])[..|a|] == a;
  }

  lemma {:induction false} PartsMiddle(origins: seq<OriginRecord>, a: seq<Candidate>, c: Candidate, b: seq<Candidate>, at: int)
    ensures multiset(AllDecisions(origins, a + [c] + b, at))
            == multiset(AllDecisions(origins, a + b, at)) + multiset{DecisionFor(origins, c, at)}
    ensures multiset(AllJobs(origins, a + [c] + b, at))
            == multiset(AllJobs(origins, a + b, at)) + multiset(JobsFor(origins, c, at))
    decreases |b|
  {
    hide DecisionFor, JobsFor;
    if b == [] {
      assert a + [c] + b == a + [c] && a + b == a;
      PartsEnd(origins, a, c, at);
    } else {
      var n := |b| - 1;
      PartsMiddle(origins, a, c, b[..n], at);
      assert a + [c] + b == (a + [c] + b[..n]) + [b[n]] && a + b == (a + b[..n]) + [b[n]];
      hide AllDecisions, AllJobs;
      PartsEnd(origins, a + [c] + b[..n], b[n], at);
      PartsEnd(origins, a + b[..n], b[n], at);
    }
  }

  /** Exactly one decision per candidate: as many decisions as candidates, the one of each
    * candidate among them, and for candidates with different IDs none for an origin twice. */
  lemma OneDecisionEach(p: Plan, origins: seq<OriginRecord>, candidates: seq<Candidate>, at: int)
    requires IsPlan(p, origins, candidates, at)
    ensures |p.decisions| == |candidates|
    ensures DistinctCandidates(candidates) ==>
              forall i, j :: 0 <= i < j < |p.decisions| ==> p.decisions[i].originID != p.decisions[j].originID
    ensures forall d :: d in p.decisions <==> exists c :: c in candidates && d == DecisionFor(origins, c, at)
  {
    hide JobBefore, DecisionFor, Less;
    var all := AllDecisions(origins, candidates, at);
    assert |multiset(p.decisions)| == |p.decisions| && |multiset(all)| == |all|;
    if DistinctCandidates(candidates) {
      DecisionsApart(origins, candidates, at);
      PermutedApart(all, p.decisions);
      forall i, j | 0 <= i < j < |p.decisions| ensures p.decisions[i].originID != p.decisions[j].originID {
        assert DecisionBefore(p.decisions[i], p.decisions[j]);
        LessIrreflexive(p.decisions[i].originID);
      }
    }
    forall d ensures d in p.decisions <==> exists c :: c in candidates && d == DecisionFor(origins, c, at) {
      assert d in p.decisions <==> d in multiset(p.decisions);
      assert d in all <==> d in multiset(all);
      DecisionMembers(origins, candidates, at, d);
    }
  }

  lemma DecisionsApart(origins: seq<OriginRecord>, candidates: seq<Candidate>, at: int)
    requires DistinctCandidates(candidates)
    ensures Unrepeated(AllDecisions(origins, candidates, at))
  {
    var all := AllDecisions(origins, candidates, at);
    forall i, j | 0 <= i < j < |all| ensures all[i] != all[j] {
      assert all[i].originID == candidates[i].id && all[j].originID == candidates[j].id;
    }
  }

  lemma DecisionMembers(origins: seq<OriginRecord>, candidates: seq<Candidate>, at: int, d: Decision)
    ensures d in AllDecisions(origins, candidates, at) <==> exists c :: c in candidates && d == DecisionFor(origins, c, at)
  {
    hide DecisionFor;
    var all := AllDecisions(origins, candidates, at);
    if c :| c in candidates && d == DecisionFor(origins, c, at) {
      var i :| 0 <= i < |candidates| && candidates[i] == c;
      assert all[i] == d;
    }
    if d in all {
      var i :| 0 <= i < |all| && all[i] == d;
      assert candidates[i] in candidates;
    }
  }

  /** The jobs are exactly those of the scheduled candidates. */
  lemma JobsAreScheduled(p: Plan, origins: seq<OriginRecord>, candidates: seq<Candidate>, at: int, j: Job)
    requires IsPlan(p, origins, candidates, at)
    ensures j in p.jobs <==> exists c :: c in candidates && JobsFor(origins, c, at) == [j]
  {
    hide DecisionBefore, JobBefore, JobsFor;
    assert j in p.jobs <==> j in multiset(p.jobs);
    assert j in AllJobs(origins, candidates, at) <==> j in multiset(AllJobs(origins, candidates, at));
    JobMembers(origins, candidates, at, j);
  }

  lemma {:induction false} JobMembers(origins: seq<OriginRecord>, candidates: seq<Candidate>, at: int, j: Job)
    ensures j in AllJobs(origins, candidates, at) <==> exists c :: c in candidates && JobsFor(origins, c, at) == [j]
  {
    if candidates != [] {
      var n := |candidates| - 1;
      JobMembers(origins, candidates[..n], at, j);
      assert candidates == candidates[..n] + [candidates[n]];
      JobsForShape(origins, candidates[n], at);
      hide JobsFor;
    }
  }

  lemma JobsForShape(origins: seq<OriginRecord>, c: Candidate, at: int)
    ensures |JobsFor(origins, c, at)| <= 1
  {
  }

  /** Safety: in the plan of a valid registry every job is for a public record with a completed
    * policy that permits live access, in no suspended or revoked state, with a due time that has
    * come and no cooldown running; and its priority is positive and fits 64 bits, as does the
    * product it is computed from. */
  lemma JobsAreSafe(
    x: Checks, p: Plan, origins: seq<OriginRecord>, candidates: seq<Candidate>, policyOrigins: seq<Bytes>, at: int, j: Job)
    requires ValidRegistry(x, candidates, policyOrigins, origins) && IsPlan(p, origins, candidates, at) && j in p.jobs
    ensures exists r :: r in origins && r.scope == GenesisPublic && r.id == j.originID
              && r.review == Completed && PermitsLive(r.decision) && !Withdrawn(r) && !r.scheduler.mode.Disabled?
              && j.dueAt <= at && (r.scheduler.cooldownUntil.Some? ==> r.scheduler.cooldownUntil.value <= at)
              && j == JobFor(r, j.dueAt)
              && 1 <= j.priority <= FactorProduct(r.scheduler) <= MAX_INT64
  {
    hide ValidRegistry, DecisionBefore, JobBefore, IsPlan, Withdrawn, FactorProduct, Priority;
    RegistryPriced(x, candidates, policyOrigins, origins);
    JobsAreScheduled(p, origins, candidates, at, j);
    var c :| c in candidates && JobsFor(origins, c, at) == [j];
    var r := PublicRecord(origins, c.id).value;
    assert ValidRecord(x, r);
    PriorityFits(r.scheduler, r.refreshClass, r.requestBudget, r.storageBudget);
  }

  lemma PriorityFits(s: Scheduler, refresh: RefreshClass, requestBudget: int, storageBudget: int)
    requires ValidScheduler(s, refresh, requestBudget, storageBudget) && !s.mode.Disabled?
    ensures 1 <= Priority(s) <= FactorProduct(s) <= 10_000_000_000
  {
    var a := s.publicValue * s.semanticNovelty;
    Bound(s.publicValue, s.semanticNovelty, 100, 100);
    Bound(a, s.demonstratedDemand, 10_000, 100);
    Bound(a * s.demonstratedDemand, s.changeProbability, 1_000_000, 100);
    Bound(a * s.demonstratedDemand * s.changeProbability, s.healthNeed, 100_000_000, 100);
    Quotient(FactorProduct(s), s.estimatedRequestCost);
  }

  lemma Bound(x: int, y: int, xMax: int, yMax: int)
    requires 1 <= x <= xMax && 1 <= y <= yMax
    ensures 1 <= x * y <= xMax * yMax
  {
    assert x * y <= xMax * y <= xMax * yMax;
    assert (x - 1) * y >= 0;
  }

  lemma Quotient(x: int, y: int)
    requires x >= 1 && y >= 1
    ensures 0 <= x / y <= x
  {
  }

  /** What is scheduled at one time is still scheduled at any later time. */
  lemma ScheduledStays(origins: seq<OriginRecord>, c: Candidate, at: int, later: int)
    requires at <= later && DecisionFor(origins, c, at).action.Schedule?
    ensures DecisionFor(origins, c, later).action.Schedule?
  {
    assert PublicRecord(origins, c.id).Some?;
  }

  /** Every origin with a job at one time has a job at any later time. */
  lemma JobsStay(
    p: Plan, q: Plan, origins: seq<OriginRecord>, candidates: seq<Candidate>, at: int, later: int, j: Job)
    requires IsPlan(p, origins, candidates, at) && IsPlan(q, origins, candidates, later) && at <= later && j in p.jobs
    ensures exists k :: k in q.jobs && k.originID == j.originID && k.priority == j.priority
  {
    hide IsPlan, Priority;
    JobsAreScheduled(p, origins, candidates, at, j);
    var c :| c in candidates && JobsFor(origins, c, at) == [j];
    ScheduledStays(origins, c, at, later);
    var k := JobsFor(origins, c, later)[0];
    JobsAreScheduled(q, origins, candidates, later, k);
    assert JobsFor(origins, c, later) == [k];
  }
}
