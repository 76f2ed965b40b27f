/** What a frontier plan says, in terms of the registry records alone. */
module FrontierMeaning {
  // Every decision and every job is explained by the public record of its candidate, with refresh
  // intervals in hours and the priority as a rounded quotient.

  import opened Wrappers
  import opened ByteStrings
  import opened AtlasState
  import opened Sorting
  import opened Frontier

  // ----- what a record calls for ---------------------------------------------

  const NANOSECONDS_PER_HOUR: int := 3_600_000_000_000

  /** The hours between attempts. */
  function Hours(c: RefreshClass): int {
    match c
    case Hot => 1
    case Warm => 24
    case Cool => 168
    case Archival => 720
    case NoRefresh => 0
  }

  predicate Approved(r: OriginRecord) {
    r.review == Completed && r.decision in {PermitLive, PermitWithConstraints}
  }

  predicate CoolingDown(r: OriginRecord, at: int) {
    r.scheduler.cooldownUntil.Some? && at < r.scheduler.cooldownUntil.value
  }

  /** The time of the next attempt: at once if there was none, and otherwise an interval later. */
  predicate NextAttempt(r: OriginRecord, at: int, due: int) {
    match r.scheduler.lastAttempt
    case None => due == at
    case Some(last) => due - last == Hours(r.refreshClass) * NANOSECONDS_PER_HOUR
  }

  /** Why a decision was taken about a candidate with that public record. */
  predicate Explains(action: Action, record: Option<OriginRecord>, at: int) {
    match record
    case None => action.CatalogReviewPending?
    case Some(r) =>
      match action
      case CatalogReviewPending => false
      case PolicyReviewPending => r.review != Completed
      case PolicyNotLivePermitted => r.review == Completed && !Approved(r)
      case SchedulerDisabled => Approved(r) && r.scheduler.mode.Disabled?
      case DeferCooldown(until) =>
        Approved(r) && !r.scheduler.mode.Disabled? && CoolingDown(r, at) && Some(until) == r.scheduler.cooldownUntil
      case DeferNotDue(due) =>
        Approved(r) && !r.scheduler.mode.Disabled? && !CoolingDown(r, at) && NextAttempt(r, at, due) && due > at
      case Schedule(due) =>
        Approved(r) && !r.scheduler.mode.Disabled? && !CoolingDown(r, at) && NextAttempt(r, at, due) && due <= at
  }

  /** A record is in one of these situations only. */
  lemma OneExplanation(a: Action, b: Action, record: Option<OriginRecord>, at: int)
    requires Explains(a, record, at) && Explains(b, record, at)
    ensures a == b
  {
  }

  /** The public record of an ID in the registry. */
  ghost predicate IsPublicRecord(origins: seq<OriginRecord>, id: Bytes, record: Option<OriginRecord>) {
    match record
    case None => forall r :: r in origins && r.scope == GenesisPublic ==> r.id != id
    case Some(r) => r in origins && r.scope == GenesisPublic && r.id == id
  }

  lemma DecisionExplained(origins: seq<OriginRecord>, c: Candidate, at: int)
    ensures IsPublicRecord(origins, c.id, PublicRecord(origins, c.id))
    ensures DecisionFor(origins, c, at).originID == c.id
    ensures Explains(DecisionFor(origins, c, at).action, PublicRecord(origins, c.id), at)
  {
    hide PublicRecord;
  }

  /** Every decision of a plan is about a candidate, and is explained by its public record. */
  lemma DecisionsExplained(p: Plan, origins: seq<OriginRecord>, candidates: seq<Candidate>, at: int, d: Decision)
    requires IsPlan(p, origins, candidates, at) && d in p.decisions
    ensures exists c, record ::
              c in candidates && c.id == d.originID && IsPublicRecord(origins, c.id, record) && Explains(d.action, record, at)
  {
    hide IsPlan, DecisionFor, Explains, PublicRecord, IsPublicRecord;
    OneDecisionEach(p, origins, candidates, at);
    var c :| c in candidates && d == DecisionFor(origins, c, at);
    DecisionExplained(origins, c, at);
  }

  // ----- jobs ----------------------------------------------------------------

  /** The priority is the product of the five factors over the cost, rounded down, but at least one. */
  predicate Ranks(priority: int, s: Scheduler) {
    var product := s.publicValue * s.semanticNovelty * s.demonstratedDemand * s.changeProbability * s.healthNeed;
    && 1 <= priority && product < (priority + 1) * s.estimatedRequestCost
    && (priority == 1 || priority * s.estimatedRequestCost <= product)
  }

  lemma PriorityRanks(s: Scheduler)
    requires s.estimatedRequestCost > 0 && FactorProduct(s) >= 0
    ensures Ranks(Priority(s), s)
  {
    var product, cost := FactorProduct(s), s.estimatedRequestCost;
    var q := product / cost;
    assert product == q * cost + product % cost && (q + 1) * cost == q * cost + cost;
    hide FactorProduct;
  }

  /** The job is that of a record that may be attempted now. */
  predicate Earned(j: Job, r: OriginRecord, at: int) {
    && j.originID == r.id && j.refreshClass == r.refreshClass
    && j.requestBudget == r.requestBudget && j.storageBudget == r.storageBudget
    && Explains(Schedule(j.dueAt), Some(r), at) && Ranks(j.priority, r.scheduler)
  }

  /** In the plan of a valid registry the jobs are exactly those that the public records of the
    * candidates have earned. */
  lemma JobsExactly(
    x: Checks, p: Plan, origins: seq<OriginRecord>, candidates: seq<Candidate>, policyOrigins: seq<Bytes>, at: int, j: Job)
    requires ValidRegistry(x, candidates, policyOrigins, origins) && IsPlan(p, origins, candidates, at)
    ensures j in p.jobs <==>
              exists c, r :: c in candidates && r in origins && r.scope == GenesisPublic && r.id == c.id && Earned(j, r, at)
  {
    hide ValidRegistry, IsPlan, JobsFor, Earned, PublicRecord;
    JobsAreScheduled(p, origins, candidates, at, j);
    forall c | c in candidates && JobsFor(origins, c, at) == [j]
      ensures exists r :: r in origins && r.scope == GenesisPublic && r.id == c.id && Earned(j, r, at)
    {
      JobIsEarned(x, origins, candidates, policyOrigins, c, at, j);
    }
    forall c, r | c in candidates && r in origins && r.scope == GenesisPublic && r.id == c.id && Earned(j, r, at)
      ensures JobsFor(origins, c, at) == [j]
    {
      EarnedIsJob(x, origins, candidates, policyOrigins, c, r, at, j);
    }
  }

  lemma JobIsEarned(
    x: Checks, origins: seq<OriginRecord>, candidates: seq<Candidate>, policyOrigins: seq<Bytes>, c: Candidate, at: int, j: Job)
    requires ValidRegistry(x, candidates, policyOrigins, origins) && JobsFor(origins, c, at) == [j]
    ensures PublicRecord(origins, c.id).Some? && Earned(j, PublicRecord(origins, c.id).value, at)
  {
    hide ValidRegistry, PublicRecord, Ranks, Priority;
    DecisionExplained(origins, c, at);
    var r := PublicRecord(origins, c.id).value;
    FactorsPositive(x, candidates, policyOrigins, origins, r);
    PriorityRanks(r.scheduler);
  }

  lemma FactorsPositive(
    x: Checks, candidates: seq<Candidate>, policyOrigins: seq<Bytes>, origins: seq<OriginRecord>, r: OriginRecord)
    requires ValidRegistry(x, candidates, policyOrigins, origins) && r in origins && !r.scheduler.mode.Disabled?
    ensures FactorProduct(r.scheduler) >= 1 && r.scheduler.estimatedRequestCost > 0
  {
    hide ValidRegistry, FactorProduct, Priority;
    RegistryPriced(x, candidates, policyOrigins, origins);
    PriorityFits(r.scheduler, r.refreshClass, r.requestBudget, r.storageBudget);
  }

  lemma EarnedIsJob(
    x: Checks, origins: seq<OriginRecord>, candidates: seq<Candidate>, policyOrigins: seq<Bytes>, c: Candidate,
    r: OriginRecord, at: int, j: Job)
    requires ValidRegistry(x, candidates, policyOrigins, origins) && r in origins && r.scope == GenesisPublic && r.id == c.id
    requires Earned(j, r, at)
    ensures JobsFor(origins, c, at) == [j]
  {
    hide ValidRegistry, PublicRecord, Ranks, Priority;
    DecisionExplained(origins, c, at);
    SameRecord(x, candidates, policyOrigins, origins, r, PublicRecord(origins, c.id).value);
    OneExplanation(DecisionFor(origins, c, at).action, Schedule(j.dueAt), Some(r), at);
    FactorsPositive(x, candidates, policyOrigins, origins, r);
    PriorityRanks(r.scheduler);
    OneRank(j.priority, Priority(r.scheduler), r.scheduler);
  }

  // A valid registry has one record for an ID.
  lemma SameRecord(
    x: Checks, candidates: seq<Candidate>, policyOrigins: seq<Bytes>, origins: seq<OriginRecord>, r: OriginRecord, q: OriginRecord)
    requires ValidRegistry(x, candidates, policyOrigins, origins) && r in origins && q in origins && r.id == q.id
    ensures r == q
  {
    hide AdmissibleRecord, Less, CanonicalOrigins, ExecutionIDs, PublicWithID;
    var i :| 0 <= i < |origins| && origins[i] == r;
    var k :| 0 <= k < |origins| && origins[k] == q;
    assert IDs(origins)[i] == IDs(origins)[k];
  }

  lemma OneRank(a: int, b: int, s: Scheduler)
    requires s.estimatedRequestCost > 0 && Ranks(a, s) && Ranks(b, s)
    ensures a == b
  {
    if a < b {
      NoGap(a, b, s.estimatedRequestCost);
    } else if b < a {
      NoGap(b, a, s.estimatedRequestCost);
    }
  }

  lemma NoGap(a: int, b: int, cost: int)
    requires a < b && cost > 0
    ensures (a + 1) * cost <= b * cost
  {
    assert (b - a - 1) * cost >= 0;
  }

  /** Jobs come by falling priority, and by origin where it is the same; decisions come by origin. */
  lemma PlanOrder(p: Plan, origins: seq<OriginRecord>, candidates: seq<Candidate>, at: int)
    requires IsPlan(p, origins, candidates, at)
    ensures forall i, k :: 0 <= i < k < |p.jobs| && p.jobs[i] != p.jobs[k] ==>
              p.jobs[i].priority > p.jobs[k].priority
              || (p.jobs[i].priority == p.jobs[k].priority && Less(p.jobs[i].originID, p.jobs[k].originID))
    ensures forall i, k :: 0 <= i < k < |p.decisions| && p.decisions[i] != p.decisions[k] ==>
              Less(p.decisions[i].originID, p.decisions[k].originID)
  {
    hide AllDecisions, AllJobs, Less;
  }

  /** A job of higher priority stands before one of lower priority. */
  lemma HigherPriorityFirst(p: Plan, origins: seq<OriginRecord>, candidates: seq<Candidate>, at: int, i: nat, k: nat)
    requires IsPlan(p, origins, candidates, at) && i < |p.jobs| && k < |p.jobs| && p.jobs[i].priority > p.jobs[k].priority
    ensures i < k
  {
    hide IsPlan, Less;
    PlanOrder(p, origins, candidates, at);
  }
}
