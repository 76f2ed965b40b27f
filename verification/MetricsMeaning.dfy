/** What the counters of the atlas metrics say about candidates. */
module MetricsMeaning {
  import opened Wrappers
  import opened ByteStrings
  import opened AtlasState
  import opened Metrics

  /** The candidate with an ID is in a state if its public record says so, or it has none and the
    * state is the one that every candidate starts in. */
  predicate HasState<K(==)>(origins: seq<OriginRecord>, id: Bytes, f: OriginRecord -> K, default: K, k: K) {
    || (exists r :: r in origins && r.scope == GenesisPublic && r.id == id && f(r) == k)
    || (k == default && forall r :: r in origins && r.scope == GenesisPublic ==> r.id != id)
  }

  /** The candidates in a state. */
  function CandidatesIn<K(==)>(
    candidates: seq<Candidate>, origins: seq<OriginRecord>, f: OriginRecord -> K, default: K, k: K): set<Candidate>
  {
    set c | c in candidates && HasState(origins, c.id, f, default, k)
  }

  /** A counter map that gives every state the number of candidates in it. */
  ghost predicate CountsCandidates<K(!new)>(
    m: Counts<K>, candidates: seq<Candidate>, origins: seq<OriginRecord>, f: OriginRecord -> K, default: K)
  {
    forall k :: k in m && m[k] == |CandidatesIn(candidates, origins, f, default, k)|
  }

  /** In every dimension, each counter of a valid registry is the number of candidates in its state:
    * with a record, the state that the record says; without one, the starting state. */
  lemma CountersCountCandidates(
    x: Checks, candidates: seq<Candidate>, policyOrigins: seq<Bytes>, origins: seq<OriginRecord>, t: Tally)
    requires ValidSelection(candidates) && ValidRegistry(x, candidates, policyOrigins, origins)
    requires Counting(t, |candidates|, PublicRecords(origins))
    ensures CountsCandidates(t.catalog, candidates, origins, CatalogOf, CatalogCandidate)
    ensures CountsCandidates(t.review, candidates, origins, ReviewOf, Pending)
    ensures CountsCandidates(t.decision, candidates, origins, DecisionOf, Uncertain)
    ensures CountsCandidates(t.technical, candidates, origins, TechnicalOf, Unprofiled)
    ensures CountsCandidates(t.publisher, candidates, origins, PublisherOf, Unclaimed)
    ensures CountsCandidates(t.health, candidates, origins, HealthOf, HealthUnknown)
    ensures CountsCandidates(t.adapterTrust, candidates, origins, AdapterOf, AdapterNone)
    ensures CountsCandidates(t.mappingTrust, candidates, origins, MappingOf, MappingNone)
  {
    hide *;
    Scoped(x, candidates, policyOrigins, origins);
    TallyExact(t, |candidates|, PublicRecords(origins));
    StatesListed();
    CountedInDimension(candidates, origins, t.catalog, CatalogStates(), CatalogCandidate, CatalogOf);
    CountedInDimension(candidates, origins, t.review, ReviewStates(), Pending, ReviewOf);
    CountedInDimension(candidates, origins, t.decision, Decisions(), Uncertain, DecisionOf);
    CountedInDimension(candidates, origins, t.technical, TechnicalOrder(), Unprofiled, TechnicalOf);
    CountedInDimension(candidates, origins, t.publisher, PublisherStates(), Unclaimed, PublisherOf);
    CountedInDimension(candidates, origins, t.health, HealthStates(), HealthUnknown, HealthOf);
    CountedInDimension(candidates, origins, t.adapterTrust, AdapterStates(), AdapterNone, AdapterOf);
    CountedInDimension(candidates, origins, t.mappingTrust, MappingStates(), MappingNone, MappingOf);
  }

  lemma TallyExact(t: Tally, total: int, records: seq<OriginRecord>)
    requires Counting(t, total, records)
    ensures Exact(t.catalog, CatalogStates(), CatalogCandidate, total, Along(records, CatalogOf))
    ensures Exact(t.review, ReviewStates(), Pending, total, Along(records, ReviewOf))
    ensures Exact(t.decision, Decisions(), Uncertain, total, Along(records, DecisionOf))
    ensures Exact(t.technical, TechnicalOrder(), Unprofiled, total, Along(records, TechnicalOf))
    ensures Exact(t.publisher, PublisherStates(), Unclaimed, total, Along(records, PublisherOf))
    ensures Exact(t.health, HealthStates(), HealthUnknown, total, Along(records, HealthOf))
    ensures Exact(t.adapterTrust, AdapterStates(), AdapterNone, total, Along(records, AdapterOf))
    ensures Exact(t.mappingTrust, MappingStates(), MappingNone, total, Along(records, MappingOf))
  {
    hide Exact, Along;
  }

  // What counting needs of a valid selection and registry.
  predicate Matched(candidates: seq<Candidate>, origins: seq<OriginRecord>) {
    && NoRepeats(IDs(origins))
    && (forall i, j :: 0 <= i < j < |candidates| ==> candidates[i].id != candidates[j].id)
    && forall r :: r in origins && r.scope == GenesisPublic ==> exists c :: c in candidates && c.id == r.id
  }

  lemma Scoped(x: Checks, candidates: seq<Candidate>, policyOrigins: seq<Bytes>, origins: seq<OriginRecord>)
    requires ValidSelection(candidates) && ValidRegistry(x, candidates, policyOrigins, origins)
    ensures Matched(candidates, origins)
  {
    hide ValidRecord, NoRepeats, ExecutionIDs, IDs, CanonicalOrigins, Less, PolicyScoped, FindCandidate;
    forall r | r in origins && r.scope == GenesisPublic ensures exists c :: c in candidates && c.id == r.id {
      var k :| 0 <= k < |origins| && origins[k] == r;
      assert AdmissibleRecord(x, candidates, origins[k]);
      var c := FindCandidate(candidates, r.id);
      assert c.value in candidates && c.value.id == r.id;
    }
  }

  lemma CountedInDimension<K(!new)>(
    candidates: seq<Candidate>, origins: seq<OriginRecord>, m: Counts<K>, states: seq<K>, default: K, f: OriginRecord -> K)
    requires Matched(candidates, origins) && Exact(m, states, default, |candidates|, Along(PublicRecords(origins), f))
    requires forall k: K :: k in states
    ensures CountsCandidates(m, candidates, origins, f, default)
  {
    hide Matched, Along, PublicRecords, InState, CandidatesIn;
    forall k: K ensures k in m && m[k] == |CandidatesIn(candidates, origins, f, default, k)| {
      CountedInState(candidates, origins, default, f, k);
    }
  }

  /** The public IDs whose records say a state. */
  function Saying<K(==)>(origins: seq<OriginRecord>, f: OriginRecord -> K, k: K): set<Bytes> {
    set r | r in origins && r.scope == GenesisPublic && f(r) == k :: r.id
  }

  function Known(origins: seq<OriginRecord>): set<Bytes> {
    set r | r in origins && r.scope == GenesisPublic :: r.id
  }

  function IDsOf(some: set<Candidate>): set<Bytes> {
    set c | c in some :: c.id
  }

  function All(candidates: seq<Candidate>): set<Candidate> {
    set c | c in candidates
  }

  lemma CountedInState<K>(candidates: seq<Candidate>, origins: seq<OriginRecord>, default: K, f: OriginRecord -> K, k: K)
    requires Matched(candidates, origins)
    ensures InState(default, |candidates|, Along(PublicRecords(origins), f), k)
            == |CandidatesIn(candidates, origins, f, default, k)|
  {
    hide Occurrences, PublicRecords, IDs, NoRepeats, IDSet, CandidateIDs, Known, Saying, All, IDsOf, HasState;
    var some := CandidatesIn(candidates, origins, f, default, k);
    SayingCounted(origins, f, k);
    DistinctRecords(origins);
    KnownIDs(origins);
    DistinctCandidates(candidates);
    Identified(candidates, some);
    AllListed(candidates);
    Identified(candidates, All(candidates));
    SplitIDs(candidates, origins, default, f, k);
  }

  lemma AllListed(candidates: seq<Candidate>)
    ensures forall c :: c in All(candidates) <==> c in candidates
  {
  }

  lemma KnownIDs(origins: seq<OriginRecord>)
    ensures IDSet(PublicRecords(origins)) == Known(origins)
  {
  }

  lemma SplitIDs<K>(candidates: seq<Candidate>, origins: seq<OriginRecord>, default: K, f: OriginRecord -> K, k: K)
    requires Matched(candidates, origins)
    ensures |IDsOf(CandidatesIn(candidates, origins, f, default, k))|
            == |Saying(origins, f, k)| + if k == default then |IDsOf(All(candidates))| - |Known(origins)| else 0
  {
    hide NoRepeats, IDs;
    var said, known, all := Saying(origins, f, k), Known(origins), IDsOf(All(candidates));
    var ids := IDsOf(CandidatesIn(candidates, origins, f, default, k));
    forall id | id in known ensures id in all {
      var r :| r in origins && r.scope == GenesisPublic && r.id == id;
    }
    forall id ensures id in ids <==> id in said || (k == default && id in all && id !in known) {
      StateOf(candidates, origins, default, f, k, id);
    }
    Parts(ids, said, known, all, k == default);
  }

  lemma StateOf<K>(candidates: seq<Candidate>, origins: seq<OriginRecord>, default: K, f: OriginRecord -> K, k: K, id: Bytes)
    requires Matched(candidates, origins)
    ensures id in IDsOf(CandidatesIn(candidates, origins, f, default, k))
            <==> id in Saying(origins, f, k) || (k == default && id in IDsOf(All(candidates)) && id !in Known(origins))
  {
    hide NoRepeats, IDs;
    if id in Saying(origins, f, k) {
      var r :| r in origins && r.scope == GenesisPublic && f(r) == k && r.id == id;
      var c :| c in candidates && c.id == id;
      assert HasState(origins, c.id, f, default, k);
      assert c in CandidatesIn(candidates, origins, f, default, k);
    }
  }

  lemma Parts(ids: set<Bytes>, said: set<Bytes>, known: set<Bytes>, all: set<Bytes>, started: bool)
    requires known <= all && said <= known
    requires forall id :: id in ids <==> id in said || (started && id in all && id !in known)
    ensures |ids| == |said| + if started then |all| - |known| else 0
  {
    assert ids == said + if started then all - known else {};
    assert all == known + (all - known);
  }

  // A set of candidates is as large as the set of its IDs.
  lemma {:induction false} Identified(candidates: seq<Candidate>, some: set<Candidate>)
    requires forall i, j :: 0 <= i < j < |candidates| ==> candidates[i].id != candidates[j].id
    requires forall c :: c in some ==> c in candidates
    ensures |IDsOf(some)| == |some|
    decreases |some|
  {
    if c :| c in some {
      var rest := some - {c};
      Identified(candidates, rest);
      forall d | d in rest && d.id == c.id ensures d == c {
        SameCandidate(candidates, c, d);
      }
      assert some == rest + {c};
      assert IDsOf(some) == IDsOf(rest) + {c.id};
    }
  }

  lemma SameCandidate(candidates: seq<Candidate>, c: Candidate, d: Candidate)
    requires forall i, j :: 0 <= i < j < |candidates| ==> candidates[i].id != candidates[j].id
    requires c in candidates && d in candidates && c.id == d.id
    ensures c == d
  {
    var i :| 0 <= i < |candidates| && candidates[i] == c;
    var j :| 0 <= j < |candidates| && candidates[j] == d;
  }

  lemma {:induction false} DistinctCandidates(candidates: seq<Candidate>)
    requires forall i, j :: 0 <= i < j < |candidates| ==> candidates[i].id != candidates[j].id
    ensures |All(candidates)| == |candidates|
  {
    if candidates != [] {
      var n := |candidates| - 1;
      DistinctCandidates(candidates[..n]);
      assert candidates[n] !in candidates[..n];
      assert All(candidates) == All(candidates[..n]) + {candidates[n]};
    } else {
      assert All(candidates) == {};
    }
  }

  lemma {:induction false} SayingCounted<K>(origins: seq<OriginRecord>, f: OriginRecord -> K, k: K)
    requires NoRepeats(IDs(origins))
    ensures Occurrences(Along(PublicRecords(origins), f), k) == |Saying(origins, f, k)|
  {
    hide *;
    if origins == [] {
      NoneSaying(f, k);
    } else {
      var n := |origins| - 1;
      var init, last := origins[..n], origins[n];
      assert origins[..n + 1] == origins == init + [last];
      PrefixTables(origins, n);
      RepeatEnd(IDs(init), last.id);
      SayingCounted(init, f, k);
      PublicEnd(init, last);
      SayingEnd(init, last, f, k);
      NotSaid(init, f, k, last.id);
      if last.scope == GenesisPublic {
        AlongEnd(PublicRecords(init), last, f);
        OccurrencesEnd(Along(PublicRecords(init), f), f(last), k);
      }
    }
  }

  lemma PublicEnd(init: seq<OriginRecord>, last: OriginRecord)
    ensures PublicRecords(init + [last]) == if last.scope == GenesisPublic then PublicRecords(init) + [last] else PublicRecords(init)
  {
    assert (init + [last])[..|init|] == init && PublicRecords(init) + [] == PublicRecords(init);
  }

  lemma NoneSaying<K>(f: OriginRecord -> K, k: K)
    ensures Occurrences(Along(PublicRecords([]), f), k) == |Saying([], f, k)|
  {
    assert Along(PublicRecords([]), f) == [] && Saying([], f, k) == {};
  }

  lemma SayingEnd<K>(init: seq<OriginRecord>, last: OriginRecord, f: OriginRecord -> K, k: K)
    ensures Saying(init + [last], f, k)
            == Saying(init, f, k) + if last.scope == GenesisPublic && f(last) == k then {last.id} else {}
  {
  }

  lemma NotSaid<K>(origins: seq<OriginRecord>, f: OriginRecord -> K, k: K, id: Bytes)
    requires id !in IDs(origins)
    ensures id !in Saying(origins, f, k)
  {
    hide IDs;
    if id in Saying(origins, f, k) {
      var r :| r in origins && r.id == id;
      RecordID(origins, r);
    }
  }
}
