/** The token-bucket limiter of the lab server (internal/labapi/server.go). */
module Limiter {
  // A bounded table of buckets is refilled by elapsed time, and idle buckets are evicted only
  // when a new key needs their room. Times are real minutes. A limiter whose table never loses a
  // bucket is the reference.

  import opened Wrappers

  // A tracked key is idle once it was last used more than this many minutes ago.
  const IDLE := 10.0

  datatype Bucket = Bucket(tokens: real, last: real)

  type Table = map<string, Bucket>

  /** Requests per minute and burst size that the callers use for one key. */
  datatype Policy = Policy(rate: real, burst: real)

  datatype Call = Call(key: string, now: real)

  datatype Decision = Granted | Exhausted | NoRoom

  // ----- one call

  function Refill(b: Bucket, p: Policy, now: real): Bucket {
    var elapsed := now - b.last;
    var grown := b.tokens + elapsed * p.rate;
    Bucket(if elapsed <= 0.0 then b.tokens else if grown > p.burst then p.burst else grown, now)
  }

  function Spend(b: Bucket): (Bucket, Decision) {
    if b.tokens < 1.0 then (b, Exhausted) else (b.(tokens := b.tokens - 1.0), Granted)
  }

  function Trim(t: Table, now: real): Table {
    map k | k in t && now - t[k].last <= IDLE :: t[k]
  }

  // What a call does to the table and what it answers.
  function Step(t: Table, maximum: nat, p: Policy, c: Call): (Table, Decision) {
    var room := if c.key !in t && |t| >= maximum then Trim(t, c.now) else t;
    if c.key !in t && |room| >= maximum then (room, NoRoom) else FreeStep(room, p, c)
  }

  // The same call on a table that never evicts and has no bound.
  function FreeStep(t: Table, p: Policy, c: Call): (Table, Decision) {
    var current := if c.key in t then t[c.key] else Bucket(p.burst, c.now);
    var spent := Spend(Refill(current, p, c.now));
    (t[c.key := spent.0], spent.1)
  }

  /** The limiter object; its lock makes every call one atomic step. */
  class TokenLimiter {
    var buckets: Table
    const maximum: nat

    constructor (maximum: nat)
      ensures buckets == map[] && this.maximum == maximum
    {
      buckets := map[];
      this.maximum := maximum;
    }

    method Allow(key: string, perMinute: real, burst: real, now: real) returns (ok: bool)
      modifies this`buckets
      ensures buckets == Step(old(buckets), maximum, Policy(perMinute, burst), Call(key, now)).0
      ensures ok == Step(old(buckets), maximum, Policy(perMinute, burst), Call(key, now)).1.Granted?
    {
      var current := Bucket(burst, now);
      if key in buckets {
        current := buckets[key];
      } else if |buckets| >= maximum {
        EvictIdle(now);
        if |buckets| >= maximum {
          return false;
        }
      }
      ghost var p, start := Policy(perMinute, burst), current;
      var elapsed := now - current.last;
      if elapsed > 0.0 {
        current := current.(tokens := current.tokens + elapsed * perMinute);
        if current.tokens > burst {
          current := current.(tokens := burst);
        }
      }
      current := current.(last := now);
      assert current == Refill(start, p, now);
      hide Refill;
      if current.tokens < 1.0 {
        buckets := buckets[key := current];
        return false;
      }
      current := current.(tokens := current.tokens - 1.0);
      buckets := buckets[key := current];
      return true;
    }

    method EvictIdle(now: real)
      modifies this`buckets
      ensures buckets == Trim(old(buckets), now)
    {
      var pending := buckets.Keys;
      while pending != {}
        invariant pending <= buckets.Keys <= old(buckets).Keys
        invariant forall k :: k in buckets ==> buckets[k] == old(buckets)[k]
        invariant forall k :: k in old(buckets) && k !in pending ==>
                    (k in buckets <==> now - old(buckets)[k].last <= IDLE)
        decreases |pending|
      {
        var candidate :| candidate in pending;
        if now - buckets[candidate].last > IDLE {
          buckets := buckets - {candidate};
        }
        pending := pending - {candidate};
      }
    }
  }

  // ----- whole runs

  type Policies = string -> Policy

  // Times never go back over a run.
  ghost predicate Ordered(calls: seq<Call>) {
    forall i, j :: 0 <= i < j < |calls| ==> calls[i].now <= calls[j].now
  }

  ghost predicate After(calls: seq<Call>, now: real) {
    forall c :: c in calls ==> c.now <= now
  }

  ghost function Before(calls: seq<Call>): seq<Call>
    requires calls != []
  {
    calls[..|calls| - 1]
  }

  // The table after a run that starts from an empty one.
  ghost function Run(maximum: nat, policy: Policies, calls: seq<Call>): Table {
    if calls == [] then map[]
    else var c := calls[|calls| - 1];
         Step(Run(maximum, policy, Before(calls)), maximum, policy(c.key), c).0
  }

  // The answer to the last call of a run.
  ghost function Answer(maximum: nat, policy: Policies, calls: seq<Call>): Decision
    requires calls != []
  {
    var c := calls[|calls| - 1];
    Step(Run(maximum, policy, Before(calls)), maximum, policy(c.key), c).1
  }

  // The calls of a run that were not refused for lack of room.
  ghost function Kept(maximum: nat, policy: Policies, calls: seq<Call>): seq<Call> {
    if calls == [] then []
    else Kept(maximum, policy, Before(calls)) +
         if Answer(maximum, policy, calls).NoRoom? then [] else [calls[|calls| - 1]]
  }

  ghost function FreeRun(policy: Policies, calls: seq<Call>): Table {
    if calls == [] then map[]
    else var c := calls[|calls| - 1];
         FreeStep(FreeRun(policy, Before(calls)), policy(c.key), c).0
  }

  ghost function FreeAnswer(policy: Policies, calls: seq<Call>): Decision
    requires calls != []
  {
    var c := calls[|calls| - 1];
    FreeStep(FreeRun(policy, Before(calls)), policy(c.key), c).1
  }

  // The grants that one key got at times within [from, to].
  ghost function Grants(maximum: nat, policy: Policies, calls: seq<Call>,
                        key: string, from: real, to: real): nat
  {
    if calls == [] then 0
    else var c := calls[|calls| - 1];
         Grants(maximum, policy, Before(calls), key, from, to) +
         if c.key == key && from <= c.now <= to && Answer(maximum, policy, calls).Granted? then 1 else 0
  }

  // A full bucket refills within the idle time.
  ghost predicate Replenishes(p: Policy) {
    0.0 <= p.burst <= IDLE * p.rate
  }

  // ----- the level of a bucket, tracked or not

  // The tokens a key would have at a time: a key that is not tracked has a full bucket.
  ghost function Level(t: Table, p: Policy, key: string, now: real): real {
    if key in t then Refill(t[key], p, now).tokens else p.burst
  }

  // What every reachable table keeps for one key.
  ghost predicate Sound(t: Table, p: Policy, key: string, now: real) {
    key in t ==> 0.0 <= t[key].tokens <= p.burst && t[key].last <= now
  }

  // The tokens that flow in between two times.
  ghost function Inflow(p: Policy, from: real, to: real): real {
    (to - from) * p.rate
  }

  lemma InflowSplit(p: Policy, from: real, mid: real, to: real)
    requires from <= mid <= to && 0.0 <= p.rate
    ensures 0.0 <= Inflow(p, from, mid) && 0.0 <= Inflow(p, mid, to)
    ensures Inflow(p, from, to) == Inflow(p, from, mid) + Inflow(p, mid, to)
  {
    Product(mid - from, p.rate);
    Product(to - mid, p.rate);
    Distribute(mid - from, to - mid, p.rate);
  }

  lemma Product(x: real, y: real)
    requires 0.0 <= x && 0.0 <= y
    ensures 0.0 <= x * y
  {
  }

  lemma Distribute(x: real, y: real, r: real)
    ensures (x + y) * r == x * r + y * r
  {
  }

  // Waiting adds at most the rate, and never takes tokens away.
  lemma LevelGrows(t: Table, p: Policy, key: string, now: real, later: real)
    requires Sound(t, p, key, now) && now <= later && 0.0 <= p.rate && 0.0 <= p.burst
    ensures 0.0 <= Level(t, p, key, now) <= Level(t, p, key, later) <= p.burst
    ensures Level(t, p, key, later) <= Level(t, p, key, now) + Inflow(p, now, later)
  {
    InflowSplit(p, now, now, later);
    hide Refill, Inflow;
    if key in t {
      RefillGrows(t[key], p, now, later);
    }
  }

  lemma RefillGrows(b: Bucket, p: Policy, now: real, later: real)
    requires b.last <= now <= later && 0.0 <= b.tokens <= p.burst && 0.0 <= p.rate
    ensures 0.0 <= Refill(b, p, now).tokens <= Refill(b, p, later).tokens <= p.burst
    ensures Refill(b, p, later).tokens <= Refill(b, p, now).tokens + Inflow(p, now, later)
  {
    InflowSplit(p, b.last, now, later);
    RefillAt(b, p, now);
    RefillAt(b, p, later);
    hide Refill, Inflow;
  }

  // A bucket refills by what flowed in since it was last used, up to the burst.
  lemma RefillAt(b: Bucket, p: Policy, now: real)
    requires b.last <= now && b.tokens <= p.burst
    ensures var grown := b.tokens + Inflow(p, b.last, now);
            Refill(b, p, now).tokens == if grown > p.burst then p.burst else grown
  {
    var inflow := (now - b.last) * p.rate;
    assert Inflow(p, b.last, now) == inflow;
    if now == b.last {
      NoTime(p.rate);
      assert now - b.last == 0.0;
    }
  }

  lemma NoTime(r: real)
    ensures 0.0 * r == 0.0
  {
  }

  // An idle bucket is full, so evicting it changes no level.
  lemma TrimKeepsLevel(t: Table, p: Policy, key: string, now: real, later: real)
    requires Sound(t, p, key, now) && now <= later && Replenishes(p)
    ensures Sound(Trim(t, now), p, key, now)
    ensures Level(Trim(t, now), p, key, later) == Level(t, p, key, later)
  {
    if key in t && key !in Trim(t, now) {
      InflowSplit(p, t[key].last, t[key].last + IDLE, later);
    }
  }

  // A call moves the level of its own key and of no other, by one token exactly when granted.
  lemma FreeStepLevel(t: Table, p: Policy, c: Call, q: Policy, key: string)
    requires Sound(t, q, key, c.now) && 0.0 <= q.burst && 0.0 <= q.rate
    requires c.key == key ==> p == q
    ensures var r := FreeStep(t, p, c);
            && Sound(r.0, q, key, c.now)
            && (c.key == key ==> (r.1.Granted? <==> Level(t, q, key, c.now) >= 1.0))
            && Level(r.0, q, key, c.now) ==
               Level(t, q, key, c.now) - (if c.key == key && r.1.Granted? then 1.0 else 0.0)
  {
    LevelGrows(t, q, key, c.now, c.now);
  }

  lemma TrimSize(t: Table, now: real)
    ensures |Trim(t, now)| <= |t|
    ensures |Trim(t, now)| == |t| ==> forall k :: k in t ==> now - t[k].last <= IDLE
  {
    assert Trim(t, now).Keys <= t.Keys;
    SubsetSize(Trim(t, now).Keys, t.Keys);
    assert |Trim(t, now)| == |Trim(t, now).Keys| && |t| == |t.Keys|;
  }

  lemma StepLevel(t: Table, maximum: nat, p: Policy, c: Call, q: Policy, key: string)
    requires Sound(t, q, key, c.now) && Replenishes(q)
    requires c.key == key ==> p == q
    ensures var r := Step(t, maximum, p, c);
            && Sound(r.0, q, key, c.now)
            && (c.key == key && !r.1.NoRoom? ==> (r.1.Granted? <==> Level(t, q, key, c.now) >= 1.0))
            && Level(r.0, q, key, c.now) ==
               Level(t, q, key, c.now) - (if c.key == key && r.1.Granted? then 1.0 else 0.0)
  {
    TrimKeepsLevel(t, q, key, c.now, c.now);
    FreeStepLevel(t, p, c, q, key);
    FreeStepLevel(Trim(t, c.now), p, c, q, key);
  }

  // ----- invariants of reachable tables

  lemma {:induction false} RunSound(maximum: nat, policy: Policies, calls: seq<Call>, key: string, now: real)
    requires Ordered(calls) && After(calls, now) && Replenishes(policy(key))
    ensures Sound(Run(maximum, policy, calls), policy(key), key, now)
  {
    if calls != [] {
      var c := calls[|calls| - 1];
      RunSound(maximum, policy, Before(calls), key, c.now);
      StepLevel(Run(maximum, policy, Before(calls)), maximum, policy(c.key), c, policy(key), key);
    }
  }

  lemma {:induction false} FreeRunSound(policy: Policies, calls: seq<Call>, key: string, now: real)
    requires Ordered(calls) && After(calls, now) && Replenishes(policy(key))
    ensures Sound(FreeRun(policy, calls), policy(key), key, now)
  {
    if calls != [] {
      var c := calls[|calls| - 1];
      FreeRunSound(policy, Before(calls), key, c.now);
      FreeStepLevel(FreeRun(policy, Before(calls)), policy(c.key), c, policy(key), key);
    }
  }

  // ----- the window bound

  // Grants from a time on, plus what is left, never exceed the burst and the refill since then.
  lemma {:induction false} Budget(maximum: nat, policy: Policies, calls: seq<Call>,
                                  key: string, from: real, now: real)
    requires Ordered(calls) && After(calls, now) && from <= now && Replenishes(policy(key))
    ensures Grants(maximum, policy, calls, key, from, now) as real
            + Level(Run(maximum, policy, calls), policy(key), key, now)
            <= policy(key).burst + Inflow(policy(key), from, now)
  {
    hide Step, FreeStep, Level, Sound, Trim, Inflow;
    var p := policy(key);
    InflowSplit(p, from, now, now);
    RunSound(maximum, policy, calls, key, now);
    LevelGrows(Run(maximum, policy, calls), p, key, now, now);
    if calls == [] {
      return;
    }
    var c := calls[|calls| - 1];
    if c.now < from {
      NoGrantsBefore(maximum, policy, calls, key, from, now);
    } else {
      RunSound(maximum, policy, calls, key, c.now);
      LevelGrows(Run(maximum, policy, calls), p, key, c.now, now);
      Budget(maximum, policy, Before(calls), key, from, c.now);
      BudgetStep(maximum, policy, calls, key, from);
      SameGrants(maximum, policy, calls, key, from, c.now, now);
      InflowSplit(p, from, c.now, now);
    }
  }

  lemma BudgetStep(maximum: nat, policy: Policies, calls: seq<Call>, key: string, from: real)
    requires calls != [] && Ordered(calls) && Replenishes(policy(key))
    requires from <= calls[|calls| - 1].now
    ensures var now := calls[|calls| - 1].now;
            Grants(maximum, policy, calls, key, from, now) as real
            + Level(Run(maximum, policy, calls), policy(key), key, now)
            == Grants(maximum, policy, Before(calls), key, from, now) as real
               + Level(Run(maximum, policy, Before(calls)), policy(key), key, now)
  {
    hide Step, FreeStep, Level, Sound, Trim;
    var c := calls[|calls| - 1];
    RunSound(maximum, policy, Before(calls), key, c.now);
    StepLevel(Run(maximum, policy, Before(calls)), maximum, policy(c.key), c, policy(key), key);
  }

  lemma {:induction false} NoGrantsBefore(maximum: nat, policy: Policies, calls: seq<Call>,
                                          key: string, from: real, to: real)
    requires forall c :: c in calls ==> c.now < from
    ensures Grants(maximum, policy, calls, key, from, to) == 0
  {
    if calls != [] {
      NoGrantsBefore(maximum, policy, Before(calls), key, from, to);
    }
  }

  lemma {:induction false} SameGrants(maximum: nat, policy: Policies, calls: seq<Call>,
                                      key: string, from: real, to: real, later: real)
    requires After(calls, to) && to <= later
    ensures Grants(maximum, policy, calls, key, from, later) == Grants(maximum, policy, calls, key, from, to)
  {
    if calls != [] {
      SameGrants(maximum, policy, Before(calls), key, from, to, later);
    }
  }

  /** Whatever the other keys do and whatever is evicted, one key gets at most its burst
    * plus the refill of the window inside any window. */
  lemma {:induction false} WindowBound(maximum: nat, policy: Policies, calls: seq<Call>,
                                       key: string, from: real, to: real)
    requires Ordered(calls) && from <= to && Replenishes(policy(key))
    ensures Grants(maximum, policy, calls, key, from, to) as real
            <= policy(key).burst + Inflow(policy(key), from, to)
  {
    InflowSplit(policy(key), from, to, to);
    if calls != [] {
      if calls[|calls| - 1].now <= to {
        RunSound(maximum, policy, calls, key, to);
        LevelGrows(Run(maximum, policy, calls), policy(key), key, to, to);
        Budget(maximum, policy, calls, key, from, to);
      } else {
        WindowBound(maximum, policy, Before(calls), key, from, to);
      }
    }
  }

  // ----- refinement of the limiter that never evicts

  lemma {:induction false} KeptOrdered(maximum: nat, policy: Policies, calls: seq<Call>, now: real)
    requires Ordered(calls) && After(calls, now)
    ensures Ordered(Kept(maximum, policy, calls)) && After(Kept(maximum, policy, calls), now)
  {
    if calls != [] {
      KeptOrdered(maximum, policy, Before(calls), calls[|calls| - 1].now);
    }
  }

  lemma {:induction false} SameLevel(maximum: nat, policy: Policies, calls: seq<Call>, key: string, now: real)
    requires Ordered(calls) && After(calls, now) && Replenishes(policy(key))
    ensures Level(Run(maximum, policy, calls), policy(key), key, now)
            == Level(FreeRun(policy, Kept(maximum, policy, calls)), policy(key), key, now)
  {
    if calls == [] {
      return;
    }
    hide Step, FreeStep, Level, Sound, Trim, LevelAfter;
    var c := calls[|calls| - 1];
    var earlier := Before(calls);
    var kept := Kept(maximum, policy, earlier);
    var p := policy(key);
    SameLevel(maximum, policy, earlier, key, c.now);
    SameLevel(maximum, policy, earlier, key, now);
    KeptOrdered(maximum, policy, earlier, c.now);
    RunSound(maximum, policy, earlier, key, c.now);
    FreeRunSound(policy, kept, key, c.now);
    var t := Run(maximum, policy, earlier);
    var f := FreeRun(policy, kept);
    if c.key == key {
      LevelAtCall(t, maximum, p, c, now);
      FreeLevelAtCall(f, p, c, now);
    } else {
      OtherLevel(t, maximum, policy(c.key), c, p, key, now);
      OtherFreeLevel(f, policy(c.key), c, p, key, now);
    }
    if Answer(maximum, policy, calls).NoRoom? {
      assert Kept(maximum, policy, calls) == kept;
    } else {
      var after := Kept(maximum, policy, calls);
      assert Before(after) == kept && after[|after| - 1] == c;
    }
  }

  lemma OtherFreeLevel(t: Table, p: Policy, c: Call, q: Policy, key: string, later: real)
    requires c.key != key
    ensures Level(FreeStep(t, p, c).0, q, key, later) == Level(t, q, key, later)
  {
  }

  lemma OtherLevel(t: Table, maximum: nat, p: Policy, c: Call, q: Policy, key: string, later: real)
    requires c.key != key && Sound(t, q, key, c.now) && Replenishes(q) && c.now <= later
    ensures Level(Step(t, maximum, p, c).0, q, key, later) == Level(t, q, key, later)
  {
    TrimKeepsLevel(t, q, key, c.now, later);
  }

  // After its own call the level of a key depends only on its level at the call.
  ghost function LevelAfter(level: real, p: Policy, now: real, later: real): real {
    Refill(Spend(Bucket(level, now)).0, p, later).tokens
  }

  lemma FreeLevelAtCall(t: Table, p: Policy, c: Call, later: real)
    requires Sound(t, p, c.key, c.now) && Replenishes(p) && c.now <= later
    ensures var r := FreeStep(t, p, c);
            && (r.1.Granted? <==> Level(t, p, c.key, c.now) >= 1.0)
            && Level(r.0, p, c.key, later) == LevelAfter(Level(t, p, c.key, c.now), p, c.now, later)
  {
  }

  lemma LevelAtCall(t: Table, maximum: nat, p: Policy, c: Call, later: real)
    requires Sound(t, p, c.key, c.now) && Replenishes(p) && c.now <= later
    ensures var r := Step(t, maximum, p, c);
            if r.1.NoRoom? then Level(r.0, p, c.key, later) == Level(t, p, c.key, later)
            else (r.1.Granted? <==> Level(t, p, c.key, c.now) >= 1.0)
                 && Level(r.0, p, c.key, later) == LevelAfter(Level(t, p, c.key, c.now), p, c.now, later)
  {
    TrimKeepsLevel(t, p, c.key, c.now, later);
    TrimKeepsLevel(t, p, c.key, c.now, c.now);
    FreeLevelAtCall(t, p, c, later);
    FreeLevelAtCall(Trim(t, c.now), p, c, later);
  }

  /** Leaving out the calls refused for lack of room, every answer of the bounded limiter
    * is the answer of one that tracks every key for ever. */
  lemma RefinesUnbounded(maximum: nat, policy: Policies, calls: seq<Call>)
    requires Ordered(calls) && calls != [] && !Answer(maximum, policy, calls).NoRoom?
    requires Replenishes(policy(calls[|calls| - 1].key))
    ensures Kept(maximum, policy, calls) != []
    ensures FreeAnswer(policy, Kept(maximum, policy, calls)) == Answer(maximum, policy, calls)
  {
    var c := calls[|calls| - 1];
    var earlier := Before(calls);
    var kept := Kept(maximum, policy, earlier);
    var after := Kept(maximum, policy, calls);
    assert Before(after) == kept && after[|after| - 1] == c;
    SameLevel(maximum, policy, earlier, c.key, c.now);
    KeptOrdered(maximum, policy, earlier, c.now);
    RunSound(maximum, policy, earlier, c.key, c.now);
    FreeRunSound(policy, kept, c.key, c.now);
    LevelAtCall(Run(maximum, policy, earlier), maximum, policy(c.key), c, c.now);
    FreeLevelAtCall(FreeRun(policy, kept), policy(c.key), c, c.now);
  }

  // ----- the table bound and refusals for lack of room

  // Every bucket was last written by a call of its own key.
  lemma {:induction false} TableIsRecent(maximum: nat, policy: Policies, calls: seq<Call>)
    ensures |Run(maximum, policy, calls)| <= maximum
    ensures var t := Run(maximum, policy, calls);
            forall k :: k in t ==> exists c :: c in calls && c.key == k && c.now == t[k].last
  {
    if calls != [] {
      var earlier := Before(calls);
      TableIsRecent(maximum, policy, earlier);
      var c := calls[|calls| - 1];
      TrimSize(Run(maximum, policy, earlier), c.now);
      var t := Run(maximum, policy, calls);
      forall k | k in t ensures exists c :: c in calls && c.key == k && c.now == t[k].last {
        if k == c.key {
          RecentStep(Run(maximum, policy, earlier), maximum, policy(c.key), c);
        } else {
          var b :| b in earlier && b.key == k && b.now == t[k].last;
          assert b in calls;
        }
      }
    }
  }

  lemma RecentStep(t: Table, maximum: nat, p: Policy, c: Call)
    requires c.key in Step(t, maximum, p, c).0
    ensures Step(t, maximum, p, c).0[c.key].last == c.now
  {
  }

  /** A call is refused for lack of room exactly when its key is new and `maximum` other keys
    * are tracked, each of which made a call within the last ten minutes. */
  lemma RoomRefusal(maximum: nat, policy: Policies, calls: seq<Call>)
    requires calls != []
    ensures var c := calls[|calls| - 1];
            var t := Run(maximum, policy, Before(calls));
            && (Answer(maximum, policy, calls).NoRoom? <==>
                c.key !in t && |t| == maximum && forall k :: k in t ==> c.now - t[k].last <= IDLE)
            && (Answer(maximum, policy, calls).NoRoom? ==>
                forall k :: k in t ==> exists b :: b in Before(calls) && b.key == k && c.now - b.now <= IDLE)
  {
    var earlier := Before(calls);
    TableIsRecent(maximum, policy, earlier);
    var c := calls[|calls| - 1];
    var t := Run(maximum, policy, earlier);
    TrimSize(t, c.now);
    if forall k :: k in t ==> c.now - t[k].last <= IDLE {
      assert Trim(t, c.now) == t;
    }
  }

  // ----- the burst a window bound allows

  ghost function Repeat(base: seq<Call>, key: string, now: real, n: nat): seq<Call> {
    if n == 0 then base else Repeat(base, key, now, n - 1) + [Call(key, now)]
  }

  // Keys that differ from the given one and from each other.
  function Other(key: string, i: nat): (other: string)
    ensures |other| == |key| + 1 + i
  {
    seq(|key| + 1 + i, _ => 'x')
  }

  ghost function Crowd(base: seq<Call>, key: string, n: nat): seq<Call> {
    if n == 0 then base else Crowd(base, key, n - 1) + [Call(Other(key, n - 1), 0.0)]
  }

  // What appending one call does to a run.
  lemma Append(maximum: nat, policy: Policies, base: seq<Call>, c: Call, key: string, from: real, to: real)
    requires Ordered(base) && After(base, c.now)
    ensures var calls := base + [c];
            var r := Step(Run(maximum, policy, base), maximum, policy(c.key), c);
            && Ordered(calls) && After(calls, c.now)
            && Run(maximum, policy, calls) == r.0
            && Grants(maximum, policy, calls, key, from, to)
               == Grants(maximum, policy, base, key, from, to)
                  + if c.key == key && from <= c.now <= to && r.1.Granted? then 1 else 0
  {
    hide Step;
    assert Before(base + [c]) == base;
  }

  lemma {:induction false} Drain(maximum: nat, policy: Policies, base: seq<Call>,
                                 key: string, from: real, now: real, to: real, n: nat)
    requires var t := Run(maximum, policy, base); key !in t && |t| < maximum
    requires n as real <= policy(key).burst && Ordered(base) && After(base, now) && from <= now <= to
    ensures var calls := Repeat(base, key, now, n);
            var t := Run(maximum, policy, base);
            && Ordered(calls) && After(calls, now)
            && Run(maximum, policy, calls)
               == (if n == 0 then t else t[key := Bucket(policy(key).burst - n as real, now)])
            && Grants(maximum, policy, calls, key, from, to) == Grants(maximum, policy, base, key, from, to) + n
  {
    hide Run, Grants, Ordered, After;
    if n > 0 {
      Drain(maximum, policy, base, key, from, now, to, n - 1);
      Append(maximum, policy, Repeat(base, key, now, n - 1), Call(key, now), key, from, to);
    }
  }

  lemma {:induction false} Gather(maximum: nat, policy: Policies, base: seq<Call>,
                                  key: string, from: real, to: real, n: nat)
    requires var t := Run(maximum, policy, base); t.Keys == {key} && t[key].last == 0.0 && n + 1 <= maximum
    requires Ordered(base) && After(base, 0.0)
    ensures var calls := Crowd(base, key, n);
            var t := Run(maximum, policy, calls);
            && Ordered(calls) && After(calls, 0.0)
            && |t| == n + 1
            && (forall k :: k in t ==> t[k].last == 0.0 && |k| <= |key| + n)
            && Grants(maximum, policy, calls, key, from, to) == Grants(maximum, policy, base, key, from, to)
  {
    hide Run, Grants, Ordered, After;
    if n == 0 {
      var t := Run(maximum, policy, base);
      assert |t| == |t.Keys| == 1;
    } else {
      Gather(maximum, policy, base, key, from, to, n - 1);
      var other := Other(key, n - 1);
      Append(maximum, policy, Crowd(base, key, n - 1), Call(other, 0.0), key, from, to);
      Arrive(Run(maximum, policy, Crowd(base, key, n - 1)), maximum, policy(other), Call(other, 0.0));
    }
  }

  // A new key that finds room joins the table.
  lemma Arrive(t: Table, maximum: nat, p: Policy, c: Call)
    requires c.key !in t && |t| < maximum
    ensures var r := Step(t, maximum, p, c).0;
            && |r| == |t| + 1 && r.Keys == t.Keys + {c.key} && r[c.key].last == c.now
            && forall k :: k in t ==> r[k] == t[k]
  {
  }

  // A new key that finds a full and idle table replaces it.
  lemma TakeOver(t: Table, maximum: nat, p: Policy, c: Call)
    requires c.key !in t && |t| == maximum >= 1 && forall k :: k in t ==> c.now - t[k].last > IDLE
    ensures Step(t, maximum, p, c).0.Keys == {c.key} && |Step(t, maximum, p, c).0| == 1
  {
    assert Trim(t, c.now) == map[];
    var r := Step(t, maximum, p, c).0;
    assert r.Keys == {c.key};
    assert |r| == |r.Keys|;
  }

  // Everyone else arrives, the first burst is forgotten, and a second one is granted.
  lemma BurstTwice(maximum: nat, policy: Policies, key: string, burst: nat, late: real) returns (calls: seq<Call>)
    requires maximum >= 2 && policy(key).burst == burst as real && burst >= 1 && late > IDLE
    ensures Ordered(calls) && Grants(maximum, policy, calls, key, 0.0, late) == 2 * burst
  {
    hide Grants, Ordered, After, Step;
    Start(maximum, policy, key, late);
    var first := Repeat([], key, 0.0, burst);
    Drain(maximum, policy, [], key, 0.0, 0.0, late, burst);
    var crowd := Crowd(first, key, maximum - 1);
    Gather(maximum, policy, first, key, 0.0, late, maximum - 1);
    var spare := Call(Other(key, maximum - 1), late);
    AfterLater(crowd, 0.0, late);
    Append(maximum, policy, crowd, spare, key, 0.0, late);
    TakeOver(Run(maximum, policy, crowd), maximum, policy(spare.key), spare);
    calls := Repeat(crowd + [spare], key, late, burst);
    Drain(maximum, policy, crowd + [spare], key, 0.0, late, late, burst);
  }

  lemma Start(maximum: nat, policy: Policies, key: string, to: real)
    ensures Ordered([]) && After([], 0.0) && Run(maximum, policy, []) == map[]
    ensures Grants(maximum, policy, [], key, 0.0, to) == 0
  {
  }

  lemma AfterLater(calls: seq<Call>, now: real, later: real)
    requires After(calls, now) && now <= later
    ensures After(calls, later)
  {
  }

  ghost predicate Bounded(maximum: nat, policy: Policies, key: string) {
    forall calls, from, to :: Ordered(calls) && from <= to ==>
      Grants(maximum, policy, calls, key, from, to) as real <= policy(key).burst + Inflow(policy(key), from, to)
  }

  /** With whole rates and bursts, as the callers give them, the window bound holds for a key
    * exactly when its burst is at most ten minutes of its rate. */
  lemma WindowBoundExact(maximum: nat, policy: Policies, key: string, rate: nat, burst: nat)
    requires maximum >= 2 && rate >= 1
    requires policy(key) == Policy(rate as real, burst as real)
    ensures Bounded(maximum, policy, key) <==> burst <= 10 * rate
  {
    if burst <= 10 * rate {
      forall calls, from, to | Ordered(calls) && from <= to
        ensures Grants(maximum, policy, calls, key, from, to) as real
                <= policy(key).burst + Inflow(policy(key), from, to)
      {
        WindowBound(maximum, policy, calls, key, from, to);
      }
    } else {
      var late := JustPast(policy(key), rate);
      var calls := BurstTwice(maximum, policy, key, burst, late);
      assert Grants(maximum, policy, calls, key, 0.0, late) as real
             > policy(key).burst + Inflow(policy(key), 0.0, late);
    }
  }

  // A moment after the idle time at which less than one more token has flowed in.
  lemma JustPast(p: Policy, rate: nat) returns (late: real)
    requires p.rate == rate as real && rate >= 1
    ensures late > IDLE && Inflow(p, 0.0, late) < (10 * rate + 1) as real
  {
    var step := 0.5 / p.rate;
    assert step * p.rate == 0.5;
    late := IDLE + step;
    Distribute(IDLE, step, p.rate);
  }
}
