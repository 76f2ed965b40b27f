/** Exactly which calls the limiter grants: those that no window stands against. */
module LimiterExact {
  // The bound on every window has a counterpart: a refused call would have broken it.

  import opened Limiter

  // The level after waiting: what flowed in is added, up to the burst.
  lemma LevelAfterWait(t: Table, p: Policy, key: string, now: real, later: real)
    requires Sound(t, p, key, now) && now <= later && 0.0 <= p.rate && 0.0 <= p.burst
    ensures var grown := Level(t, p, key, now) + Inflow(p, now, later);
            Level(t, p, key, later) == if grown > p.burst then p.burst else grown
  {
    InflowSplit(p, now, now, later);
    if key in t {
      var b := t[key];
      InflowSplit(p, b.last, now, later);
      RefillAt(b, p, now);
      RefillAt(b, p, later);
    }
    hide Refill, Inflow;
  }

  /** At any time some window is full: the grants since its start and the tokens left are exactly the
    * burst and the refill since then. */
  lemma {:induction false} SomeWindowIsFull(maximum: nat, policy: Policies, calls: seq<Call>, key: string, now: real)
    returns (from: real)
    requires Ordered(calls) && After(calls, now) && Replenishes(policy(key))
    ensures from <= now
    ensures Grants(maximum, policy, calls, key, from, now) as real + Level(Run(maximum, policy, calls), policy(key), key, now)
            == policy(key).burst + Inflow(policy(key), from, now)
  {
    hide Step, FreeStep, Level, Sound, Trim, Inflow;
    var p := policy(key);
    if calls == [] {
      from := now;
      NothingYet(p, key, now);
      return;
    }
    var c := calls[|calls| - 1];
    InflowSplit(p, c.now, c.now, now);
    from := SomeWindowIsFull(maximum, policy, Before(calls), key, c.now);
    BudgetStep(maximum, policy, calls, key, from);
    if c.now < now {
      RunSound(maximum, policy, calls, key, c.now);
      LevelAfterWait(Run(maximum, policy, calls), p, key, c.now, now);
      if Level(Run(maximum, policy, calls), p, key, now) == p.burst {
        from := now;
        NoGrantsBefore(maximum, policy, calls, key, now, now);
        NoInflow(p, now);
      } else {
        SameGrants(maximum, policy, calls, key, from, c.now, now);
        InflowSplit(p, from, c.now, now);
      }
    }
  }

  lemma NoInflow(p: Policy, now: real)
    ensures Inflow(p, now, now) == 0.0
  {
    NoTime(p.rate);
    assert now - now == 0.0;
  }

  lemma NothingYet(p: Policy, key: string, now: real)
    ensures Level(map[], p, key, now) == p.burst && Inflow(p, now, now) == 0.0
  {
    NoInflow(p, now);
  }

  /** One more grant now would still keep within the burst and the refill of every window that ends
    * now. */
  ghost predicate EveryWindowHasRoom(maximum: nat, policy: Policies, calls: seq<Call>, key: string, now: real) {
    forall from: real :: from <= now ==>
      Grants(maximum, policy, calls, key, from, now) as real + 1.0 <= policy(key).burst + Inflow(policy(key), from, now)
  }

  /** A call that is not refused for lack of room in the table is granted exactly when it keeps the
    * bound of every window, whatever other keys do and whatever is evicted. */
  lemma GrantedExactly(maximum: nat, policy: Policies, calls: seq<Call>, c: Call)
    requires Ordered(calls) && After(calls, c.now) && Replenishes(policy(c.key))
    requires !Answer(maximum, policy, calls + [c]).NoRoom?
    ensures Answer(maximum, policy, calls + [c]).Granted?
            <==> EveryWindowHasRoom(maximum, policy, calls, c.key, c.now)
  {
    hide Step, FreeStep, Level, Sound, Trim, Inflow;
    var p, t := policy(c.key), Run(maximum, policy, calls);
    assert Before(calls + [c]) == calls;
    RunSound(maximum, policy, calls, c.key, c.now);
    StepLevel(t, maximum, p, c, p, c.key);
    var full := SomeWindowIsFull(maximum, policy, calls, c.key, c.now);
    forall from: real | from <= c.now
      ensures Grants(maximum, policy, calls, c.key, from, c.now) as real + Level(t, p, c.key, c.now)
              <= p.burst + Inflow(p, from, c.now)
    {
      Budget(maximum, policy, calls, c.key, from, c.now);
    }
  }
}
