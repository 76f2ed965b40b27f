/** Whole runs of the egress worker, crashes and restarts included. */
module EgressRuns {
  // No order is retrieved twice, and the circuit breaker bounds the retrievals of a failing origin.

  import opened Wrappers
  import opened ByteStrings
  import opened Documents
  import opened Spools
  import opened Egress

  // ----- retrievals of a run -------------------------------------------------

  /** An attempt that got as far as its retrieval. */
  predicate Retrieved(e: Formats, d: Disk, a: Attempt) {
    |Executed(e, d, a)| >= 3
  }

  lemma ExecutedShape(e: Formats, d: Disk, a: Attempt)
    requires Lawful(e)
    ensures var ops := Executed(e, d, a);
            var key := KeyOf(a.loaded);
            && OwnedBy(ops, key)
            && (ops != [] ==> ops[0] == MakeSpool(key) && key !in d.spools && CircuitAllows(e, d, a.loaded.order, a.now))
            && (|ops| >= 3 ==> ops[2] == Retrieve(key, a.loaded.order.originID, a.now))
            && forall i :: 0 <= i < |ops| && ops[i].Retrieve? ==> i == 2
  {
    hide Sealing, Lawful, FetchOps, Admitted, KeyOf, CircuitAllows, WorkOrderPath, Completes;
    OwnSpool(e, d, a);
    if |Executed(e, d, a)| <= 2 {
      return;
    }
    ProgramIsSealing(e, d, a.loaded, a.control, a.now, a.retrieval);
    FetchShape(e, d, KeyOf(a.loaded), a.loaded, a.now, a.retrieval);
    var tail := FetchOps(e, d, KeyOf(a.loaded), a.loaded, a.now, a.retrieval);
    var ops := Executed(e, d, a);
    forall i | 3 <= i < |ops| ensures !ops[i].Retrieve? {
      assert ops[i] == tail[i - 3] && tail[i - 3] in tail;
    }
  }

  ghost predicate RetrievalsDistinct(ops: seq<Op>) {
    forall i, j :: 0 <= i < j < |ops| && ops[i].Retrieve? && ops[j].Retrieve? ==> ops[i].key != ops[j].key
  }

  /** Whatever crashes and restarts a run goes through, no order and digest is retrieved twice,
    * and none that the starting disk already held a spool for. */
  lemma {:induction false} RetrievedOnce(e: Formats, d: Disk, run: seq<Attempt>)
    requires Lawful(e)
    ensures RetrievalsDistinct(LogOf(e, d, run))
    ensures d.spools.Keys <= DiskAfter(e, d, run).spools.Keys
    ensures forall op :: op in LogOf(e, d, run) && op.Retrieve? ==>
              op.key !in d.spools && op.key in DiskAfter(e, d, run).spools && exists a :: a in run && op.key == KeyOf(a.loaded)
  {
    hide Sealing, Lawful, Executed, KeyOf, CircuitAllows, ApplyAll;
    if run != [] {
      var earlier, a := run[..|run| - 1], run[|run| - 1];
      RetrievedOnce(e, d, earlier);
      var before := DiskAfter(e, d, earlier);
      var ops := Executed(e, before, a);
      ExecutedShape(e, before, a);
      OthersKept(before, ops, KeyOf(a.loaded));
      if ops != [] {
        OwnSpool(e, before, a);
        SpoolFiles(before, ops, KeyOf(a.loaded));
      }
      forall op | op in ops && op.Retrieve? ensures op.key == KeyOf(a.loaded) && ops != [] {
        var i :| 0 <= i < |ops| && ops[i] == op;
      }
      LogSplit(LogOf(e, d, earlier), ops);
    }
  }

  // Two logs with distinct retrievals of different keys join into one.
  lemma LogSplit(log: seq<Op>, ops: seq<Op>)
    requires RetrievalsDistinct(log)
    requires forall i :: 0 <= i < |ops| && ops[i].Retrieve? ==> i == 2
    requires forall a, b :: a in log && b in ops && a.Retrieve? && b.Retrieve? ==> a.key != b.key
    ensures RetrievalsDistinct(log + ops)
  {
    var all := log + ops;
    forall i, j | 0 <= i < j < |all| && all[i].Retrieve? && all[j].Retrieve? ensures all[i].key != all[j].key {
      if i < |log| <= j {
        assert all[i] in log && all[j] in ops;
      }
    }
  }

  /** Unless two different work orders have the same hash, no order digest is retrieved twice. */
  lemma DigestRetrievedOnce(e: Formats, d: Disk, run: seq<Attempt>)
    requires Genuine(e, run) && Lawful(e)
    requires forall a, b :: a in run && b in run && e.hash(a.loaded.data) == e.hash(b.loaded.data) ==>
               a.loaded.data == b.loaded.data
    ensures var log := LogOf(e, d, run);
            forall i, j :: 0 <= i < j < |log| && log[i].Retrieve? && log[j].Retrieve? ==>
              log[i].key.digestID != log[j].key.digestID
  {
    hide WellLoaded, Lawful, KeyOf;
    RetrievedOnce(e, d, run);
    var log := LogOf(e, d, run);
    forall i, j | 0 <= i < j < |log| && log[i].Retrieve? && log[j].Retrieve?
      ensures log[i].key.digestID != log[j].key.digestID
    {
      assert log[i] in log && log[j] in log;
      var a :| a in run && log[i].key == KeyOf(a.loaded);
      var b :| b in run && log[j].key == KeyOf(b.loaded);
      SameKey(e, a.loaded, b.loaded);
    }
  }

  lemma SameKey(e: Formats, a: Loaded, b: Loaded)
    requires WellLoaded(e, a) && WellLoaded(e, b)
    requires e.hash(a.data) == e.hash(b.data) ==> a.data == b.data
    ensures KeyOf(a).digestID == KeyOf(b).digestID ==> KeyOf(a) == KeyOf(b)
  {
    hide Sealing;
    LoadedDigest(e, a);
    LoadedDigest(e, b);
    assert KeyOf(a).digestID == Hex(e.hash(a.data)) && KeyOf(b).digestID == Hex(e.hash(b.data));
    if KeyOf(a).digestID == KeyOf(b).digestID {
      HexInjective(e.hash(a.data), e.hash(b.data));
    }
  }

  // ----- the circuit bound ---------------------------------------------------

  /** The retrievals of one origin that started within [from, to]. */
  function Starts(ops: seq<Op>, originID: Bytes, from: int, to: int): nat {
    if ops == [] then 0
    else
      var op := ops[|ops| - 1];
      Starts(ops[..|ops| - 1], originID, from, to)
      + if op.Retrieve? && op.originID == originID && from <= op.now <= to then 1 else 0
  }

  lemma {:induction false} StartsSplit(a: seq<Op>, b: seq<Op>, originID: Bytes, from: int, to: int)
    ensures Starts(a + b, originID, from, to) == Starts(a, originID, from, to) + Starts(b, originID, from, to)
  {
    if b == [] {
      assert a + b == a;
    } else {
      assert (a + b)[..|a + b| - 1] == a + b[..|b| - 1];
      StartsSplit(a, b[..|b| - 1], originID, from, to);
    }
  }

  lemma {:induction false} StartsOne(ops: seq<Op>, originID: Bytes, from: int, to: int)
    requires forall i :: 0 <= i < |ops| && ops[i].Retrieve? ==> i == 2
    ensures Starts(ops, originID, from, to)
            == if |ops| >= 3 && ops[2].Retrieve? && ops[2].originID == originID && from <= ops[2].now <= to then 1 else 0
  {
    if ops != [] {
      StartsOne(ops[..|ops| - 1], originID, from, to);
    }
  }

  /** The failures recorded for an origin so far. */
  function Failures(e: Formats, d: Disk, originID: Bytes): int {
    var file := LoadCircuit(e, d, originID);
    if file.Present? then file.circuit.consecutiveFailures else 0
  }

  // An attempt whose retrieval, if it got that far, ended in a recorded failure.
  ghost predicate RecordsFailure(e: Formats, d: Disk, a: Attempt) {
    Retrieved(e, d, a) ==>
      && Executed(e, d, a) == Program(e, d, a.loaded, a.control, a.now, a.retrieval)
      && (a.retrieval.Unreachable? || EvidenceWritten(e, a.retrieval.fetch, a.retrieval.fault) < 4)
  }

  /** In this run every attempt for the origin has the given failure limit and cooldown, and
    * every retrieval of the origin ends in a recorded failure. */
  ghost predicate FailingRun(e: Formats, d: Disk, run: seq<Attempt>, originID: Bytes, limit: int, cooldown: int) {
    run == [] ||
    var earlier, a := run[..|run| - 1], run[|run| - 1];
    && FailingRun(e, d, earlier, originID, limit, cooldown)
    && (a.loaded.order.originID == originID ==>
          && a.loaded.order.maxConsecutiveFailures == limit && a.loaded.order.circuitCooldownSeconds == cooldown
          && RecordsFailure(e, DiskAfter(e, d, earlier), a))
  }

  // The circuit that a failure is recorded on.
  function Current(e: Formats, d: Disk, originID: Bytes): Circuit {
    var file := LoadCircuit(e, d, originID);
    if file.Present? then file.circuit else Fresh(originID)
  }

  lemma FailureWrites(e: Formats, d: Disk, l: Loaded, now: int)
    requires Sealing(e, l) && Lawful(e) && CircuitAllows(e, d, l.order, now)
    ensures var c := Failed(e, Current(e, d, l.order.originID), l.order, now);
            && FailureOps(e, d, l.order, now) == [WriteCircuit(l.order.originID, e.putCircuit(c))]
            && 0 < |e.putCircuit(c)| <= MAX_CONTROL && e.circuit(e.putCircuit(c)) == Some(c)
            && c.format == CircuitFormat() && c.originID == l.order.originID
  {
    hide Sealing;
    SealingFacts(e, l);
    AsciiPlain(CircuitFormat());
    var c := Failed(e, Current(e, d, l.order.originID), l.order, now);
    assert PlainCircuit(c);
  }

  // Attempts write no circuit file but that of their own origin.
  lemma {:induction false} CircuitsKept(d: Disk, ops: seq<Op>, originID: Bytes)
    requires forall op :: op in ops && op.WriteCircuit? ==> op.originID != originID
    ensures (originID in ApplyAll(d, ops).circuits <==> originID in d.circuits)
    ensures originID in d.circuits ==> ApplyAll(d, ops).circuits[originID] == d.circuits[originID]
  {
    if ops != [] {
      assert ops[|ops| - 1] in ops;
      CircuitsKept(d, ops[..|ops| - 1], originID);
    }
  }

  lemma OwnCircuitOnly(e: Formats, d: Disk, a: Attempt, op: Op)
    requires op in Executed(e, d, a) && op.WriteCircuit?
    ensures op.originID == a.loaded.order.originID && |Executed(e, d, a)| > 3
  {
    hide Admitted, CircuitAllows, KeyOf, WorkOrderPath, FetchOps;
    var l := a.loaded;
    var tail := FetchOps(e, d, KeyOf(l), l, a.now, a.retrieval);
    var i :| 0 <= i < |Executed(e, d, a)| && Executed(e, d, a)[i] == op;
    assert i >= 3 && op == tail[i - 3] && op in tail;
    FetchOrigin(e, d, KeyOf(l), l, a.now, a.retrieval);
  }

  lemma FetchOrigin(e: Formats, d: Disk, key: Key, l: Loaded, now: int, r: Retrieval)
    ensures forall op :: op in FetchOps(e, d, key, l, now, r) && op.WriteCircuit? ==> op.originID == l.order.originID
  {
    hide FailureOps, BundleOps, CompletionOps, EvidenceWritten;
    FailureOrigin(e, d, l.order, now);
    if r.Fetched? {
      BundleNoCircuit(e, key, r.fetch, r.fault);
      CompletionOrigin(e, key, l, r.fetch, r.duration);
    }
  }

  lemma CompletionOrigin(e: Formats, key: Key, l: Loaded, f: Fetch, duration: nat)
    ensures forall op :: op in CompletionOps(e, key, l, f, duration) && op.WriteCircuit? ==> op.originID == l.order.originID
  {
    hide ValidManifest, ManifestOf, ResultBytes, ManifestBytes, ViewBytes, ResultPath, ManifestPath;
  }

  lemma FailureOrigin(e: Formats, d: Disk, o: Order, now: int)
    ensures forall op :: op in FailureOps(e, d, o, now) ==> op.WriteCircuit? && op.originID == o.originID
  {
  }

  lemma BundleNoCircuit(e: Formats, key: Key, f: Fetch, fault: Option<nat>)
    ensures forall op :: op in BundleOps(e, key, f, fault) ==> op.Write?
  {
    hide EvidenceWritten, CasPath, EnvelopePath, ViewPath, BodyRefPath, EnvelopeBytes, ViewBytes, BodyReference;
    var ops := EvidenceOps(e, key, f);
    assert forall i :: 0 <= i < 4 ==> ops[i].Write?;
  }

  // After an attempt the circuit of an origin is as before, or one failure further.
  lemma CircuitStep(e: Formats, d: Disk, a: Attempt, originID: Bytes)
    requires Lawful(e)
    requires a.loaded.order.originID == originID ==> RecordsFailure(e, d, a)
    ensures var after := ApplyAll(d, Executed(e, d, a));
            if a.loaded.order.originID == originID && Retrieved(e, d, a) then
              && CircuitAllows(e, d, a.loaded.order, a.now)
              && var c := Failed(e, Current(e, d, originID), a.loaded.order, a.now);
              LoadCircuit(e, after, originID) == if c.consecutiveFailures <= 100000 then Present(c) else Broken
            else LoadCircuit(e, after, originID) == LoadCircuit(e, d, originID)
  {
    hide Sealing, Lawful, Executed, KeyOf, CircuitAllows, ApplyAll, Failed, Current;
    var ops := Executed(e, d, a);
    forall op | op in ops && op.WriteCircuit? ensures op.originID == a.loaded.order.originID && |ops| > 3 {
      OwnCircuitOnly(e, d, a, op);
    }
    ExecutedShape(e, d, a);
    if a.loaded.order.originID != originID || |ops| < 3 {
      CircuitsKept(d, ops, originID);
    } else {
      FailingProgram(e, d, a);
      FailureWrites(e, d, a.loaded, a.now);
      var c := Failed(e, Current(e, d, originID), a.loaded.order, a.now);
      CountUp(e, d, originID, a.loaded.order, a.now);
      ApplyLastOp(d, ops[..|ops| - 1], WriteCircuit(originID, e.putCircuit(c)));
      assert ops == ops[..|ops| - 1] + [WriteCircuit(originID, e.putCircuit(c))];
    }
  }

  lemma CountUp(e: Formats, d: Disk, originID: Bytes, o: Order, now: int)
    ensures Failed(e, Current(e, d, originID), o, now).consecutiveFailures == Failures(e, d, originID) + 1 >= 1
  {
  }

  lemma ApplyLastOp(d: Disk, ops: seq<Op>, op: Op)
    ensures ApplyAll(d, ops + [op]) == Apply(ApplyAll(d, ops), op)
  {
    assert (ops + [op])[..|ops|] == ops;
  }

  // A program whose retrieval fails ends with the recording of the failure.
  lemma FailingProgram(e: Formats, d: Disk, a: Attempt)
    requires RecordsFailure(e, d, a) && Retrieved(e, d, a)
    ensures exists ops :: Executed(e, d, a) == ops + FailureOps(e, d, a.loaded.order, a.now)
  {
    hide Admitted, CircuitAllows, KeyOf, WorkOrderPath, EvidenceWritten, FailureOps, BundleOps;
    var l, r := a.loaded, a.retrieval;
    var head := [MakeSpool(KeyOf(l)), Write(KeyOf(l), WorkOrderPath(), l.data), Retrieve(KeyOf(l), l.order.originID, a.now)];
    var fail := FailureOps(e, d, l.order, a.now);
    if r.Unreachable? {
      assert Executed(e, d, a) == head + fail;
    } else {
      assert Executed(e, d, a) == (head + BundleOps(e, KeyOf(l), r.fetch, r.fault)) + fail;
    }
  }

  // ----- counting the retrievals ---------------------------------------------

  /** The times, in order, of the failing retrievals that reached the limit and opened the breaker. */
  ghost function Opened(e: Formats, d: Disk, run: seq<Attempt>, originID: Bytes, limit: int): seq<int> {
    if run == [] then []
    else
      var earlier, a := run[..|run| - 1], run[|run| - 1];
      var before := DiskAfter(e, d, earlier);
      var sooner := Opened(e, d, earlier, originID, limit);
      if a.loaded.order.originID == originID && Retrieved(e, before, a) && Failures(e, before, originID) + 1 >= limit
      then sooner + [a.now] else sooner
  }

  /** How many failing retrievals stayed below the limit. */
  ghost function Tolerated(e: Formats, d: Disk, run: seq<Attempt>, originID: Bytes, limit: int): nat {
    if run == [] then 0
    else
      var earlier, a := run[..|run| - 1], run[|run| - 1];
      var before := DiskAfter(e, d, earlier);
      Tolerated(e, d, earlier, originID, limit)
      + if a.loaded.order.originID == originID && Retrieved(e, before, a) && Failures(e, before, originID) + 1 < limit
        then 1 else 0
  }

  ghost predicate Spaced(times: seq<int>, gap: int) {
    forall i :: 0 < i < |times| ==> times[i] >= times[i - 1] + gap
  }

  // The breaker is open until the cooldown after its last opening.
  ghost predicate OpenSince(e: Formats, file: CircuitFile, limit: int, gap: int, openings: seq<int>, tolerated: nat) {
    && Spaced(openings, gap) && tolerated <= limit - 1
    && (file.Absent? ==> openings == [] && tolerated == 0)
    && (file.Present? && file.circuit.consecutiveFailures < limit ==>
          openings == [] && tolerated <= file.circuit.consecutiveFailures)
    && (file.Present? && openings != [] ==>
          && file.circuit.openUntil.Some?
          && e.time(file.circuit.openUntil.value) in {None, Some(openings[|openings| - 1] + gap)})
  }

  // One more failure, at a time that the breaker allows, keeps it.
  lemma BreakerStep(e: Formats, d: Disk, o: Order, now: int, gap: int, openings: seq<int>, tolerated: nat)
    requires OpenSince(e, LoadCircuit(e, d, o.originID), o.maxConsecutiveFailures, gap, openings, tolerated)
    requires CircuitAllows(e, d, o, now) && gap == o.circuitCooldownSeconds * SECOND && o.maxConsecutiveFailures >= 1
    requires e.time(e.formatTime(now + gap)) in {None, Some(now + gap)}
    ensures var c := Failed(e, Current(e, d, o.originID), o, now);
            var over := Failures(e, d, o.originID) + 1 >= o.maxConsecutiveFailures;
            OpenSince(e, if c.consecutiveFailures <= 100000 then Present(c) else Broken, o.maxConsecutiveFailures, gap,
                      if over then openings + [now] else openings, tolerated + if over then 0 else 1)
  {
    assert Failures(e, d, o.originID) >= 0;
    assert Failed(e, Current(e, d, o.originID), o, now).consecutiveFailures == Failures(e, d, o.originID) + 1;
    var file := LoadCircuit(e, d, o.originID);
    hide LoadCircuit;
  }

  lemma {:induction false} BreakerHolds(e: Formats, d: Disk, run: seq<Attempt>, originID: Bytes, limit: int, cooldown: int)
    requires Lawful(e) && limit >= 1 && FailingRun(e, d, run, originID, limit, cooldown)
    ensures OpenSince(e, LoadCircuit(e, DiskAfter(e, d, run), originID), limit, cooldown * SECOND,
                      Opened(e, d, run, originID, limit), Tolerated(e, d, run, originID, limit))
  {
    hide Sealing, Lawful, Executed, ApplyAll, RecordsFailure, LoadCircuit, Retrieved, OpenSince, CircuitAllows;
    hide Failed, Current, Failures;
    if run == [] {
      NothingOpened(e, LoadCircuit(e, d, originID), limit, cooldown * SECOND);
    } else {
      var earlier, a := run[..|run| - 1], run[|run| - 1];
      BreakerHolds(e, d, earlier, originID, limit, cooldown);
      var before := DiskAfter(e, d, earlier);
      CircuitStep(e, before, a, originID);
      if a.loaded.order.originID == originID && Retrieved(e, before, a) {
        TimeReadsBack(e, a.now + cooldown * SECOND);
        BreakerStep(e, before, a.loaded.order, a.now, cooldown * SECOND,
                    Opened(e, d, earlier, originID, limit), Tolerated(e, d, earlier, originID, limit));
      }
    }
  }

  lemma NothingOpened(e: Formats, file: CircuitFile, limit: int, gap: int)
    requires limit >= 1 && (file.Present? ==> file.circuit.consecutiveFailures >= 0)
    ensures OpenSince(e, file, limit, gap, [], 0)
  {
  }

  lemma TimeReadsBack(e: Formats, t: int)
    requires Lawful(e)
    ensures e.time(e.formatTime(t)) in {None, Some(t)}
  {
  }

  /** The times within [from, to]. */
  function Within(times: seq<int>, from: int, to: int): nat {
    if times == [] then 0
    else Within(times[..|times| - 1], from, to) + if from <= times[|times| - 1] <= to then 1 else 0
  }

  // The first and the last of n times that keep a distance are n - 1 distances apart.
  lemma SpacedFew(times: seq<int>, gap: int, from: int, to: int)
    requires Spaced(times, gap) && gap > 0
    ensures var n := Within(times, from, to);
            && (n > 0 ==> (n - 1) * gap <= to - from)
            && (times != [] && times[|times| - 1] < from ==> n == 0)
            && (times != [] && n > 0 ==> (n - 1) * gap <= times[|times| - 1] - from)
  {
    GapsFew(times, gap, from, to);
  }

  // What n times leave between them: n - 1 distances.
  function Gaps(n: int, gap: int): int {
    (n - 1) * gap
  }

  lemma GapsNext(n: int, gap: int)
    ensures Gaps(n + 1, gap) == Gaps(n, gap) + gap && Gaps(1, gap) == 0
  {
  }

  lemma {:induction false} GapsFew(times: seq<int>, gap: int, from: int, to: int)
    requires Spaced(times, gap) && gap > 0
    ensures var n := Within(times, from, to);
            && (n > 0 ==> Gaps(n, gap) <= to - from)
            && (times != [] && times[|times| - 1] < from ==> n == 0)
            && (times != [] && n > 0 ==> Gaps(n, gap) <= times[|times| - 1] - from)
  {
    hide Gaps;
    if times != [] {
      var last := |times| - 1;
      GapsFew(times[..last], gap, from, to);
      GapsNext(Within(times[..last], from, to), gap);
    }
  }

  lemma Quotient(k: int, w: int, gap: int)
    requires gap > 0 && k * gap <= w
    ensures k <= w / gap
  {
    var q := w / gap;
    if q + 1 <= k {
      Scale(q + 1, k, gap);
    }
  }

  lemma Scale(x: int, y: int, gap: int)
    requires gap > 0 && x <= y
    ensures x * gap <= y * gap
  {
    assert (y - x) * gap >= 0;
  }

  lemma {:induction false} StartsCounted(e: Formats, d: Disk, run: seq<Attempt>, originID: Bytes, limit: int, from: int, to: int)
    requires Lawful(e)
    ensures Starts(LogOf(e, d, run), originID, from, to)
            <= Within(Opened(e, d, run, originID, limit), from, to) + Tolerated(e, d, run, originID, limit)
  {
    hide Lawful, Executed, ApplyAll, Failures, Retrieved, Starts;
    if run == [] {
      assert Starts([], originID, from, to) == 0 by { NoStarts(originID, from, to); }
    } else {
      var earlier, a := run[..|run| - 1], run[|run| - 1];
      StartsCounted(e, d, earlier, originID, limit, from, to);
      var before := DiskAfter(e, d, earlier);
      var ops := Executed(e, before, a);
      AttemptStarts(e, before, a, originID, from, to);
      StartsSplit(LogOf(e, d, earlier), ops, originID, from, to);
      var sooner := Opened(e, d, earlier, originID, limit);
      assert (sooner + [a.now])[..|sooner|] == sooner;
    }
  }

  lemma NoStarts(originID: Bytes, from: int, to: int)
    ensures Starts([], originID, from, to) == 0
  {
  }

  // An attempt starts at most one retrieval, of its own origin and at its own time.
  lemma AttemptStarts(e: Formats, d: Disk, a: Attempt, originID: Bytes, from: int, to: int)
    requires Lawful(e)
    ensures Starts(Executed(e, d, a), originID, from, to)
            <= if a.loaded.order.originID == originID && Retrieved(e, d, a) && from <= a.now <= to then 1 else 0
  {
    hide Lawful, Executed, KeyOf, CircuitAllows, OwnedBy;
    ExecutedShape(e, d, a);
    StartsOne(Executed(e, d, a), originID, from, to);
  }

  /** The circuit bound: from any disk, over any run in which every retrieval of the origin ends
    * in a recorded failure, at most limit + window / cooldown of its retrievals start in any
    * window, whatever the order of the attempts' times, and across crashes and restarts. */
  lemma CircuitBound(e: Formats, d: Disk, run: seq<Attempt>, originID: Bytes, limit: int, cooldown: int, from: int, to: int)
    requires Lawful(e) && limit >= 1 && cooldown >= 1 && from <= to
    requires FailingRun(e, d, run, originID, limit, cooldown)
    ensures Starts(LogOf(e, d, run), originID, from, to) <= limit + (to - from) / (cooldown * SECOND)
  {
    hide Sealing, Lawful, FailingRun, Starts, Opened, Tolerated, LoadCircuit;
    BreakerHolds(e, d, run, originID, limit, cooldown);
    StartsCounted(e, d, run, originID, limit, from, to);
    var openings := Opened(e, d, run, originID, limit);
    SpacedFew(openings, cooldown * SECOND, from, to);
    if Within(openings, from, to) > 0 {
      Quotient(Within(openings, from, to) - 1, to - from, cooldown * SECOND);
    } else {
      Quotient(0, to - from, cooldown * SECOND);
    }
  }
}
