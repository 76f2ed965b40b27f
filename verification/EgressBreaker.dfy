/** When the egress worker retrieves at all: the exact condition, over runs of recorded failures. */
module EgressBreaker {
  // The bounds on retrievals have a counterpart: nothing is held back longer than the cooldown.

  import opened Wrappers
  import opened ByteStrings
  import opened Spools
  import opened Egress
  import opened EgressRuns

  // ----- one attempt ---------------------------------------------------------

  /** What a circuit file holds an origin back for. */
  datatype Hold = Free | Until(time: int) | Forever

  function HoldOf(e: Formats, file: CircuitFile): Hold {
    match file
    case Absent => Free
    case Broken => Forever
    case Present(c) =>
      if c.openUntil.None? then Free
      else if e.time(c.openUntil.value).None? then Forever
      else Until(e.time(c.openUntil.value).value)
  }

  predicate Passes(h: Hold, now: int) {
    h.Free? || (h.Until? && now >= h.time)
  }

  /** Nothing in the control stands against the order. */
  predicate Permitted(c: Control, o: Order) {
    && ValidControl(c) && c.enabled && !c.emergencyStop
    && (forall v :: v in c.revokedOrigins ==> v != o.originID) && (forall v :: v in c.revokedOrders ==> v != o.id)
  }

  /** The order is in force: from the moment it starts, and up to the moment it expires. */
  predicate InForce(e: Formats, o: Order, now: int) {
    && e.time(o.notBefore).Some? && e.time(o.expiresAt).Some?
    && e.time(o.notBefore).value <= now && now < e.time(o.expiresAt).value
  }

  /** A valid order, untouched since its digest was taken, that is permitted and in force, under a
    * key that has no spool yet, in a process that lives long enough. */
  predicate Ready(e: Formats, d: Disk, a: Attempt) {
    var l := a.loaded;
    && ValidOrder(e, l.order) && DigestText(e.hash(l.data)) == l.digest && Permitted(a.control, l.order)
    && InForce(e, l.order, a.now) && Key(l.order.id, l.digest[7..]) !in d.spools
    && |l.data| <= MAX_WORK_ORDER && a.cut >= 3
  }

  /** From any disk, exactly the ready attempts whose origin is not held back start a retrieval. */
  lemma RetrievesExactly(e: Formats, d: Disk, a: Attempt)
    ensures Retrieved(e, d, a)
            <==> Ready(e, d, a) && Passes(HoldOf(e, LoadCircuit(e, d, a.loaded.order.originID)), a.now)
  {
    AdmittedExactly(e, a.loaded, a.control, a.now);
    hide Admitted, ValidOrder, FetchOps, WorkOrderPath, LoadCircuit, DigestText;
  }

  lemma AdmittedExactly(e: Formats, l: Loaded, c: Control, now: int)
    ensures Admitted(e, l, c, now) <==>
              && ValidOrder(e, l.order) && DigestText(e.hash(l.data)) == l.digest && Permitted(c, l.order)
              && InForce(e, l.order, now)
  {
    hide ValidControl, DigestText;
  }

  // ----- runs of recorded failures -------------------------------------------

  /** The failures that a circuit file counts. */
  function Counted(file: CircuitFile): int {
    if file.Present? then file.circuit.consecutiveFailures else 0
  }

  // The circuit file after some failures: the starting one, while there was none; unreadable after
  // more than the most that it can count; otherwise it counts them all, and is open from the last
  // opening on, or as it was at the start.
  ghost predicate FileAfter(
    e: Formats, start: CircuitFile, file: CircuitFile, openings: seq<int>, tolerated: nat, gap: int)
  {
    var failures := |openings| + tolerated;
    if start.Broken? || failures == 0 then file == start && failures == 0
    else if Counted(start) + failures > 100000 then file.Broken?
    else
      && file.Present? && Counted(file) == Counted(start) + failures
      && file.circuit.openUntil
         == if openings != [] then Some(e.formatTime(openings[|openings| - 1] + gap))
            else if start.Present? then start.circuit.openUntil else None
  }

  lemma FailureAfter(
    e: Formats, d: Disk, start: CircuitFile, o: Order, now: int, openings: seq<int>, tolerated: nat, gap: int)
    requires FileAfter(e, start, LoadCircuit(e, d, o.originID), openings, tolerated, gap)
    requires !LoadCircuit(e, d, o.originID).Broken? && gap == o.circuitCooldownSeconds * SECOND
    ensures var c := Failed(e, Current(e, d, o.originID), o, now);
            var over := Failures(e, d, o.originID) + 1 >= o.maxConsecutiveFailures;
            FileAfter(e, start, if c.consecutiveFailures <= 100000 then Present(c) else Broken,
                      if over then openings + [now] else openings, tolerated + if over then 0 else 1, gap)
  {
    hide LoadCircuit;
  }

  lemma {:induction false} FileHolds(e: Formats, d: Disk, run: seq<Attempt>, originID: Bytes, limit: int, cooldown: int)
    requires Lawful(e) && FailingRun(e, d, run, originID, limit, cooldown)
    ensures FileAfter(e, LoadCircuit(e, d, originID), LoadCircuit(e, DiskAfter(e, d, run), originID),
                      Opened(e, d, run, originID, limit), Tolerated(e, d, run, originID, limit), cooldown * SECOND)
  {
    hide Lawful, Executed, ApplyAll, RecordsFailure, LoadCircuit, Retrieved, FileAfter, CircuitAllows, Failed, Current, Failures;
    if run == [] {
      StartsSo(e, LoadCircuit(e, d, originID), cooldown * SECOND);
    } else {
      var earlier, a := run[..|run| - 1], run[|run| - 1];
      FileHolds(e, d, earlier, originID, limit, cooldown);
      var before := DiskAfter(e, d, earlier);
      CircuitStep(e, before, a, originID);
      if a.loaded.order.originID == originID && Retrieved(e, before, a) {
        AllowedNotBroken(e, before, a.loaded.order, a.now);
        FailureAfter(e, before, LoadCircuit(e, d, originID), a.loaded.order, a.now,
                     Opened(e, d, earlier, originID, limit), Tolerated(e, d, earlier, originID, limit), cooldown * SECOND);
      }
    }
  }

  lemma StartsSo(e: Formats, start: CircuitFile, gap: int)
    ensures FileAfter(e, start, start, [], 0, gap)
  {
  }

  lemma AllowedNotBroken(e: Formats, d: Disk, o: Order, now: int)
    requires CircuitAllows(e, d, o, now)
    ensures !LoadCircuit(e, d, o.originID).Broken?
  {
    hide LoadCircuit;
  }

  /** The failures that the origin of an attempt has had, counted from the start of the run. */
  ghost function FailuresSince(e: Formats, d: Disk, run: seq<Attempt>, originID: Bytes, limit: int): int {
    Counted(LoadCircuit(e, d, originID)) + |Opened(e, d, run, originID, limit)| + Tolerated(e, d, run, originID, limit)
  }

  /** After any run of recorded failures, a ready attempt starts a retrieval exactly when the
    * starting circuit file was readable, no more failures have been recorded than it can count, and
    * the cooldown since the last opening is over; if none has opened the breaker, when the starting
    * file does not hold it back. */
  lemma BreakerExact(e: Formats, d: Disk, run: seq<Attempt>, a: Attempt, limit: int, cooldown: int)
    requires Lawful(e) && FailingRun(e, d, run, a.loaded.order.originID, limit, cooldown)
    requires Ready(e, DiskAfter(e, d, run), a) && ReadsBack(e, Opened(e, d, run, a.loaded.order.originID, limit), cooldown)
    ensures var start, openings := LoadCircuit(e, d, a.loaded.order.originID), Opened(e, d, run, a.loaded.order.originID, limit);
            Retrieved(e, DiskAfter(e, d, run), a) <==>
              && !start.Broken? && FailuresSince(e, d, run, a.loaded.order.originID, limit) <= 100000
              && if openings != [] then a.now >= openings[|openings| - 1] + cooldown * SECOND
                 else Passes(HoldOf(e, start), a.now)
  {
    hide Lawful, FailingRun, Ready, Retrieved, LoadCircuit, Opened, Tolerated, DiskAfter;
    var originID := a.loaded.order.originID;
    RetrievesExactly(e, DiskAfter(e, d, run), a);
    FileHolds(e, d, run, originID, limit, cooldown);
    FewCounted(e, d, originID);
  }

  // The end of the last cooldown, as it is formatted, is read as what it is.
  ghost predicate ReadsBack(e: Formats, openings: seq<int>, cooldown: int) {
    openings != [] ==>
      var until := openings[|openings| - 1] + cooldown * SECOND;
      e.time(e.formatTime(until)) == Some(until)
  }

  lemma FewCounted(e: Formats, d: Disk, originID: Bytes)
    ensures 0 <= Counted(LoadCircuit(e, d, originID)) <= 100000
  {
  }

  /** An attempt that completes clears its circuit: nothing is counted, nothing held back. */
  lemma SuccessClears(e: Formats, d: Disk, a: Attempt)
    requires Lawful(e) && Completes(e, a.loaded, a.retrieval) && Retrieved(e, d, a)
    requires Executed(e, d, a) == Program(e, d, a.loaded, a.control, a.now, a.retrieval)
    ensures var file := LoadCircuit(e, ApplyAll(d, Executed(e, d, a)), a.loaded.order.originID);
            file.Present? && Counted(file) == 0 && HoldOf(e, file) == Free
  {
    hide Lawful, CompleteOps, Completes, KeyOf, ApplyAll, Sealing, OwnedBy, NoManifest;
    var l, r := a.loaded, a.retrieval;
    ProgramShape(e, d, l, a.control, a.now, r);
    ProgramIsSealing(e, d, l, a.control, a.now, r);
    FreshWrites(e, l);
    var ops := CompleteOps(e, l, r.fetch, r.duration, a.now);
    ApplyLastOp(d, ops, WriteCircuit(l.order.originID, e.putCircuit(Fresh(l.order.originID))));
  }

  lemma FreshWrites(e: Formats, l: Loaded)
    requires Lawful(e) && Sealing(e, l)
    ensures var c := Fresh(l.order.originID);
            && CircuitOps(e, c) == [WriteCircuit(l.order.originID, e.putCircuit(c))]
            && 0 < |e.putCircuit(c)| <= MAX_CONTROL && e.circuit(e.putCircuit(c)) == Some(c)
            && c.format == CircuitFormat() && c.originID == l.order.originID
  {
    hide Sealing;
    SealingFacts(e, l);
    AsciiPlain(CircuitFormat());
    assert PlainCircuit(Fresh(l.order.originID));
  }
}
