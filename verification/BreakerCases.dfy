/** An outage of one origin: the breaker opens, holds for the cooldown, and lets go.
  *
  * One order fails to be retrieved, which opens the breaker at once. Another order of the same
  * origin is retrieved as soon as the cooldown is over, and not before.
  */
module BreakerCases {
  import opened Wrappers
  import opened ByteStrings
  import opened Lexical
  import opened Documents
  import opened Spools
  import opened Egress
  import opened EgressRuns
  import opened EgressBreaker
  import opened Laws
  import opened EgressCases

  function Enabled(): Control { Control(ControlFormat(), true, false, [], []) }

  /** The attempt that fails. */
  ghost function First(hash: Hash): Attempt {
    Attempt(CaseLoaded(hash), Enabled(), 0, Unreachable, 100)
  }

  function OtherOrder(): Order { CaseOrder().(id := Ascii("other")) }

  /** An attempt at another order of the origin, later. */
  ghost function Second(hash: Hash, now: int): Attempt {
    Attempt(Loaded(OtherOrder(), DigestOf(CaseFormats(hash), [1]), [1]), Enabled(), now, Unreachable, 100)
  }

  lemma OrdersValid(hash: Hash)
    ensures Lawful(CaseFormats(hash))
    ensures ValidOrder(CaseFormats(hash), CaseOrder()) && ValidOrder(CaseFormats(hash), OtherOrder())
  {
    hide Lawful, ValidAuthority, OneOf, ValidDigest, DigestText, EgressFormats, DigestOf, WorkOrderFormat, ValidLimits;
    var e, o := CaseFormats(hash), CaseOrder();
    CaseLoads(hash);
    SameURL(hash);
    assert ValidID(OtherOrder().id);
    assert ValidAuthority(OtherOrder()) && ValidLimits(OtherOrder()) by { AuthorityFields(); }
  }

  lemma AuthorityFields()
    requires ValidAuthority(CaseOrder()) && ValidLimits(CaseOrder())
    ensures ValidAuthority(OtherOrder()) && ValidLimits(OtherOrder())
  {
    hide OneOf, Ascii;
  }

  lemma SameURL(hash: Hash)
    ensures CaseFormats(hash).admitsURL(OtherOrder())
  {
  }

  lemma FirstIsReady(hash: Hash)
    ensures Ready(CaseFormats(hash), EMPTY, First(hash))
  {
    hide EgressFormats, ValidOrder, CaseOrder, Lawful, DigestText;
    OrdersValid(hash);
    FormatsAt(hash);
    CaseTimes();
  }

  lemma FirstFails(hash: Hash)
    ensures var e, a := CaseFormats(hash), First(hash);
            Retrieved(e, EMPTY, a) && RecordsFailure(e, EMPTY, a)
  {
    hide EgressFormats, ValidOrder, CaseOrder, Lawful, DigestText, Ready, Admitted, WorkOrderPath, FailureOps;
    var e, a := CaseFormats(hash), First(hash);
    FirstIsReady(hash);
    RetrievesExactly(e, EMPTY, a);
    OneWrite(e, a.loaded.order, a.now);
  }

  lemma OneWrite(e: Formats, o: Order, now: int)
    ensures |FailureOps(e, EMPTY, o, now)| <= 1
  {
  }

  /** The failure opens the breaker. */
  lemma FirstOpens(hash: Hash)
    ensures var e := CaseFormats(hash);
            && FailingRun(e, EMPTY, [First(hash)], Ascii("origin"), 1, 60)
            && Opened(e, EMPTY, [First(hash)], Ascii("origin"), 1) == [0]
            && Tolerated(e, EMPTY, [First(hash)], Ascii("origin"), 1) == 0
  {
    hide EgressFormats, Retrieved, RecordsFailure, DigestOf, Minutes, Ascii;
    FirstFails(hash);
    assert [First(hash)][..0] == [];
  }

  lemma SecondIsReady(hash: Hash, now: int)
    requires 0 <= now < 5 * MINUTE
    ensures Ready(CaseFormats(hash), DiskAfter(CaseFormats(hash), EMPTY, [First(hash)]), Second(hash, now))
  {
    hide EgressFormats, ValidOrder, CaseOrder, Lawful, DigestText, DiskAfter;
    OrdersValid(hash);
    FormatsAt(hash);
    CaseTimes();
    OtherSpool(hash, now);
  }

  lemma OtherSpool(hash: Hash, now: int)
    ensures KeyOf(Second(hash, now).loaded) !in DiskAfter(CaseFormats(hash), EMPTY, [First(hash)]).spools
  {
    hide EgressFormats, Executed, CaseOrder, DigestText, KeyOf, OwnedBy, Lawful;
    var e, a := CaseFormats(hash), First(hash);
    OrdersValid(hash);
    OwnSpool(e, EMPTY, a);
    OthersKept(EMPTY, Executed(e, EMPTY, a), KeyOf(a.loaded));
    OneAttempt(e, a);
    KeysDiffer(hash, now);
  }

  lemma KeysDiffer(hash: Hash, now: int)
    ensures KeyOf(Second(hash, now).loaded) != KeyOf(First(hash).loaded)
  {
    hide EgressFormats, DigestText;
    assert |OtherOrder().id| == 5 && OtherOrder().id[1] != CaseOrder().id[1];
  }

  /** The second order is retrieved exactly from a minute after the failure on, which is what the
    * cooldown of its origin is. */
  lemma HeldForTheCooldown(hash: Hash, now: int)
    requires 0 <= now < 5 * MINUTE
    ensures var e := CaseFormats(hash);
            Retrieved(e, DiskAfter(e, EMPTY, [First(hash)]), Second(hash, now)) <==> now >= MINUTE
  {
    hide EgressFormats, Ready, Lawful, DigestText, DiskAfter, FailingRun, Retrieved, Opened, Tolerated;
    var e := CaseFormats(hash);
    OrdersValid(hash);
    FirstOpens(hash);
    SecondIsReady(hash, now);
    EgressLaws(hash, _ => Some(CaseOrder()), _ => true);
    assert e.time(e.formatTime(1 * MINUTE)) == Some(1 * MINUTE);
    BreakerExact(e, EMPTY, [First(hash)], Second(hash, now), 1, 60);
  }
}
