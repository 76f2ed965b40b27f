/** What every frame that the decoder accepts says. */
module FrameMeaning {
  import opened Wrappers
  import opened ByteStrings
  import opened Lexical
  import opened Documents
  import opened Packets
  import opened Frames
  import opened PacketMeaning

  /** What a slot says: it has values exactly when it is resolved, as many as its cardinality allows
    * and none twice; it names packets; and what is contradictory is kept so or left unresolved. */
  predicate SlotHolds(s: Slot) {
    && (s.values != [] <==> s.status == Ascii("resolved"))
    && (s.cardinality == Ascii("one") ==> |s.values| <= 1) && Distinct(s.values)
    && s.packetDigests != [] && Distinct(s.packetDigests)
    && (s.conflict == Ascii("none") ==> s.status != Ascii("contradictory"))
  }

  function Roles(slots: seq<Slot>): seq<Bytes> {
    seq(|slots|, i requires 0 <= i < |slots| => slots[i].roleID)
  }

  /** No role has two slots, each of which holds what it should; no packet is listed twice, and the
    * packets listed are those that the slots name; the mappings of the slots are among those of the
    * frame, which is semantic exactly if it has any. */
  lemma FramesSay(data: Bytes)
    requires Frames.Unmarshal(data).Success?
    ensures var f := Frames.Unmarshal(data).value;
            && f.slots != [] && Distinct(Roles(f.slots)) && (forall s :: s in f.slots ==> SlotHolds(s))
            && Distinct(f.derivation.packetDigests)
            && (forall d :: d in f.derivation.packetDigests <==> exists s :: s in f.slots && d in s.packetDigests)
            && (forall s, id :: s in f.slots && id in s.mappingIDs ==> id in f.derivation.mappingIDs)
            && (f.derivation.mappingIDs == [] <==> f.epistemic.lane == Ascii("observed_native"))
            && f.epistemic.completenessMillionths <= 1_000_000 && LifecycleHolds(f.lifecycle)
  {
    hide *;
    var f := Frames.Unmarshal(data).value;
    AcceptedIsValid(data);
    SlotsSay(f);
    PacketsNamed(f);
    RestSays(f);
  }

  lemma AcceptedIsValid(data: Bytes)
    requires Frames.Unmarshal(data).Success?
    ensures ValidFrame(Frames.Unmarshal(data).value)
  {
    hide ReadFrame, ValidFrame;
  }

  lemma SlotsSay(f: Frame)
    requires ValidFrame(f)
    ensures f.slots != [] && Distinct(Roles(f.slots)) && (forall s :: s in f.slots ==> SlotHolds(s))
  {
    hide ValidSlot, SlotHolds, ValidContext, ValidFrameTime, ValidIdentifier, ValidLifecycle, Less, UsedPackets;
    forall s | s in f.slots ensures SlotHolds(s) {
      SlotSays(s);
    }
    SortedDistinct(Roles(f.slots));
  }

  lemma SlotSays(s: Slot)
    requires ValidSlot(s)
    ensures SlotHolds(s)
  {
    hide ValidTypedValue, ValidIdentifier, Ascii, Less, PutTypedValue;
    var written := seq(|s.values|, i requires 0 <= i < |s.values| => PutTypedValue(s.values[i], []));
    assert StrictlySorted(written);
    SortedDistinct(written);
    forall i, k | 0 <= i < k < |s.values| ensures s.values[i] != s.values[k] {
      assert written[i] != written[k];
    }
    SortedDistinct(s.packetDigests);
  }

  lemma RestSays(f: Frame)
    requires ValidFrame(f)
    ensures forall s, id :: s in f.slots && id in s.mappingIDs ==> id in f.derivation.mappingIDs
    ensures f.derivation.mappingIDs == [] <==> f.epistemic.lane == Ascii("observed_native")
    ensures f.epistemic.completenessMillionths <= 1_000_000 && LifecycleHolds(f.lifecycle)
  {
    hide ValidSlot, ValidContext, ValidFrameTime, ValidIdentifier, Ascii, Less, UsedPackets;
  }

  lemma PacketsNamed(f: Frame)
    requires ValidFrame(f)
    ensures Distinct(f.derivation.packetDigests)
    ensures forall d :: d in f.derivation.packetDigests <==> exists s :: s in f.slots && d in s.packetDigests
  {
    hide ValidSlot, ValidContext, ValidFrameTime, ValidIdentifier, ValidLifecycle, Less;
    var listed, used := f.derivation.packetDigests, UsedPackets(f.slots);
    forall d ensures d in used <==> exists s :: s in f.slots && d in s.packetDigests {
      Used(f.slots, d);
    }
    assert used <= Members(listed);
    SortedDistinct(listed);
    SubsetSize(used, Members(listed));
    assert forall d :: d in listed <==> d in used;
  }

  lemma Used(slots: seq<Slot>, d: Digest)
    ensures d in UsedPackets(slots) <==> exists s :: s in slots && d in s.packetDigests
  {
    if s :| s in slots && d in s.packetDigests {
      var i :| 0 <= i < |slots| && slots[i] == s;
      assert d in slots[i].packetDigests;
    }
  }
}
