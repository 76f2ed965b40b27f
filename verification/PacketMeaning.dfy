/** What the trust lane of a packet says about its evidence. */
module PacketMeaning {
  import opened Wrappers
  import opened ByteStrings
  import opened Lexical
  import opened Documents
  import opened Packets

  /** The lanes, with the mapping status that goes with each. */
  datatype Lane = ObservedNative | ProvisionalSemantic | AttestedSemantic

  function Name(l: Lane): Bytes {
    Ascii(match l
          case ObservedNative => "observed_native"
          case ProvisionalSemantic => "provisional_semantic"
          case AttestedSemantic => "attested_semantic")
  }

  function Mapping(l: Lane): Bytes {
    Ascii(match l
          case ObservedNative => "none"
          case ProvisionalSemantic => "candidate"
          case AttestedSemantic => "reviewed")
  }

  /** A packet is in one of three lanes. Exactly outside the first it carries meaning, and then all of
    * it: a semantic predicate, mappings and their closure. The lane decides the mapping status, and
    * only a provisional packet may be less than certain. */
  lemma LanesExactly(p: Packet)
    ensures OneOf(p.epistemic.lane, Lanes()) && ValidLane(p) <==>
              exists l: Lane ::
                && p.epistemic.lane == Name(l) && p.epistemic.mappingStatus == Mapping(l)
                && p.predicate_.semantic.present == (l != ObservedNative)
                && (p.derivation.mappingIDs != []) == (l != ObservedNative)
                && p.derivation.semanticClosureDigest.present == (l != ObservedNative)
                && (p.epistemic.confidenceMillionths.Some? ==> l == ProvisionalSemantic)
  {
    Words();
    var lanes := Lanes();
    assert OneOf(p.epistemic.lane, lanes) <==>
        p.epistemic.lane == Ascii(lanes[0]) || p.epistemic.lane == Ascii(lanes[1]) || p.epistemic.lane == Ascii(lanes[2]);
    hide Ascii, OneOf;
    if OneOf(p.epistemic.lane, Lanes()) && ValidLane(p) {
      var l := if p.epistemic.lane == Ascii("observed_native") then ObservedNative
               else if p.epistemic.lane == Ascii("provisional_semantic") then ProvisionalSemantic else AttestedSemantic;
      assert p.epistemic.lane == Name(l) && p.epistemic.mappingStatus == Mapping(l);
    }
  }

  lemma Words()
    ensures Ascii("observed_native") !in {Ascii("provisional_semantic"), Ascii("attested_semantic")}
    ensures Ascii("provisional_semantic") != Ascii("attested_semantic")
    ensures Ascii("none") !in {Ascii("candidate"), Ascii("reviewed")} && Ascii("candidate") != Ascii("reviewed")
  {
    assert |Ascii("observed_native")| == 15 && |Ascii("provisional_semantic")| == 20 && |Ascii("attested_semantic")| == 17;
    assert |Ascii("none")| == 4 && |Ascii("candidate")| == 9 && |Ascii("reviewed")| == 8;
  }

  // ----- what accepted documents say -----------------------------------------

  predicate Distinct<T(==)>(values: seq<T>) {
    forall i, k :: 0 <= i < k < |values| ==> values[i] != values[k]
  }

  function Keys(dimensions: seq<Dimension>): seq<Bytes> {
    seq(|dimensions|, i requires 0 <= i < |dimensions| => dimensions[i].key)
  }

  /** What a lifecycle says: superseding takes a predecessor, and what is current has none. */
  predicate LifecycleHolds(l: Lifecycle) {
    && (l.state == Ascii("superseded") ==> l.supersedesDigest.present)
    && (l.supersedesDigest.present ==> l.state != Ascii("current"))
  }

  /** What every accepted packet says: only a resolved object has a value, no transformation and no
    * dimension is there twice, certainty is a share of one, and everything is public. */
  lemma PacketsSay(data: Bytes)
    requires Unmarshal(data).Success?
    ensures var p := Unmarshal(data).value;
            && (p.object_.nativeLexical != [] || p.object_.typed.Some? ==> p.object_.nativeStatus == Ascii("resolved"))
            && Distinct(p.derivation.transformationIDs) && Distinct(p.derivation.mappingIDs)
            && Distinct(p.subject.canonicalCandidates) && Distinct(Keys(p.context.dimensions))
            && (p.epistemic.confidenceMillionths.Some? ==>
                  p.epistemic.lane == Ascii("provisional_semantic") && p.epistemic.confidenceMillionths.value <= 1_000_000)
            && LifecycleHolds(p.lifecycle) && p.disclosure == Ascii("public")
  {
    hide *;
    var p := Unmarshal(data).value;
    AcceptedIsValid(data);
    ObjectSays(p);
    ListsSay(p);
    EpistemicSays(p);
  }

  lemma AcceptedIsValid(data: Bytes)
    requires Unmarshal(data).Success?
    ensures ValidPacket(Unmarshal(data).value)
  {
    hide ReadPacket, ValidPacket;
  }

  lemma ObjectSays(p: Packet)
    requires ValidPacket(p)
    ensures p.object_.nativeLexical != [] || p.object_.typed.Some? ==> p.object_.nativeStatus == Ascii("resolved")
  {
    hide Ascii, ValidText, ValidTypedValue, ValidLanguage, OneOf, ValidContext, ValidTime, ValidSource, ValidDerivation;
    hide ValidEpistemic, ValidLane, ValidLifecycle, ValidSubject, ValidPredicate;
  }

  lemma ListsSay(p: Packet)
    requires ValidPacket(p)
    ensures Distinct(p.derivation.transformationIDs) && Distinct(p.derivation.mappingIDs)
    ensures Distinct(p.subject.canonicalCandidates) && Distinct(Keys(p.context.dimensions))
  {
    hide ValidIdentifier, ValidTime, ValidSource, ValidObject, ValidPredicate, ValidTypedValue, OneOf, ValidLane, ValidLifecycle;
    hide Less, ValidLanguage, ValidOptionalIdentifier, ValidOptionalDigest, ValidEpistemic;
    SortedDistinct(p.derivation.mappingIDs);
    SortedDistinct(p.subject.canonicalCandidates);
    SortedDistinct(Keys(p.context.dimensions));
  }

  lemma EpistemicSays(p: Packet)
    requires ValidPacket(p)
    ensures p.epistemic.confidenceMillionths.Some? ==>
              p.epistemic.lane == Ascii("provisional_semantic") && p.epistemic.confidenceMillionths.value <= 1_000_000
    ensures LifecycleHolds(p.lifecycle) && p.disclosure == Ascii("public")
  {
    hide Ascii, ValidObject, ValidContext, ValidTime, ValidSource, ValidDerivation, ValidSubject, ValidPredicate, ValidLane;
    hide ValidIdentifier;
    if p.epistemic.confidenceMillionths.Some? {
      Certain(p);
    }
    assert Disclosures() == ["public"];
  }

  lemma Certain(p: Packet)
    requires OneOf(p.epistemic.lane, Lanes()) && ValidLane(p) && p.epistemic.confidenceMillionths.Some?
    ensures p.epistemic.lane == Ascii("provisional_semantic")
  {
    hide Ascii, ValidLane, OneOf;
    LanesExactly(p);
  }
}
