/** What the changes of a difference report say about the two versions. */
module DiffMeaning {
  // Every listed change holds of the versions, and everything that holds is listed; and what a
  // report calls restrictive or broadening is so of the numbers of values that a role admits.

  import opened Wrappers
  import opened ByteStrings
  import opened OntologyDiff

  // ----- what a role admits --------------------------------------------------

  /** A role may have that number of values. */
  predicate Admits(r: Role, n: nat) {
    n <= r.maxValues && (r.required ==> n >= 1)
  }

  predicate Lists(changes: seq<Change>, category: Class) {
    exists c :: c in changes && c.category == category
  }

  /** Between two versions of a role a restrictive change is listed exactly when a number of values
    * that the old one admits is refused by the new one, a broadening one exactly when the new one
    * admits a number that the old one refuses, and a change of meaning exactly when the type of its
    * values is another. */
  lemma RoleCategories(p: Role, r: Role)
    ensures Lists(RoleDifferences(p, r), Restrictive) <==> exists n: nat :: Admits(p, n) && !Admits(r, n)
    ensures Lists(RoleDifferences(p, r), Broadening) <==> exists n: nat :: Admits(r, n) && !Admits(p, n)
    ensures Lists(RoleDifferences(p, r), MeaningChanging) <==> p.valueType != r.valueType
  {
    RoleMembers(p, r);
    hide RoleDifferences;
    if r.maxValues < p.maxValues {
      assert Admits(p, p.maxValues) && !Admits(r, p.maxValues);
    }
    if p.maxValues < r.maxValues {
      assert Admits(r, r.maxValues) && !Admits(p, r.maxValues);
    }
    if p.required != r.required {
      assert p.required ==> Admits(r, 0) && !Admits(p, 0);
      assert r.required ==> Admits(p, 0) && !Admits(r, 0);
    }
    var required := Change(if r.required then Restrictive else Broadening, RoleKind, r.id, RequiredChanged);
    var cardinality := Change(if r.maxValues < p.maxValues then Restrictive else Broadening, RoleKind, r.id, CardinalityChanged);
    var valueType := Change(MeaningChanging, RoleKind, r.id, ValueTypeChanged);
    assert required in RoleDifferences(p, r) <==> p.required != r.required;
    assert cardinality in RoleDifferences(p, r) <==> p.maxValues != r.maxValues;
    assert valueType in RoleDifferences(p, r) <==> p.valueType != r.valueType;
  }

  lemma RoleMembers(p: Role, r: Role)
    ensures forall c :: c in RoleDifferences(p, r) <==> RoleChanged(c, p, r)
  {
  }

  // ----- every change --------------------------------------------------------

  predicate RoleChanged(c: Change, p: Role, r: Role) {
    && c.kind == RoleKind && c.id == r.id
    && match c.detail
       case ValueTypeChanged => p.valueType != r.valueType && c.category == MeaningChanging
       case RequiredChanged =>
         p.required != r.required && c.category == if r.required then Restrictive else Broadening
       case CardinalityChanged =>
         (r.maxValues < p.maxValues && c.category == Restrictive) || (r.maxValues > p.maxValues && c.category == Broadening)
       case _ => false
  }

  predicate ConceptChanged(c: Change, p: Concept, q: Concept) {
    && p != q && c == Change(MeaningChanging, ConceptKind, q.id, DefinitionChanged)
  }

  predicate FrameChanged(c: Change, p: FrameType, q: FrameType) {
    && c.kind == FrameKind && c.id == q.id
    && match c.detail
       case KeyRolesChanged => p.keyRoles != q.keyRoles && c.category == IdentityChanging
       case SlotContractChanged => (p.roles, p.requiredRoles) != (q.roles, q.requiredRoles) && c.category == MeaningChanging
       case _ => false
  }

  /** An entry of a plain set is new, or gone. */
  predicate SetChanged(c: Change, kind: Kind, before: seq<Bytes>, after: seq<Bytes>, removal: Class) {
    || (c == Change(Additive, kind, c.id, Added) && c.id in after && c.id !in before)
    || (c == Change(removal, kind, c.id, Removed) && c.id in before && c.id !in after)
  }

  /** An item is new, or gone, or is there in both versions and changed. */
  ghost predicate ItemChanged<T(!new)>(
    c: Change, kind: Kind, before: seq<T>, after: seq<T>, id: T -> Bytes, removal: Class, changed: (Change, T, T) -> bool)
  {
    || (c == Change(Additive, kind, c.id, Added) && c.id in IDs(after, id) && c.id !in IDs(before, id))
    || (c == Change(removal, kind, c.id, Removed) && c.id in IDs(before, id) && c.id !in IDs(after, id))
    || exists p, q :: p in before && q in after && id(p) == id(q) && changed(c, p, q)
  }

  ghost predicate Happened(c: Change, before: Module, after: Module) {
    match c.kind
    case ImportKind => SetChanged(c, ImportKind, before.imports, after.imports, MeaningChanging)
    case MappingKind => SetChanged(c, MappingKind, before.mappings, after.mappings, MeaningChanging)
    case QueryKind => SetChanged(c, QueryKind, before.queries, after.queries, Deprecation)
    case VisualizationKind => SetChanged(c, VisualizationKind, before.visualizations, after.visualizations, Deprecation)
    case ConceptKind =>
      ItemChanged(c, ConceptKind, before.concepts, after.concepts, ConceptID, MeaningChanging, ConceptChanged)
    case RoleKind => ItemChanged(c, RoleKind, before.roles, after.roles, RoleID, Restrictive, RoleChanged)
    case FrameKind => ItemChanged(c, FrameKind, before.frames, after.frames, FrameID, MeaningChanging, FrameChanged)
    case StatusKind =>
      && before.status != after.status && c.id == [] && c.detail == StatusChanged(before.status, after.status)
      && c.category == if after.status in {Ascii("deprecated"), Ascii("superseded")} then Deprecation else MeaningChanging
  }

  lemma SetExactly(c: Change, kind: Kind, before: seq<Bytes>, after: seq<Bytes>, removal: Class)
    requires removal != Additive
    ensures c in SetChanges(kind, before, after, removal) <==> SetChanged(c, kind, before, after, removal)
    ensures SetChanged(c, kind, before, after, removal) ==> c.kind == kind
  {
    Collected(after, AddedTo(kind, before), c);
    Collected(before, RemovedFrom(kind, after, removal), c);
    hide Collect;
    if c.id in after {
      var i :| 0 <= i < |after| && after[i] == c.id;
      assert c == Change(Additive, kind, c.id, Added) && c.id !in before ==> c in AddedTo(kind, before)(after[i]);
    }
    if c.id in before {
      var i :| 0 <= i < |before| && before[i] == c.id;
      assert c == Change(removal, kind, c.id, Removed) && c.id !in after ==> c in RemovedFrom(kind, after, removal)(before[i]);
    }
  }

  // What is said of an item against the earlier version, and of one that is gone.
  ghost predicate Says<T(!new)>(
    kind: Kind, before: seq<T>, after: seq<T>, id: T -> Bytes, removal: Class, changed: (Change, T, T) -> bool,
    against: T -> seq<Change>, gone: T -> seq<Change>)
  {
    && (forall t, c :: c in against(t) <==>
          var p := Find(before, id, id(t));
          if p.None? then c == Change(Additive, kind, id(t), Added) else changed(c, p.value, t))
    && (forall t, c :: c in gone(t) <==> Find(after, id, id(t)).None? && c == Change(removal, kind, id(t), Removed))
    && (forall c, p, q :: changed(c, p, q) ==> c.kind == kind)
  }

  lemma FindIsMember<T(!new)>(s: seq<T>, id: T -> Bytes, k: Bytes)
    ensures Find(s, id, k).Some? <==> k in IDs(s, id)
  {
    if Find(s, id, k).Some? {
      var i :| 0 <= i < |s| && s[i] == Find(s, id, k).value;
      assert IDs(s, id)[i] == k;
    }
    if k in IDs(s, id) {
      var i :| 0 <= i < |s| && IDs(s, id)[i] == k;
      assert id(s[i]) == k;
    }
  }

  lemma ItemsExactly<T(!new)>(
    c: Change, kind: Kind, before: seq<T>, after: seq<T>, id: T -> Bytes, removal: Class, changed: (Change, T, T) -> bool,
    against: T -> seq<Change>, gone: T -> seq<Change>)
    requires StrictlySorted(IDs(before, id)) && Says(kind, before, after, id, removal, changed, against, gone)
    ensures c in Collect(after, against) + Collect(before, gone)
            <==> ItemChanged(c, kind, before, after, id, removal, changed)
    ensures ItemChanged(c, kind, before, after, id, removal, changed) ==> c.kind == kind
  {
    Collected(after, against, c);
    Collected(before, gone, c);
    UniqueItems(before, id);
    hide Collect, StrictlySorted, ItemChanged, Says, Find;
    if i :| 0 <= i < |after| && c in against(after[i]) {
      SaidOfItem(c, kind, before, after, id, removal, changed, against, gone, i);
    }
    if i :| 0 <= i < |before| && c in gone(before[i]) {
      SaidOfGone(c, kind, before, after, id, removal, changed, against, gone, i);
    }
    if ItemChanged(c, kind, before, after, id, removal, changed) {
      ChangedIsSaid(c, kind, before, after, id, removal, changed, against, gone);
    }
  }

  lemma SaidOfItem<T(!new)>(
    c: Change, kind: Kind, before: seq<T>, after: seq<T>, id: T -> Bytes, removal: Class, changed: (Change, T, T) -> bool,
    against: T -> seq<Change>, gone: T -> seq<Change>, i: nat)
    requires Says(kind, before, after, id, removal, changed, against, gone) && i < |after| && c in against(after[i])
    ensures ItemChanged(c, kind, before, after, id, removal, changed)
  {
    FindIsMember(before, id, id(after[i]));
    assert IDs(after, id)[i] == id(after[i]) && after[i] in after;
  }

  lemma SaidOfGone<T(!new)>(
    c: Change, kind: Kind, before: seq<T>, after: seq<T>, id: T -> Bytes, removal: Class, changed: (Change, T, T) -> bool,
    against: T -> seq<Change>, gone: T -> seq<Change>, i: nat)
    requires Says(kind, before, after, id, removal, changed, against, gone) && i < |before| && c in gone(before[i])
    ensures ItemChanged(c, kind, before, after, id, removal, changed)
  {
    FindIsMember(after, id, id(before[i]));
    assert IDs(before, id)[i] == id(before[i]);
  }

  lemma ChangedIsSaid<T(!new)>(
    c: Change, kind: Kind, before: seq<T>, after: seq<T>, id: T -> Bytes, removal: Class, changed: (Change, T, T) -> bool,
    against: T -> seq<Change>, gone: T -> seq<Change>)
    requires Says(kind, before, after, id, removal, changed, against, gone)
    requires forall p :: p in before ==> Find(before, id, id(p)) == Some(p)
    requires ItemChanged(c, kind, before, after, id, removal, changed)
    ensures (exists i :: 0 <= i < |after| && c in against(after[i])) || (exists i :: 0 <= i < |before| && c in gone(before[i]))
    ensures c.kind == kind
  {
    if c == Change(Additive, kind, c.id, Added) && c.id in IDs(after, id) && c.id !in IDs(before, id) {
      var i :| 0 <= i < |after| && IDs(after, id)[i] == c.id;
      FindIsMember(before, id, c.id);
      assert c in against(after[i]);
    } else if c == Change(removal, kind, c.id, Removed) && c.id in IDs(before, id) && c.id !in IDs(after, id) {
      var i :| 0 <= i < |before| && IDs(before, id)[i] == c.id;
      FindIsMember(after, id, c.id);
      assert c in gone(before[i]);
    } else {
      var p, q :| p in before && q in after && id(p) == id(q) && changed(c, p, q);
      var i :| 0 <= i < |after| && after[i] == q;
      assert c in against(after[i]);
    }
  }

  lemma ConceptsSay(before: seq<Concept>, after: seq<Concept>)
    ensures Says(ConceptKind, before, after, ConceptID, MeaningChanging, ConceptChanged,
                 ConceptAgainst(before), ConceptGone(after))
  {
    hide Find;
  }

  lemma RolesSay(before: seq<Role>, after: seq<Role>)
    ensures Says(RoleKind, before, after, RoleID, Restrictive, RoleChanged, RoleAgainst(before), RoleGone(after))
  {
    hide Find, RoleDifferences, RoleChanged;
    forall p, r ensures forall c :: c in RoleDifferences(p, r) <==> RoleChanged(c, p, r) {
      RoleMembers(p, r);
    }
    RoleKinds();
  }

  lemma RoleKinds()
    ensures forall c, p, q :: RoleChanged(c, p, q) ==> c.kind == RoleKind
  {
  }

  lemma FramesSay(before: seq<FrameType>, after: seq<FrameType>)
    ensures Says(FrameKind, before, after, FrameID, MeaningChanging, FrameChanged, FrameAgainst(before), FrameGone(after))
  {
    hide Find, FrameDifferences, FrameChanged;
    forall p, f ensures forall c :: c in FrameDifferences(p, f) <==> FrameChanged(c, p, f) {
      FrameMembers(p, f);
    }
    FrameKinds();
  }

  lemma FrameMembers(p: FrameType, f: FrameType)
    ensures forall c :: c in FrameDifferences(p, f) <==> FrameChanged(c, p, f)
  {
  }

  lemma FrameKinds()
    ensures forall c, p, q :: FrameChanged(c, p, q) ==> c.kind == FrameKind
  {
  }

  /** A report lists exactly what happened between the two versions, each under its category. */
  lemma ChangesExactly(before: Module, after: Module, c: Change)
    requires ValidModule(before) && ValidModule(after)
    ensures c in Changes(before, after) <==> Happened(c, before, after)
  {
    ConceptsSay(before.concepts, after.concepts);
    RolesSay(before.roles, after.roles);
    FramesSay(before.frames, after.frames);
    hide Says, Collect, SetChanged, ItemChanged, SetChanges, StrictlySorted;
    SetExactly(c, ImportKind, before.imports, after.imports, MeaningChanging);
    SetExactly(c, MappingKind, before.mappings, after.mappings, MeaningChanging);
    SetExactly(c, QueryKind, before.queries, after.queries, Deprecation);
    SetExactly(c, VisualizationKind, before.visualizations, after.visualizations, Deprecation);
    ItemsExactly(c, ConceptKind, before.concepts, after.concepts, ConceptID, MeaningChanging, ConceptChanged,
                 ConceptAgainst(before.concepts), ConceptGone(after.concepts));
    ItemsExactly(c, RoleKind, before.roles, after.roles, RoleID, Restrictive, RoleChanged,
                 RoleAgainst(before.roles), RoleGone(after.roles));
    ItemsExactly(c, FrameKind, before.frames, after.frames, FrameID, MeaningChanging, FrameChanged,
                 FrameAgainst(before.frames), FrameGone(after.frames));
  }
}
