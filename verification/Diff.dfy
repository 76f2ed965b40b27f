/** The difference report between two versions of an ontology module (internal/ontologyfabric/diff.go). */
module OntologyDiff {
  // Validity is that of internal/ontologyfabric/source.go.

  import opened Wrappers
  import opened ByteStrings

  datatype Label = Label(language: Bytes, value: Bytes)
  datatype Concept = Concept(id: Bytes, kind: Bytes, labels: seq<Label>, broader: seq<Bytes>)
  datatype Role = Role(id: Bytes, valueType: Bytes, required: bool, maxValues: nat)
  datatype FrameType = FrameType(id: Bytes, roles: seq<Bytes>, requiredRoles: seq<Bytes>, keyRoles: seq<Bytes>)

  datatype Module = Module(
    moduleID: Bytes, version: Bytes, status: Bytes, imports: seq<Bytes>, concepts: seq<Concept>, roles: seq<Role>,
    frames: seq<FrameType>, mappings: seq<Bytes>, queries: seq<Bytes>, visualizations: seq<Bytes>)

  datatype Class = Additive | MeaningChanging | Deprecation | Broadening | Restrictive | IdentityChanging

  datatype Kind =
    | ImportKind | MappingKind | QueryKind | VisualizationKind | ConceptKind | RoleKind | FrameKind | StatusKind

  datatype Detail =
    | Added | Removed | DefinitionChanged | ValueTypeChanged | RequiredChanged | CardinalityChanged
    | KeyRolesChanged | SlotContractChanged | StatusChanged(before: Bytes, after: Bytes)

  /** One change of the object that `kind` and `id` name. */
  datatype Change = Change(category: Class, kind: Kind, id: Bytes, detail: Detail)

  // ----- validity ------------------------------------------------------------

  function ConceptID(c: Concept): Bytes { c.id }
  function RoleID(r: Role): Bytes { r.id }
  function FrameID(f: FrameType): Bytes { f.id }

  function IDs<T>(s: seq<T>, id: T -> Bytes): seq<Bytes> {
    seq(|s|, i requires 0 <= i < |s| => id(s[i]))
  }

  /** The part of validity that the report relies on: every list is strictly sorted by ID. */
  predicate ValidModule(m: Module) {
    && StrictlySorted(m.imports) && StrictlySorted(m.mappings) && StrictlySorted(m.queries)
    && StrictlySorted(m.visualizations)
    && StrictlySorted(IDs(m.concepts, ConceptID)) && StrictlySorted(IDs(m.roles, RoleID))
    && StrictlySorted(IDs(m.frames, FrameID))
  }

  // ----- what a report should list -------------------------------------------

  /** What `f` says of each item, one after the other. */
  function Collect<T>(items: seq<T>, f: T -> seq<Change>): seq<Change> {
    if items == [] then [] else Collect(items[..|items| - 1], f) + f(items[|items| - 1])
  }

  lemma {:induction false} Collected<T>(items: seq<T>, f: T -> seq<Change>, c: Change)
    ensures c in Collect(items, f) <==> exists i :: 0 <= i < |items| && c in f(items[i])
  {
    if items != [] {
      var n := |items| - 1;
      Collected(items[..n], f, c);
      if c in Collect(items[..n], f) {
        var i :| 0 <= i < n && c in f(items[..n][i]);
        assert items[i] == items[..n][i];
      }
      if i :| 0 <= i < |items| && c in f(items[i]) {
        if i < n {
          assert items[..n][i] == items[i];
        }
      }
    }
  }

  function AddedTo(kind: Kind, earlier: seq<Bytes>): Bytes -> seq<Change> {
    (v: Bytes) => if v in earlier then [] else [Change(Additive, kind, v, Added)]
  }

  function RemovedFrom(kind: Kind, next: seq<Bytes>, category: Class): Bytes -> seq<Change> {
    (v: Bytes) => if v in next then [] else [Change(category, kind, v, Removed)]
  }

  function SetChanges(kind: Kind, earlier: seq<Bytes>, next: seq<Bytes>, category: Class): seq<Change> {
    Collect(next, AddedTo(kind, earlier)) + Collect(earlier, RemovedFrom(kind, next, category))
  }

  /** The item with an ID, the last one if there are several. */
  function Find<T>(s: seq<T>, id: T -> Bytes, k: Bytes): (t: Option<T>)
    ensures t.Some? ==> t.value in s && id(t.value) == k
    ensures t.None? ==> forall i :: 0 <= i < |s| ==> id(s[i]) != k
  {
    if s == [] then None
    else
      var last := s[|s| - 1];
      if id(last) == k then Some(last) else Find(s[..|s| - 1], id, k)
  }

  function If(condition: bool, c: Change): seq<Change> {
    if condition then [c] else []
  }

  function ConceptAgainst(earlier: seq<Concept>): Concept -> seq<Change> {
    (c: Concept) =>
      var prior := Find(earlier, ConceptID, c.id);
      if prior.None? then [Change(Additive, ConceptKind, c.id, Added)]
      else If(prior.value.kind != c.kind || prior.value.labels != c.labels || prior.value.broader != c.broader,
              Change(MeaningChanging, ConceptKind, c.id, DefinitionChanged))
  }

  function ConceptGone(next: seq<Concept>): Concept -> seq<Change> {
    (c: Concept) => If(Find(next, ConceptID, c.id).None?, Change(MeaningChanging, ConceptKind, c.id, Removed))
  }

  function RoleDifferences(p: Role, r: Role): seq<Change> {
    If(p.valueType != r.valueType, Change(MeaningChanging, RoleKind, r.id, ValueTypeChanged))
    + If(p.required != r.required, Change(if r.required then Restrictive else Broadening, RoleKind, r.id, RequiredChanged))
    + If(p.maxValues != r.maxValues,
         Change(if r.maxValues < p.maxValues then Restrictive else Broadening, RoleKind, r.id, CardinalityChanged))
  }

  function RoleAgainst(earlier: seq<Role>): Role -> seq<Change> {
    (r: Role) =>
      var prior := Find(earlier, RoleID, r.id);
      if prior.None? then [Change(Additive, RoleKind, r.id, Added)] else RoleDifferences(prior.value, r)
  }

  function RoleGone(next: seq<Role>): Role -> seq<Change> {
    (r: Role) => If(Find(next, RoleID, r.id).None?, Change(Restrictive, RoleKind, r.id, Removed))
  }

  function FrameDifferences(p: FrameType, f: FrameType): seq<Change> {
    If(p.keyRoles != f.keyRoles, Change(IdentityChanging, FrameKind, f.id, KeyRolesChanged))
    + If(p.roles != f.roles || p.requiredRoles != f.requiredRoles,
         Change(MeaningChanging, FrameKind, f.id, SlotContractChanged))
  }

  function FrameAgainst(earlier: seq<FrameType>): FrameType -> seq<Change> {
    (f: FrameType) =>
      var prior := Find(earlier, FrameID, f.id);
      if prior.None? then [Change(Additive, FrameKind, f.id, Added)] else FrameDifferences(prior.value, f)
  }

  function FrameGone(next: seq<FrameType>): FrameType -> seq<Change> {
    (f: FrameType) => If(Find(next, FrameID, f.id).None?, Change(MeaningChanging, FrameKind, f.id, Removed))
  }

  function ConceptChanges(earlier: seq<Concept>, next: seq<Concept>): seq<Change> {
    Collect(next, ConceptAgainst(earlier)) + Collect(earlier, ConceptGone(next))
  }

  function RoleChanges(earlier: seq<Role>, next: seq<Role>): seq<Change> {
    Collect(next, RoleAgainst(earlier)) + Collect(earlier, RoleGone(next))
  }

  function FrameChanges(earlier: seq<FrameType>, next: seq<FrameType>): seq<Change> {
    Collect(next, FrameAgainst(earlier)) + Collect(earlier, FrameGone(next))
  }

  function StatusClass(after: Bytes): Class {
    if after == Ascii("deprecated") || after == Ascii("superseded") then Deprecation else MeaningChanging
  }

  function StatusChanges(before: Module, after: Module): seq<Change> {
    If(before.status != after.status,
       Change(StatusClass(after.status), StatusKind, [], StatusChanged(before.status, after.status)))
  }

  /** Every change from one version to the next, before the final sort. */
  function Changes(before: Module, after: Module): seq<Change> {
    SetChanges(ImportKind, before.imports, after.imports, MeaningChanging)
    + SetChanges(MappingKind, before.mappings, after.mappings, MeaningChanging)
    + SetChanges(QueryKind, before.queries, after.queries, Deprecation)
    + SetChanges(VisualizationKind, before.visualizations, after.visualizations, Deprecation)
    + ConceptChanges(before.concepts, after.concepts)
    + RoleChanges(before.roles, after.roles)
    + FrameChanges(before.frames, after.frames)
    + StatusChanges(before, after)
  }

  predicate AllAdditive(changes: seq<Change>) {
    forall c :: c in changes ==> c.category == Additive
  }

  // ----- the report ----------------------------------------------------------

  lemma Regroup(a: seq<Change>, b: seq<Change>, c: seq<Change>, d: seq<Change>)
    ensures a + b + c + d == a + (b + c + d)
  {
  }

  /** The report under construction. It is compatible while every change in it is additive. */
  class Report {
    var compatible: bool
    var changes: seq<Change>

    ghost predicate Valid()
      reads this
    {
      compatible <==> AllAdditive(changes)
    }

    constructor ()
      ensures Valid() && changes == []
    {
      compatible, changes := true, [];
    }

    method Add(c: Change)
      requires Valid() && c.category == Additive
      modifies this
      ensures Valid() && changes == old(changes) + [c]
    {
      changes := changes + [c];
    }

    method Break(c: Change)
      requires Valid() && c.category != Additive
      modifies this
      ensures Valid() && changes == old(changes) + [c]
    {
      changes := changes + [c];
      compatible := false;
      assert changes[|changes| - 1] == c && c in changes;
    }

    // What one item of a list adds to the report.
    method Append(ghost expected: seq<Change>, found: bool, c: Change)
      requires Valid() && expected == If(found, c) && c.category != Additive
      modifies this
      ensures Valid() && changes == old(changes) + expected
    {
      if found {
        Break(c);
      } else {
        assert changes + [] == changes;
      }
    }

    method AppendAdded(kind: Kind, earlier: seq<Bytes>, v: Bytes)
      requires Valid()
      modifies this
      ensures Valid() && changes == old(changes) + AddedTo(kind, earlier)(v)
    {
      if v !in earlier {
        Add(Change(Additive, kind, v, Added));
      } else {
        assert changes + [] == changes;
      }
    }

    method AppendSetChanges(kind: Kind, earlier: seq<Bytes>, next: seq<Bytes>, category: Class)
      requires Valid() && category != Additive
      modifies this
      ensures Valid() && changes == old(changes) + SetChanges(kind, earlier, next, category)
    {
      hide AllAdditive, Collect;
      ghost var start := changes;
      NothingCollected(start, next, AddedTo(kind, earlier));
      for i := 0 to |next|
        invariant Valid() && changes == start + Collect(next[..i], AddedTo(kind, earlier))
      {
        CollectNext(start, next, i, AddedTo(kind, earlier));
        AppendAdded(kind, earlier, next[i]);
      }
      assert next[..|next|] == next;
      ghost var added := changes;
      NothingCollected(added, earlier, RemovedFrom(kind, next, category));
      for i := 0 to |earlier|
        invariant Valid() && changes == added + Collect(earlier[..i], RemovedFrom(kind, next, category))
      {
        CollectNext(added, earlier, i, RemovedFrom(kind, next, category));
        Append(RemovedFrom(kind, next, category)(earlier[i]), earlier[i] !in next, Change(category, kind, earlier[i], Removed));
      }
      assert earlier[..|earlier|] == earlier;
    }

    method AppendConcept(earlier: seq<Concept>, c: Concept)
      requires Valid()
      modifies this
      ensures Valid() && changes == old(changes) + ConceptAgainst(earlier)(c)
    {
      hide AllAdditive, Find;
      var prior := Find(earlier, ConceptID, c.id);
      if prior.None? {
        Add(Change(Additive, ConceptKind, c.id, Added));
        return;
      }
      var changed := prior.value.kind != c.kind || prior.value.labels != c.labels || prior.value.broader != c.broader;
      Append(ConceptAgainst(earlier)(c), changed, Change(MeaningChanging, ConceptKind, c.id, DefinitionChanged));
    }

    method DiffConcepts(earlier: seq<Concept>, next: seq<Concept>)
      requires Valid()
      modifies this
      ensures Valid() && changes == old(changes) + ConceptChanges(earlier, next)
    {
      hide AllAdditive, Find, Collect, ConceptAgainst;
      ghost var start := changes;
      NothingCollected(start, next, ConceptAgainst(earlier));
      for i := 0 to |next|
        invariant Valid() && changes == start + Collect(next[..i], ConceptAgainst(earlier))
      {
        CollectNext(start, next, i, ConceptAgainst(earlier));
        AppendConcept(earlier, next[i]);
      }
      assert next[..|next|] == next;
      ghost var added := changes;
      NothingCollected(added, earlier, ConceptGone(next));
      for i := 0 to |earlier|
        invariant Valid() && changes == added + Collect(earlier[..i], ConceptGone(next))
      {
        CollectNext(added, earlier, i, ConceptGone(next));
        Append(ConceptGone(next)(earlier[i]), Find(next, ConceptID, earlier[i].id).None?,
               Change(MeaningChanging, ConceptKind, earlier[i].id, Removed));
      }
      assert earlier[..|earlier|] == earlier;
    }

    method AppendRole(earlier: seq<Role>, r: Role)
      requires Valid()
      modifies this
      ensures Valid() && changes == old(changes) + RoleAgainst(earlier)(r)
    {
      hide AllAdditive, Find, If;
      var prior := Find(earlier, RoleID, r.id);
      if prior.None? {
        Add(Change(Additive, RoleKind, r.id, Added));
        return;
      }
      var valueType := Change(MeaningChanging, RoleKind, r.id, ValueTypeChanged);
      var required := Change(if r.required then Restrictive else Broadening, RoleKind, r.id, RequiredChanged);
      var cardinality := Change(if r.maxValues < prior.value.maxValues then Restrictive else Broadening, RoleKind, r.id,
                                CardinalityChanged);
      ghost var before := changes;
      ghost var first := If(prior.value.valueType != r.valueType, valueType);
      ghost var second := If(prior.value.required != r.required, required);
      ghost var third := If(prior.value.maxValues != r.maxValues, cardinality);
      assert RoleAgainst(earlier)(r) == first + second + third;
      hide RoleAgainst, RoleDifferences;
      Append(first, prior.value.valueType != r.valueType, valueType);
      Append(second, prior.value.required != r.required, required);
      Append(third, prior.value.maxValues != r.maxValues, cardinality);
      Regroup(before, first, second, third);
    }

    method DiffRoles(earlier: seq<Role>, next: seq<Role>)
      requires Valid()
      modifies this
      ensures Valid() && changes == old(changes) + RoleChanges(earlier, next)
    {
      hide AllAdditive, Find, Collect, RoleAgainst;
      ghost var start := changes;
      NothingCollected(start, next, RoleAgainst(earlier));
      for i := 0 to |next|
        invariant Valid() && changes == start + Collect(next[..i], RoleAgainst(earlier))
      {
        CollectNext(start, next, i, RoleAgainst(earlier));
        AppendRole(earlier, next[i]);
      }
      assert next[..|next|] == next;
      ghost var added := changes;
      NothingCollected(added, earlier, RoleGone(next));
      for i := 0 to |earlier|
        invariant Valid() && changes == added + Collect(earlier[..i], RoleGone(next))
      {
        CollectNext(added, earlier, i, RoleGone(next));
        Append(RoleGone(next)(earlier[i]), Find(next, RoleID, earlier[i].id).None?,
               Change(Restrictive, RoleKind, earlier[i].id, Removed));
      }
      assert earlier[..|earlier|] == earlier;
    }

    method AppendFrame(earlier: seq<FrameType>, f: FrameType)
      requires Valid()
      modifies this
      ensures Valid() && changes == old(changes) + FrameAgainst(earlier)(f)
    {
      hide AllAdditive, Find;
      var prior := Find(earlier, FrameID, f.id);
      if prior.None? {
        Add(Change(Additive, FrameKind, f.id, Added));
        return;
      }
      var keys := prior.value.keyRoles != f.keyRoles;
      var slots := prior.value.roles != f.roles || prior.value.requiredRoles != f.requiredRoles;
      ghost var before := changes;
      ghost var first := If(keys, Change(IdentityChanging, FrameKind, f.id, KeyRolesChanged));
      ghost var second := If(slots, Change(MeaningChanging, FrameKind, f.id, SlotContractChanged));
      Append(first, keys, Change(IdentityChanging, FrameKind, f.id, KeyRolesChanged));
      Append(second, slots, Change(MeaningChanging, FrameKind, f.id, SlotContractChanged));
      assert before + first + second == before + (first + second);
    }

    method DiffFrames(earlier: seq<FrameType>, next: seq<FrameType>)
      requires Valid()
      modifies this
      ensures Valid() && changes == old(changes) + FrameChanges(earlier, next)
    {
      hide AllAdditive, Find, Collect, FrameAgainst;
      ghost var start := changes;
      NothingCollected(start, next, FrameAgainst(earlier));
      for i := 0 to |next|
        invariant Valid() && changes == start + Collect(next[..i], FrameAgainst(earlier))
      {
        CollectNext(start, next, i, FrameAgainst(earlier));
        AppendFrame(earlier, next[i]);
      }
      assert next[..|next|] == next;
      ghost var added := changes;
      NothingCollected(added, earlier, FrameGone(next));
      for i := 0 to |earlier|
        invariant Valid() && changes == added + Collect(earlier[..i], FrameGone(next))
      {
        CollectNext(added, earlier, i, FrameGone(next));
        Append(FrameGone(next)(earlier[i]), Find(next, FrameID, earlier[i].id).None?,
               Change(MeaningChanging, FrameKind, earlier[i].id, Removed));
      }
      assert earlier[..|earlier|] == earlier;
    }
  }

  lemma NothingCollected<T>(start: seq<Change>, items: seq<T>, f: T -> seq<Change>)
    ensures start == start + Collect(items[..0], f)
  {
  }

  lemma CollectNext<T>(start: seq<Change>, items: seq<T>, i: nat, f: T -> seq<Change>)
    requires i < |items|
    ensures start + Collect(items[..i + 1], f) == start + Collect(items[..i], f) + f(items[i])
  {
    assert items[..i + 1][..i] == items[..i];
  }

  /** The report from one version to the next; `valid` is the validity of module sources, which
    * includes that lists are sorted by ID. */
  method Diff(before: Module, after: Module, valid: Module -> bool) returns (r: Option<Report>)
    requires forall m :: valid(m) ==> ValidModule(m)
    ensures r.Some? <==> valid(before) && valid(after) && before.moduleID == after.moduleID
    ensures r.Some? ==> fresh(r.value) && r.value.Valid() && r.value.changes == Changes(before, after)
    ensures r.Some? ==> (r.value.compatible <==> Survives(before, after))
  {
    hide SetChanges, ConceptChanges, RoleChanges, FrameChanges, AllAdditive, If, ValidModule, Survives;
    if !valid(before) || !valid(after) || before.moduleID != after.moduleID {
      return None;
    }
    var report := new Report();
    report.AppendSetChanges(ImportKind, before.imports, after.imports, MeaningChanging);
    assert report.changes == SetChanges(ImportKind, before.imports, after.imports, MeaningChanging);
    report.AppendSetChanges(MappingKind, before.mappings, after.mappings, MeaningChanging);
    report.AppendSetChanges(QueryKind, before.queries, after.queries, Deprecation);
    report.AppendSetChanges(VisualizationKind, before.visualizations, after.visualizations, Deprecation);
    report.DiffConcepts(before.concepts, after.concepts);
    report.DiffRoles(before.roles, after.roles);
    report.DiffFrames(before.frames, after.frames);
    var category := MeaningChanging;
    if after.status == Ascii("deprecated") || after.status == Ascii("superseded") {
      category := Deprecation;
    }
    assert category == StatusClass(after.status);
    report.Append(StatusChanges(before, after), before.status != after.status,
                  Change(category, StatusKind, [], StatusChanged(before.status, after.status)));
    CompatibleIsSurvival(before, after);
    r := Some(report);
  }

  // ----- compatibility -------------------------------------------------------

  /** Everything in the old version is in the new one, unchanged. */
  predicate Survives(before: Module, after: Module) {
    && (forall v :: v in before.imports ==> v in after.imports)
    && (forall v :: v in before.mappings ==> v in after.mappings)
    && (forall v :: v in before.queries ==> v in after.queries)
    && (forall v :: v in before.visualizations ==> v in after.visualizations)
    && (forall c :: c in before.concepts ==> c in after.concepts)
    && (forall r :: r in before.roles ==> r in after.roles)
    && (forall f :: f in before.frames ==> f in after.frames)
    && before.status == after.status
  }

  /** The report between the two versions says compatible. */
  predicate Compatible(before: Module, after: Module) {
    AllAdditive(Changes(before, after))
  }

  lemma SetAdditive(kind: Kind, earlier: seq<Bytes>, next: seq<Bytes>, category: Class)
    requires category != Additive
    ensures AllAdditive(SetChanges(kind, earlier, next, category)) <==> forall v :: v in earlier ==> v in next
  {
    forall c: Change ensures c in Collect(next, AddedTo(kind, earlier)) ==> c.category == Additive {
      Collected(next, AddedTo(kind, earlier), c);
    }
    forall c: Change
      ensures c in Collect(earlier, RemovedFrom(kind, next, category)) <==>
              exists i :: 0 <= i < |earlier| && c in RemovedFrom(kind, next, category)(earlier[i])
    {
      Collected(earlier, RemovedFrom(kind, next, category), c);
    }
    forall v | v in earlier && v !in next ensures Change(category, kind, v, Removed) in SetChanges(kind, earlier, next, category) {
      var i :| 0 <= i < |earlier| && earlier[i] == v;
      assert Change(category, kind, v, Removed) in RemovedFrom(kind, next, category)(earlier[i]);
    }
  }

  lemma Additive2(a: seq<Change>, b: seq<Change>)
    ensures AllAdditive(a + b) <==> AllAdditive(a) && AllAdditive(b)
  {
    assert forall c :: c in a + b <==> c in a || c in b;
  }

  // A list of items adds nothing but additive changes when no item does.
  lemma CollectAdditive<T>(items: seq<T>, f: T -> seq<Change>)
    ensures AllAdditive(Collect(items, f)) <==> forall i :: 0 <= i < |items| ==> AllAdditive(f(items[i]))
  {
    forall c: Change ensures c in Collect(items, f) <==> exists i :: 0 <= i < |items| && c in f(items[i]) {
      Collected(items, f, c);
    }
    hide Collect;
    if AllAdditive(Collect(items, f)) {
      forall i, c | 0 <= i < |items| && c in f(items[i]) ensures c.category == Additive {
        assert c in Collect(items, f);
      }
    }
  }

  // In a list sorted by ID an ID has one item.
  lemma UniqueItems<T(!new)>(s: seq<T>, id: T -> Bytes)
    requires StrictlySorted(IDs(s, id))
    ensures forall c, d :: c in s && d in s && id(c) == id(d) ==> c == d
    ensures forall c :: c in s ==> Find(s, id, id(c)) == Some(c)
  {
    SortedDistinct(IDs(s, id));
    forall c, d | c in s && d in s && id(c) == id(d) ensures c == d {
      var i :| 0 <= i < |s| && s[i] == c;
      var j :| 0 <= j < |s| && s[j] == d;
      assert IDs(s, id)[i] == IDs(s, id)[j];
    }
  }

  // An item that had an earlier version is that version.
  predicate Kept<T(==)>(earlier: seq<T>, id: T -> Bytes, t: T) {
    var prior := Find(earlier, id, id(t));
    prior.Some? ==> prior.value == t
  }

  // When changed items and gone items are what breaks, nothing breaks exactly if all survive.
  lemma KeyedAdditive<T(!new)>(
    earlier: seq<T>, next: seq<T>, id: T -> Bytes, against: T -> seq<Change>, gone: T -> seq<Change>)
    requires StrictlySorted(IDs(earlier, id)) && StrictlySorted(IDs(next, id))
    requires forall t :: AllAdditive(against(t)) <==> Kept(earlier, id, t)
    requires forall t :: AllAdditive(gone(t)) <==> Find(next, id, id(t)).Some?
    ensures AllAdditive(Collect(next, against) + Collect(earlier, gone)) <==> forall t :: t in earlier ==> t in next
  {
    hide AllAdditive, Collect;
    UniqueItems(earlier, id);
    UniqueItems(next, id);
    CollectAdditive(next, against);
    CollectAdditive(earlier, gone);
    Additive2(Collect(next, against), Collect(earlier, gone));
    hide Find, IDs;
    if AllAdditive(Collect(next, against) + Collect(earlier, gone)) {
      forall t | t in earlier ensures t in next {
        var i :| 0 <= i < |earlier| && earlier[i] == t;
        assert AllAdditive(gone(earlier[i]));
        var d := Find(next, id, id(t)).value;
        var j :| 0 <= j < |next| && next[j] == d;
        assert AllAdditive(against(next[j]));
      }
    }
    if forall t :: t in earlier ==> t in next {
      forall j | 0 <= j < |next| ensures AllAdditive(against(next[j])) {
        assert next[j] in next;
      }
      forall i | 0 <= i < |earlier| ensures AllAdditive(gone(earlier[i])) {
        assert earlier[i] in earlier;
      }
    }
  }

  lemma IfAdditive(condition: bool, c: Change)
    requires c.category != Additive
    ensures AllAdditive(If(condition, c)) <==> !condition
  {
    assert condition ==> c in If(condition, c);
  }

  lemma ConceptsAdditive(earlier: seq<Concept>, next: seq<Concept>)
    requires StrictlySorted(IDs(earlier, ConceptID)) && StrictlySorted(IDs(next, ConceptID))
    ensures AllAdditive(ConceptChanges(earlier, next)) <==> forall c :: c in earlier ==> c in next
  {
    hide Collect, Find, AllAdditive, If, IDs;
    forall c: Concept ensures AllAdditive(ConceptAgainst(earlier)(c)) <==> Kept(earlier, ConceptID, c) {
      var prior := Find(earlier, ConceptID, c.id);
      AddedAdditive(ConceptKind, c.id);
      if prior.Some? {
        IfAdditive(prior.value != c, Change(MeaningChanging, ConceptKind, c.id, DefinitionChanged));
      }
    }
    forall c: Concept ensures AllAdditive(ConceptGone(next)(c)) <==> Find(next, ConceptID, ConceptID(c)).Some? {
      IfAdditive(Find(next, ConceptID, c.id).None?, Change(MeaningChanging, ConceptKind, c.id, Removed));
    }
    KeyedAdditive(earlier, next, ConceptID, ConceptAgainst(earlier), ConceptGone(next));
  }

  lemma AddedAdditive(kind: Kind, id: Bytes)
    ensures AllAdditive([Change(Additive, kind, id, Added)])
  {
  }

  lemma RolesAdditive(earlier: seq<Role>, next: seq<Role>)
    requires StrictlySorted(IDs(earlier, RoleID)) && StrictlySorted(IDs(next, RoleID))
    ensures AllAdditive(RoleChanges(earlier, next)) <==> forall r :: r in earlier ==> r in next
  {
    hide Collect, Find, AllAdditive, If, IDs;
    forall r: Role ensures AllAdditive(RoleAgainst(earlier)(r)) <==> Kept(earlier, RoleID, r) {
      var prior := Find(earlier, RoleID, r.id);
      AddedAdditive(RoleKind, r.id);
      if prior.Some? {
        RoleAdditive(prior.value, r);
      }
    }
    forall r: Role ensures AllAdditive(RoleGone(next)(r)) <==> Find(next, RoleID, RoleID(r)).Some? {
      IfAdditive(Find(next, RoleID, r.id).None?, Change(Restrictive, RoleKind, r.id, Removed));
    }
    KeyedAdditive(earlier, next, RoleID, RoleAgainst(earlier), RoleGone(next));
  }

  lemma RoleAdditive(p: Role, r: Role)
    requires p.id == r.id
    ensures AllAdditive(RoleDifferences(p, r)) <==> p == r
  {
    hide If, AllAdditive;
    var valueType := Change(MeaningChanging, RoleKind, r.id, ValueTypeChanged);
    var required := Change(if r.required then Restrictive else Broadening, RoleKind, r.id, RequiredChanged);
    var cardinality := Change(if r.maxValues < p.maxValues then Restrictive else Broadening, RoleKind, r.id, CardinalityChanged);
    IfAdditive(p.valueType != r.valueType, valueType);
    IfAdditive(p.required != r.required, required);
    IfAdditive(p.maxValues != r.maxValues, cardinality);
    Additive2(If(p.valueType != r.valueType, valueType), If(p.required != r.required, required));
    Additive2(If(p.valueType != r.valueType, valueType) + If(p.required != r.required, required),
              If(p.maxValues != r.maxValues, cardinality));
  }

  lemma FramesAdditive(earlier: seq<FrameType>, next: seq<FrameType>)
    requires StrictlySorted(IDs(earlier, FrameID)) && StrictlySorted(IDs(next, FrameID))
    ensures AllAdditive(FrameChanges(earlier, next)) <==> forall f :: f in earlier ==> f in next
  {
    hide Collect, Find, AllAdditive, If, IDs;
    forall f: FrameType ensures AllAdditive(FrameAgainst(earlier)(f)) <==> Kept(earlier, FrameID, f) {
      var prior := Find(earlier, FrameID, f.id);
      AddedAdditive(FrameKind, f.id);
      if prior.Some? {
        FrameAdditive(prior.value, f);
      }
    }
    forall f: FrameType ensures AllAdditive(FrameGone(next)(f)) <==> Find(next, FrameID, FrameID(f)).Some? {
      IfAdditive(Find(next, FrameID, f.id).None?, Change(MeaningChanging, FrameKind, f.id, Removed));
    }
    KeyedAdditive(earlier, next, FrameID, FrameAgainst(earlier), FrameGone(next));
  }

  lemma FrameAdditive(p: FrameType, f: FrameType)
    requires p.id == f.id
    ensures AllAdditive(FrameDifferences(p, f)) <==> p == f
  {
    hide If, AllAdditive;
    var keys := Change(IdentityChanging, FrameKind, f.id, KeyRolesChanged);
    var slots := Change(MeaningChanging, FrameKind, f.id, SlotContractChanged);
    IfAdditive(p.keyRoles != f.keyRoles, keys);
    IfAdditive(p.roles != f.roles || p.requiredRoles != f.requiredRoles, slots);
    Additive2(If(p.keyRoles != f.keyRoles, keys), If(p.roles != f.roles || p.requiredRoles != f.requiredRoles, slots));
  }

  lemma StatusAdditive(before: Module, after: Module)
    ensures AllAdditive(StatusChanges(before, after)) <==> before.status == after.status
  {
    var change := Change(StatusClass(after.status), StatusKind, [], StatusChanged(before.status, after.status));
    if before.status != after.status {
      assert change in StatusChanges(before, after);
    }
  }

  /** A report is compatible exactly when everything in the old version survives unchanged. */
  lemma CompatibleIsSurvival(before: Module, after: Module)
    requires ValidModule(before) && ValidModule(after)
    ensures Compatible(before, after) <==> Survives(before, after)
  {
    hide AllAdditive, IDs, Less;
    var s1 := SetChanges(ImportKind, before.imports, after.imports, MeaningChanging);
    var s2 := SetChanges(MappingKind, before.mappings, after.mappings, MeaningChanging);
    var s3 := SetChanges(QueryKind, before.queries, after.queries, Deprecation);
    var s4 := SetChanges(VisualizationKind, before.visualizations, after.visualizations, Deprecation);
    var c, r := ConceptChanges(before.concepts, after.concepts), RoleChanges(before.roles, after.roles);
    var f, t := FrameChanges(before.frames, after.frames), StatusChanges(before, after);
    SetAdditive(ImportKind, before.imports, after.imports, MeaningChanging);
    SetAdditive(MappingKind, before.mappings, after.mappings, MeaningChanging);
    SetAdditive(QueryKind, before.queries, after.queries, Deprecation);
    SetAdditive(VisualizationKind, before.visualizations, after.visualizations, Deprecation);
    ConceptsAdditive(before.concepts, after.concepts);
    RolesAdditive(before.roles, after.roles);
    FramesAdditive(before.frames, after.frames);
    StatusAdditive(before, after);
    hide SetChanges, ConceptChanges, RoleChanges, FrameChanges, StatusChanges;
    Additive2(s1, s2);
    Additive2(s1 + s2, s3);
    Additive2(s1 + s2 + s3, s4);
    Additive2(s1 + s2 + s3 + s4, c);
    Additive2(s1 + s2 + s3 + s4 + c, r);
    Additive2(s1 + s2 + s3 + s4 + c + r, f);
    Additive2(s1 + s2 + s3 + s4 + c + r + f, t);
  }

  /** Compatibility is reflexive. */
  lemma CompatibleWithItself(m: Module)
    requires ValidModule(m)
    ensures Compatible(m, m)
  {
    hide Compatible;
    CompatibleIsSurvival(m, m);
  }

  /** Along any chain of versions, each compatible with the one before it, the last version is
    * compatible with the first. */
  lemma {:induction false} CompatibleAlongChain(versions: seq<Module>)
    requires versions != [] && forall i :: 0 <= i < |versions| ==> ValidModule(versions[i])
    requires forall i :: 0 < i < |versions| ==> Compatible(versions[i - 1], versions[i])
    ensures Compatible(versions[0], versions[|versions| - 1])
  {
    hide Compatible, ValidModule;
    var n := |versions| - 1;
    if n == 0 {
      CompatibleWithItself(versions[0]);
    } else {
      CompatibleAlongChain(versions[..n]);
      CompatibleIsSurvival(versions[0], versions[n - 1]);
      CompatibleIsSurvival(versions[n - 1], versions[n]);
      CompatibleIsSurvival(versions[0], versions[n]);
    }
  }
}
