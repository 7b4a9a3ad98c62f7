/**
 Meaning preservation of the fixture compiler (scripts/telemetry_go_fixture_plan.py `typed`,
 `structured_value`): the source is recovered from the Go value its compiled form evaluates to.
 */
module FixtureReadBack {
  import opened Outcomes
  import opened Sorting
  import opened FixtureData
  import opened FixturePrograms
  import opened FixtureCompiler

  // ----- reading a Go value back by its type

  function FieldOf(declared: seq<Field>, selector: string): Option<Field> {
    if declared == [] then None
    else if declared[0].selector == selector then Some(declared[0])
    else FieldOf(declared[1..], selector)
  }

  /** The declared field that holds a member. */
  function HolderOf(declared: seq<Field>, member: string): Option<Field> {
    if declared == [] then None
    else if declared[0].selector != "Entries" && declared[0].semantic == member then Some(declared[0])
    else HolderOf(declared[1..], member)
  }

  function DynamicType(members: seq<MemberPlan>, part: string): TypeRef {
    if |members| == 1 && part in members[0].fields then members[0].fields[part] else STRING
  }

  function Recover(api: Api, t: TypeRef, g: GoValue): Value
    decreases g, 1
  {
    match t
    case Optional(element) => if g.PresentValue? then Recover(api, element, g.inner) else Null
    case Slice(element) => RecoverList(api, element, g)
    case Builtin(_) => if g.ScalarValue? then Unscalar(g.scalar) else Null
    case Named(name) =>
      if name in NAMED_SCALARS then
        if g.ConvertedValue? && g.inner.ScalarValue? then Unscalar(g.inner.scalar) else Null
      else if name in api.structured && g.StructValue? then
        match api.structured[name]
        case ArrayPlan(itemType) =>
          if |g.fields| == 1 then RecoverList(api, itemType, g.fields[0].value) else Null
        case ObjectPlan(declared, members) => Dict(RecoverFields(api, declared, members, g.fields))
        case UnionPlan => Null
      else Null
    case _ => Null
  }

  function RecoverList(api: Api, element: TypeRef, g: GoValue): Value
    decreases g, 0
  {
    if g.SliceValue? then List(seq(|g.items|, i requires 0 <= i < |g.items| => Recover(api, element, g.items[i])))
    else Null
  }

  /** An absent field has no member; the entries are the members without a field. */
  function RecoverFields(api: Api, declared: seq<Field>, members: seq<MemberPlan>,
                         fields: seq<GoField>): map<string, Value>
    decreases fields, 1
  {
    if fields == [] then map[]
    else
      var before, last := RecoverFields(api, declared, members, fields[..|fields| - 1]), fields[|fields| - 1];
      if last.selector == "Entries" && last.value.SliceValue? then
        before + RecoverEntries(api, DynamicType(members, "Name"), DynamicType(members, "Value"), last.value.items)
      else
        var f := FieldOf(declared, last.selector);
        if f.None? || last.value.AbsentValue? then before
        else before[f.value.semantic := Recover(api, f.value.typeRef, last.value)]
  }

  function RecoverEntries(api: Api, nameType: TypeRef, valueType: TypeRef, items: seq<GoValue>): map<string, Value>
    decreases items, 0
  {
    if items == [] then map[]
    else
      var before, last := RecoverEntries(api, nameType, valueType, items[..|items| - 1]), items[|items| - 1];
      if !last.Made? || |last.arguments| != 2 then before
      else
        var name := Recover(api, nameType, last.arguments[0]);
        if name.Str? then before[name.s := Recover(api, valueType, last.arguments[1])] else before
  }

  // ----- what counts as the same data

  function MemberType(declared: seq<Field>, members: seq<MemberPlan>, member: string): TypeRef {
    var holder := HolderOf(declared, member);
    if holder.Some? then holder.value.typeRef else DynamicType(members, "Value")
  }

  /** A null in an optional field is read as absence. */
  predicate ReadsAsAbsent(declared: seq<Field>, raw: map<string, Value>, member: string)
    requires member in raw
  {
    raw[member].Null? && HolderOf(declared, member).Some? && HolderOf(declared, member).value.typeRef.Optional?
  }

  /**
   `w` is the source value `v` as seen through the type: the same scalars, except that an integer in a
   float64 place is widened; the same items in order; the same members, except nulls of optional fields. The
   members of a typed-data wrapper, a mapping with just `$type` and `fields`, are those under `fields`.
   */
  ghost predicate Agrees(api: Api, t: TypeRef, v: Value, w: Value)
    decreases Level(v), v, 2, t
  {
    match t
    case Optional(element) => if v.Null? then w.Null? else Agrees(api, element, v, w)
    case Slice(element) => SameItems(api, element, v, w)
    case Builtin(name) =>
      if name == "float64" && v.Int? then api.widen(v.i).Some? && w == Float(Finite(api.widen(v.i).value)) else w == v
    case Named(name) =>
      if name in NAMED_SCALARS || name !in api.structured then w == v
      else SameStructure(api, api.structured[name], v, w)
    case _ => false
  }

  ghost predicate SameStructure(api: Api, plan: Structured, v: Value, w: Value)
    decreases Level(v), v, 1, STRING
  {
    match plan
    case ArrayPlan(itemType) => SameItems(api, itemType, v, w)
    case ObjectPlan(declared, members) =>
      v.Dict? && w.Dict? &&
      var raw := Mapping(v);
      && (forall k :: k in w.members <==> k in raw && !ReadsAsAbsent(declared, raw, k))
      && forall k | k in raw && k in w.members :: Agrees(api, MemberType(declared, members, k), raw[k], w.members[k])
    case UnionPlan => false
  }

  ghost predicate SameItems(api: Api, element: TypeRef, v: Value, w: Value)
    decreases Level(v), v, 0, STRING
  {
    v.List? && w.List? && |v.items| == |w.items| &&
    forall i | 0 <= i < |v.items| :: Agrees(api, element, v.items[i], w.items[i])
  }

  /** Distinct selectors and distinct members among the declared fields of each structured type. */
  ghost predicate PlanOk(declared: seq<Field>) {
    forall i, j | 0 <= i < j < |declared| && declared[i].selector != "Entries" && declared[j].selector != "Entries" ::
      declared[i].selector != declared[j].selector && declared[i].semantic != declared[j].semantic
  }

  ghost predicate WellFormed(api: Api) {
    forall name | name in api.structured && api.structured[name].ObjectPlan? :: PlanOk(api.structured[name].declared)
  }

  // ----- lookups in a well-formed plan

  lemma {:induction false} FieldOfAt(declared: seq<Field>, i: nat)
    requires PlanOk(declared) && i < |declared| && declared[i].selector != "Entries"
    ensures FieldOf(declared, declared[i].selector) == Some(declared[i])
    ensures HolderOf(declared, declared[i].semantic) == Some(declared[i])
  {
    if i > 0 {
      assert declared[1..][i - 1] == declared[i];
      FieldOfAt(declared[1..], i - 1);
    }
  }

  lemma {:induction false} HolderIsConsumed(declared: seq<Field>, member: string)
    ensures HolderOf(declared, member).Some? <==> member in Consumed(declared)
    ensures HolderOf(declared, member).Some? ==> Holds(declared, member)
  {
    if declared != [] {
      HolderIsConsumed(declared[1..], member);
      assert forall f :: f in declared <==> f == declared[0] || f in declared[1..];
      if HolderOf(declared, member).Some? {
        if declared[0].selector != "Entries" && declared[0].semantic == member {
          assert declared[0] == HolderOf(declared, member).value;
        } else {
          var i :| 0 <= i < |declared[1..]| && declared[1..][i].selector != "Entries" &&
              declared[1..][i].semantic == member;
          assert declared[i + 1] == declared[1..][i];
        }
      }
    }
  }

  ghost predicate Holds(declared: seq<Field>, member: string) {
    exists i | 0 <= i < |declared| :: declared[i].selector != "Entries" && declared[i].semantic == member
  }

  // ----- recovery

  /** Declared field `f` contributes its member. */
  ghost predicate Kept(f: Field, raw: map<string, Value>) {
    f.selector != "Entries" && f.semantic in raw && !(raw[f.semantic].Null? && f.typeRef.Optional?)
  }

  /** What the first `n` declared fields give back. */
  ghost predicate DeclaredGive(api: Api, v: Value, declared: seq<Field>, n: nat, m: map<string, Value>)
    requires v.Dict? && n <= |declared|
  {
    var raw := Mapping(v);
    && (forall k | k in m :: exists i | 0 <= i < n :: Kept(declared[i], raw) && declared[i].semantic == k)
    && (forall i | 0 <= i < n && Kept(declared[i], raw) ::
          declared[i].semantic in m && Agrees(api, declared[i].typeRef, raw[declared[i].semantic],
              m[declared[i].semantic]))
  }

  ghost predicate EntriesGive(api: Api, t: TypeRef, v: Value, names: seq<string>, n: nat, m: map<string, Value>)
    requires v.Dict? && n <= |names| && forall name | name in names :: name in Mapping(v)
  {
    && (forall k :: k in m <==> k in names[..n])
    && (forall i | 0 <= i < n :: names[i] in m && Agrees(api, t, Mapping(v)[names[i]], m[names[i]]))
  }

  /** Reading back what a value means gives the value. */
  lemma {:induction false} MeaningKeepsData(api: Api, t: TypeRef, v: Value)
    requires WellFormed(api) && Meaning(api, t, v).Some?
    ensures Agrees(api, t, v, Recover(api, t, Meaning(api, t, v).value))
    decreases Level(v), v, 4, t
  {
    match t
    case Optional(element) =>
      if !v.Null? {
        MeaningKeepsData(api, element, v);
      }
    case Slice(element) => ItemsKeepData(api, element, v);
    case Builtin(name) =>
    case Named(name) =>
      if name !in NAMED_SCALARS {
        match api.structured[name]
        case ArrayPlan(itemType) => ItemsKeepData(api, itemType, v);
        case ObjectPlan(declared, members) =>
          assert Meaning(api, t, v) == StructuredMeaning(api, t, api.structured[name], v) ==
              ObjectMeaning(api, t, declared, members, v);
          ObjectKeepsData(api, t, declared, members, v);
        case UnionPlan =>
      }
    case _ =>
  }

  lemma {:induction false} ItemsKeepData(api: Api, element: TypeRef, v: Value)
    requires WellFormed(api) && v.List? && ItemsMeaning(api, element, v, |v.items|).Some?
    ensures forall t :: SameItems(api, element, v,
              RecoverList(api, element, SliceValue(t, ItemsMeaning(api, element, v, |v.items|).value)))
    decreases 1, v, 1, 0
  {
    var gs := ItemsMeaning(api, element, v, |v.items|).value;
    ItemsAre(api, element, v, |v.items|);
    forall i | 0 <= i < |v.items| ensures Agrees(api, element, v.items[i], Recover(api, element, gs[i])) {
      MeaningKeepsData(api, element, v.items[i]);
    }
  }

  lemma {:induction false} ItemsAre(api: Api, element: TypeRef, v: Value, n: nat)
    requires v.List? && n <= |v.items| && ItemsMeaning(api, element, v, n).Some?
    ensures |ItemsMeaning(api, element, v, n).value| == n
    ensures forall i | 0 <= i < n ::
              Meaning(api, element, v.items[i]) == Some(ItemsMeaning(api, element, v, n).value[i])
  {
    hide Meaning;
    if n > 0 {
      ItemsAre(api, element, v, n - 1);
    }
  }

  lemma AbsentMeans(api: Api, t: TypeRef, v: Value)
    requires Meaning(api, t, v).Some?
    ensures Meaning(api, t, v).value.AbsentValue? <==> t.Optional? && v.Null?
  {
  }

  lemma RecoverField(api: Api, declared: seq<Field>, members: seq<MemberPlan>, before: seq<GoField>, i: nat, g: GoValue)
    requires PlanOk(declared) && i < |declared| && declared[i].selector != "Entries"
    ensures var m, f := RecoverFields(api, declared, members, before), declared[i];
            RecoverFields(api, declared, members, before + [GoField(f.selector, g)]) ==
              if g.AbsentValue? then m else m[f.semantic := Recover(api, f.typeRef, g)]
  {
    FieldOfAt(declared, i);
    assert (before + [GoField(declared[i].selector, g)])[..|before|] == before;
  }

  lemma GiveSame(api: Api, v: Value, declared: seq<Field>, n: nat, m: map<string, Value>)
    requires v.Dict? && n < |declared| && DeclaredGive(api, v, declared, n, m) && !Kept(declared[n], Mapping(v))
    ensures DeclaredGive(api, v, declared, n + 1, m)
  {
    hide Agrees, Mapping, Kept;
  }

  lemma GiveMore(api: Api, v: Value, declared: seq<Field>, n: nat, m: map<string, Value>, w: Value)
    requires PlanOk(declared) && v.Dict? && n < |declared| && DeclaredGive(api, v, declared, n, m)
    requires Kept(declared[n], Mapping(v)) && Agrees(api, declared[n].typeRef, Mapping(v)[declared[n].semantic], w)
    ensures DeclaredGive(api, v, declared, n + 1, m[declared[n].semantic := w])
  {
    hide Agrees, Mapping;
  }

  lemma {:induction false} DeclaredKeepData(api: Api, v: Value, declared: seq<Field>, members: seq<MemberPlan>, n: nat)
    requires WellFormed(api) && PlanOk(declared) && v.Dict? && n <= |declared| &&
              DeclaredMeaning(api, v, declared, n).Some?
    ensures DeclaredGive(api, v, declared, n,
              RecoverFields(api, declared, members, DeclaredMeaning(api, v, declared, n).value))
    decreases 1, v, 1, n
  {
    hide Agrees, Mapping, DeclaredGive, PlanOk, Meaning, Recover, WellFormed;
    if n == 0 {
      GiveNothing(api, v, declared);
    } else {
      var f := declared[n - 1];
      DeclaredKeepData(api, v, declared, members, n - 1);
      var before := DeclaredMeaning(api, v, declared, n - 1).value;
      var m := RecoverFields(api, declared, members, before);
      if f.selector == "Entries" {
        GiveSame(api, v, declared, n - 1, m);
      } else {
        var g := DeclaredValue(api, v, f).value;
        RecoverField(api, declared, members, before, n - 1, g);
        if f.semantic !in Mapping(v) {
          GiveSame(api, v, declared, n - 1, m);
        } else {
          AbsentMeans(api, f.typeRef, Mapping(v)[f.semantic]);
          if g.AbsentValue? {
            GiveSame(api, v, declared, n - 1, m);
          } else {
            MeaningKeepsData(api, f.typeRef, Mapping(v)[f.semantic]);
            GiveMore(api, v, declared, n - 1, m, Recover(api, f.typeRef, g));
          }
        }
      }
    }
  }

  lemma GiveNothing(api: Api, v: Value, declared: seq<Field>)
    requires v.Dict?
    ensures DeclaredGive(api, v, declared, 0, map[])
  {
  }

  lemma {:induction false} TextAgrees(api: Api, t: TypeRef, s: string, w: Value)
    requires Agrees(api, t, Str(s), w)
    ensures w == Str(s)
  {
    if t.Optional? {
      TextAgrees(api, t.element, s, w);
    } else if t.Named? && t.name !in NAMED_SCALARS && t.name in api.structured {
      assert SameStructure(api, api.structured[t.name], Str(s), w);
    }
  }

  lemma {:induction false} EntriesKeepData(api: Api, v: Value, plan: EntriesPlan, names: seq<string>, n: nat)
    requires WellFormed(api) && v.Dict? && n <= |names| && (forall name | name in names :: name in Mapping(v))
    requires EntriesMeaning(api, v, plan, names, n).Some?
    ensures EntriesGive(api, plan.valueType, v, names, n,
                        RecoverEntries(api, plan.nameType, plan.valueType,
                            EntriesMeaning(api, v, plan, names, n).value))
    decreases 1, v, 1, n
  {
    hide Agrees, Mapping, WellFormed, Recover, Meaning;
    if n > 0 {
      EntriesKeepData(api, v, plan, names, n - 1);
      var before := EntriesMeaning(api, v, plan, names, n - 1).value;
      var name := names[n - 1];
      var key, value := Meaning(api, plan.nameType, Str(name)).value,
          Meaning(api, plan.valueType, Mapping(v)[name]).value;
      MeaningKeepsData(api, plan.nameType, Str(name));
      TextAgrees(api, plan.nameType, name, Recover(api, plan.nameType, key));
      MeaningKeepsData(api, plan.valueType, Mapping(v)[name]);
      RecoverEntry(api, plan, before, key, value, name);
      hide RecoverEntries, Constructed;
      assert names[..n] == names[..n - 1] + [name];
    }
  }

  lemma RecoverEntry(api: Api, plan: EntriesPlan, before: seq<GoValue>, key: GoValue, value: GoValue, name: string)
    requires Constructed(plan.callable, [key, value]).Some? && Recover(api, plan.nameType, key) == Str(name)
    ensures RecoverEntries(api, plan.nameType, plan.valueType,
              before + [Constructed(plan.callable, [key, value]).value]) ==
            RecoverEntries(api, plan.nameType, plan.valueType, before)[name := Recover(api, plan.valueType, value)]
  {
    hide Recover;
    var items := before + [Constructed(plan.callable, [key, value]).value];
    assert items[..|items| - 1] == before;
  }

  lemma RecoverSlice(api: Api, declared: seq<Field>, members: seq<MemberPlan>, before: seq<GoField>, t: TypeRef,
                     items: seq<GoValue>)
    ensures RecoverFields(api, declared, members, before + [GoField("Entries", SliceValue(t, items))]) ==
            RecoverFields(api, declared, members, before)
            + RecoverEntries(api, DynamicType(members, "Name"), DynamicType(members, "Value"), items)
  {
    hide Recover, RecoverEntries;
    assert (before + [GoField("Entries", SliceValue(t, items))])[..|before|] == before;
  }

  lemma ObjectKeepsData(api: Api, t: TypeRef, declared: seq<Field>, members: seq<MemberPlan>, v: Value)
    requires WellFormed(api) && PlanOk(declared) && v.Dict? && ObjectMeaning(api, t, declared, members, v).Some?
    ensures SameStructure(api, ObjectPlan(declared, members), v,
                          Dict(RecoverFields(api, declared, members,
                              ObjectMeaning(api, t, declared, members, v).value.fields)))
    decreases 1, v, 2, t
  {
    hide Agrees, SameStructure, Mapping, WellFormed, Recover, RecoverFields, Meaning, DeclaredMeaning, EntriesMeaning,
      Remaining, RecoverEntries, DeclaredGive, EntriesGive, PlanOk;
    var fields := DeclaredMeaning(api, v, declared, |declared|).value;
    var names := Remaining(Mapping(v), declared);
    var m := RecoverFields(api, declared, members, fields);
    DeclaredKeepData(api, v, declared, members, |declared|);
    if names == [] {
      EntriesNothing(api, DynamicType(members, "Value"), v);
      SomethingGiven(api, v, declared, members, m, [], map[]);
      assert m + map[] == m;
    } else {
      var plan := EntriesPlanOf(api, declared, members).value;
      var made := EntriesMeaning(api, v, plan, names, |names|).value;
      EntriesKeepData(api, v, plan, names, |names|);
      var extra := RecoverEntries(api, plan.nameType, plan.valueType, made);
      RecoverSlice(api, declared, members, fields, plan.entriesType, made);
      SomethingGiven(api, v, declared, members, m, names, extra);
    }
  }

  lemma EntriesNothing(api: Api, t: TypeRef, v: Value)
    requires v.Dict?
    ensures EntriesGive(api, t, v, [], 0, map[])
  {
  }

  /** Declared fields and entries together give back every member. */
  lemma SomethingGiven(api: Api, v: Value, declared: seq<Field>, members: seq<MemberPlan>, m: map<string, Value>,
                       names: seq<string>, extra: map<string, Value>)
    requires v.Dict? && PlanOk(declared) && DeclaredGive(api, v, declared, |declared|, m)
    requires names == Remaining(Mapping(v), declared) &&
              EntriesGive(api, DynamicType(members, "Value"), v, names, |names|, extra)
    ensures SameStructure(api, ObjectPlan(declared, members), v, Dict(m + extra))
  {
    hide Agrees, Mapping, Consumed;
    var raw, w := Mapping(v), m + extra;
    assert names[..|names|] == names;
    forall k ensures k in w <==> k in raw && !ReadsAsAbsent(declared, raw, k)
      ensures k in raw && k in w ==> Agrees(api, MemberType(declared, members, k), raw[k], w[k])
    {
      HolderIsConsumed(declared, k);
      if k in m {
        var i :| 0 <= i < |declared| && Kept(declared[i], raw) && declared[i].semantic == k;
        FieldOfAt(declared, i);
      }
      if HolderOf(declared, k).Some? {
        var i :| 0 <= i < |declared| && declared[i].selector != "Entries" && declared[i].semantic == k;
        FieldOfAt(declared, i);
      } else if k in names {
        var i :| 0 <= i < |names| && names[i] == k;
      }
    }
  }

  ghost predicate OnlyHolder(declared: seq<Field>, i: nat, member: string) {
    forall j | 0 <= j < |declared| :: (declared[j].selector != "Entries" && declared[j].semantic == member) <==> i == j
  }

  /** Each source member is compiled once: by the one declared field that names it, or as one entry. */
  lemma MembersOnce(declared: seq<Field>, raw: map<string, Value>, k: string)
    requires PlanOk(declared) && k in raw
    ensures k in Consumed(declared) ==>
              && k !in Remaining(raw, declared)
              && exists i | 0 <= i < |declared| :: OnlyHolder(declared, i, k)
    ensures k !in Consumed(declared) ==> multiset(Remaining(raw, declared))[k] == 1
    ensures forall i, j | 0 <= i < j < |declared| && declared[i].selector != "Entries" &&
              declared[j].selector != "Entries" ::
              declared[i].selector != declared[j].selector
  {
    HolderIsConsumed(declared, k);
    if k in Consumed(declared) {
      var i :| 0 <= i < |declared| && declared[i].selector != "Entries" && declared[i].semantic == k;
      assert OnlyHolder(declared, i, k);
    } else {
      DistinctCount(Remaining(raw, declared), k);
    }
  }

  /**
   What `typed` compiles, run after the prelude it has built, gives the source back when it is read by
   its type: every member once, nulls of optional fields absent, integers widened where floats go.
   */
  lemma FixtureKeepsData(api: Api, t: TypeRef, v: Value, before: seq<Statement>, prelude: seq<Statement>,
                         e: Option<Expr>)
    ensures WellFormed(api) && Built(before, prelude, e, Meaning(api, t, v)) && e.Some? ==>
              Agrees(api, t, v, Recover(api, t, Denote(e.value, Run(prelude))))
  {
    hide Agrees, Recover, Meaning, WellFormed, Sound;
    if WellFormed(api) && Built(before, prelude, e, Meaning(api, t, v)) && e.Some? {
      MeaningKeepsData(api, t, v);
    }
  }

  // ----- what comes in which order

  function Selectors(fields: seq<GoField>): seq<string> {
    seq(|fields|, i requires 0 <= i < |fields| => fields[i].selector)
  }

  /** The selectors of the declared fields other than `Entries`, in their order. */
  function PlainSelectors(declared: seq<Field>): seq<string> {
    if declared == [] then []
    else
      var last := declared[|declared| - 1];
      PlainSelectors(declared[..|declared| - 1]) + if last.selector != "Entries" then [last.selector] else []
  }

  lemma {:induction false} DeclaredInOrder(api: Api, v: Value, declared: seq<Field>, n: nat)
    requires v.Dict? && n <= |declared| && DeclaredMeaning(api, v, declared, n).Some?
    ensures Selectors(DeclaredMeaning(api, v, declared, n).value) == PlainSelectors(declared[..n])
  {
    hide DeclaredValue;
    if n > 0 {
      DeclaredInOrder(api, v, declared, n - 1);
      assert declared[..n][..n - 1] == declared[..n - 1];
    }
  }

  /** An entry for a member: a constructor call on its name and its value. */
  ghost predicate EntryFor(api: Api, plan: EntriesPlan, g: GoValue, name: string, value: Value) {
    && g.Made? && g.symbol == plan.callable.symbol && |g.arguments| == 2
    && plan.callable.results != [] && g.typeRef == plan.callable.results[0]
    && Recover(api, plan.nameType, g.arguments[0]) == Str(name)
    && Agrees(api, plan.valueType, value, Recover(api, plan.valueType, g.arguments[1]))
  }

  lemma EntryMeans(api: Api, v: Value, plan: EntriesPlan, name: string)
    requires WellFormed(api) && v.Dict? && name in Mapping(v) && EntryMeaning(api, v, plan, name).Some?
    ensures EntryFor(api, plan, EntryMeaning(api, v, plan, name).value, name, Mapping(v)[name])
  {
    hide Agrees, Mapping, WellFormed, Recover, Meaning;
    MeaningKeepsData(api, plan.nameType, Str(name));
    TextAgrees(api, plan.nameType, name, Recover(api, plan.nameType, Meaning(api, plan.nameType, Str(name)).value));
    MeaningKeepsData(api, plan.valueType, Mapping(v)[name]);
  }

  lemma {:induction false} EntriesInOrder(api: Api, v: Value, plan: EntriesPlan, names: seq<string>, n: nat)
    requires WellFormed(api) && v.Dict? && n <= |names| && (forall name | name in names :: name in Mapping(v))
    requires EntriesMeaning(api, v, plan, names, n).Some?
    ensures |EntriesMeaning(api, v, plan, names, n).value| == n
    ensures forall i | 0 <= i < n ::
              EntryFor(api, plan, EntriesMeaning(api, v, plan, names, n).value[i], names[i], Mapping(v)[names[i]])
  {
    hide EntryFor, EntryMeaning, Mapping, WellFormed;
    if n > 0 {
      EntriesInOrder(api, v, plan, names, n - 1);
      EntryMeans(api, v, plan, names[n - 1]);
    }
  }

  /** No declared field names the member. */
  predicate Undeclared(declared: seq<Field>, member: string) {
    forall f | f in declared && f.selector != "Entries" :: f.semantic != member
  }

  lemma RemainingInOrder(raw: map<string, Value>, declared: seq<Field>)
    ensures Ascending(Remaining(raw, declared))
    ensures forall k :: k in Remaining(raw, declared) <==> k in raw && Undeclared(declared, k)
  {
    forall k ensures k in Consumed(declared) <==> !Undeclared(declared, k) {
    }
    hide Consumed, Undeclared;
  }

  /** A slice of entries, one for each name in order. */
  ghost predicate EntriesShow(api: Api, plan: EntriesPlan, slice: GoValue, names: seq<string>, raw: map<string, Value>)
    requires forall name | name in names :: name in raw
  {
    slice.SliceValue? && slice.typeRef == plan.entriesType && |slice.items| == |names| &&
    forall i | 0 <= i < |names| :: EntryFor(api, plan, slice.items[i], names[i], raw[names[i]])
  }

  lemma SelectorsMore(fields: seq<GoField>, field: GoField)
    ensures Selectors(fields + [field]) == Selectors(fields) + [field.selector]
  {
  }

  lemma EntriesAreShown(api: Api, v: Value, plan: EntriesPlan, names: seq<string>)
    requires WellFormed(api) && v.Dict? && (forall name | name in names :: name in Mapping(v))
    requires EntriesMeaning(api, v, plan, names, |names|).Some?
    ensures var entries := EntriesMeaning(api, v, plan, names, |names|).value;
            EntriesShow(api, plan, SliceValue(plan.entriesType, entries), names, Mapping(v))
  {
    hide EntryFor, Mapping, WellFormed, EntriesMeaning;
    EntriesInOrder(api, v, plan, names, |names|);
  }

  /** The first field called `Entries` has type `t`. */
  ghost predicate FirstEntries(declared: seq<Field>, t: TypeRef) {
    exists i | 0 <= i < |declared| :: declared[i].selector == "Entries" && declared[i].typeRef == t &&
      forall j | 0 <= j < i :: declared[j].selector != "Entries"
  }

  lemma {:induction false} FirstEntriesIs(declared: seq<Field>, t: TypeRef)
    ensures EntriesField(declared).Some? && EntriesField(declared).value.typeRef == t <==> FirstEntries(declared, t)
  {
    if declared != [] {
      var rest := declared[1..];
      FirstEntriesIs(rest, t);
      if declared[0].selector == "Entries" {
      } else if FirstEntries(rest, t) {
        var i :| 0 <= i < |rest| && rest[i].selector == "Entries" && rest[i].typeRef == t &&
            forall j | 0 <= j < i :: rest[j].selector != "Entries";
        assert declared[i + 1] == rest[i];
        assert forall j | 0 <= j < i + 1 :: j > 0 ==> declared[j] == rest[j - 1];
      }
      if declared[0].selector != "Entries" && FirstEntries(declared, t) {
        var i :| 0 <= i < |declared| && declared[i].selector == "Entries" && declared[i].typeRef == t &&
            forall j | 0 <= j < i :: declared[j].selector != "Entries";
        assert rest[i - 1] == declared[i];
        assert forall j | 0 <= j < i - 1 :: rest[j] == declared[j + 1];
      }
    }
  }

  /** How entries are made: by the constructor and the types of the one member plan, into the first entries field. */
  ghost predicate MadeByPlan(api: Api, declared: seq<Field>, members: seq<MemberPlan>, plan: EntriesPlan) {
    && |members| == 1 && members[0].fields.Keys == {"Name", "Value"}
    && ("structured_member_constructor", members[0].sourceId) in api.callables
    && plan.callable == api.callables[("structured_member_constructor", members[0].sourceId)]
    && plan.nameType == members[0].fields["Name"] && plan.valueType == members[0].fields["Value"]
    && plan.entriesType.Slice? && FirstEntries(declared, plan.entriesType)
  }

  lemma PlanIff(api: Api, declared: seq<Field>, members: seq<MemberPlan>, plan: EntriesPlan)
    ensures EntriesPlanOf(api, declared, members) == Some(plan) <==> MadeByPlan(api, declared, members, plan)
  {
    FirstEntriesIs(declared, plan.entriesType);
    hide FirstEntries, EntriesField;
  }

  /**
   A compiled object has its declared fields in their order and then, if there are members that no field declares,
   an entry for each of those, in the order of their names.
   */
  lemma ObjectInOrder(api: Api, t: TypeRef, declared: seq<Field>, members: seq<MemberPlan>, v: Value)
    returns (names: seq<string>, plan: EntriesPlan)
    requires WellFormed(api) && v.Dict? && ObjectMeaning(api, t, declared, members, v).Some?
    ensures Ascending(names) && forall k :: k in names <==> k in Mapping(v) && Undeclared(declared, k)
    ensures var fields := ObjectMeaning(api, t, declared, members, v).value.fields;
            && Selectors(fields) == PlainSelectors(declared) + (if names == [] then [] else ["Entries"])
            && (names != [] ==>
                  && fields != [] && MadeByPlan(api, declared, members, plan)
                  && EntriesShow(api, plan, fields[|fields| - 1].value, names, Mapping(v)))
  {
    names := Remaining(Mapping(v), declared);
    RemainingInOrder(Mapping(v), declared);
    assert declared[..|declared|] == declared;
    hide Mapping, Remaining, EntriesShow, WellFormed, Undeclared, DeclaredMeaning, EntriesMeaning, EntriesPlanOf,
      Selectors, PlainSelectors, MadeByPlan;
    DeclaredInOrder(api, v, declared, |declared|);
    var fields := DeclaredMeaning(api, v, declared, |declared|).value;
    plan := EntriesPlan(CallablePlan("", []), STRING, STRING, STRING);
    if names != [] {
      plan := EntriesPlanOf(api, declared, members).value;
      PlanIff(api, declared, members, plan);
      EntriesAreShown(api, v, plan, names);
      var entries := EntriesMeaning(api, v, plan, names, |names|).value;
      SelectorsMore(fields, GoField("Entries", SliceValue(plan.entriesType, entries)));
    }
  }

  /** Components come in the order of the items. */
  lemma {:induction false} ComponentsInOrder(api: Api, family: Family, component: Component, items: seq<Value>, n: nat)
    requires n <= |items| && ComponentsMeaning(api, family, component, items, n).Some?
    ensures |ComponentsMeaning(api, family, component, items, n).value| == n
    ensures forall i | 0 <= i < n ::
              ComponentMeaning(api, family, component, items[i]) ==
                Some(ComponentsMeaning(api, family, component, items, n).value[i])
  {
    hide ComponentMeaning;
    if n > 0 {
      ComponentsInOrder(api, family, component, items, n - 1);
    }
  }

  lemma {:induction false} InputIs(api: Api, family: Family, component: Component, item: map<string, Value>,
                                   fields: seq<InputField>, n: nat, i: nat)
    requires i < n <= |fields| && InputMeaning(api, family, component, item, fields, n).Some?
    ensures |InputMeaning(api, family, component, item, fields, n).value| == n
    ensures FieldMeaning(api, family, component, item, fields[i]).Some?
    ensures InputMeaning(api, family, component, item, fields, n).value[i] ==
            GoField(fields[i].selector, FieldMeaning(api, family, component, item, fields[i]).value)
  {
    hide FieldMeaning;
    InputLength(api, family, component, item, fields, n);
    InputLength(api, family, component, item, fields, n - 1);
    if i < n - 1 {
      InputIs(api, family, component, item, fields, n - 1, i);
    }
  }

  lemma {:induction false} InputLength(api: Api, family: Family, component: Component, item: map<string, Value>,
                                       fields: seq<InputField>, n: nat)
    requires n <= |fields| && InputMeaning(api, family, component, item, fields, n).Some?
    ensures |InputMeaning(api, family, component, item, fields, n).value| == n
  {
    if n > 0 {
      InputLength(api, family, component, item, fields, n - 1);
    }
  }

  /**
   An event or link is the constructor of its registered source applied to an input whose every field
   gives back its source: the condition fact, the common key, or the attribute.
   */
  lemma ComponentKeepsData(api: Api, family: Family, component: Component, v: Value, i: nat)
    requires WellFormed(api) && ComponentMeaning(api, family, component, v).Some?
    ensures var plan := ComponentPlan(api, family, component, Mapping(v)).value;
            var made := ComponentMeaning(api, family, component, v).value;
            && made.Made? && made.symbol == plan.1.symbol
            && |made.arguments| == 1 && made.arguments[0].StructValue?
            && made.arguments[0].typeRef == Named(plan.0.symbol)
            && |made.arguments[0].fields| == |plan.0.fields|
            && (i < |plan.0.fields| ==>
                  var f := plan.0.fields[i];
                  var source := FieldSource(family, component, Mapping(v), f);
                  && source.Some? && made.arguments[0].fields[i].selector == f.selector
                  && Agrees(api, f.typeRef, source.value, Recover(api, f.typeRef, made.arguments[0].fields[i].value)))
  {
    hide Meaning, Agrees, Recover, WellFormed, Mapping, FieldSource, InputMeaning;
    var plan := ComponentPlan(api, family, component, Mapping(v)).value;
    InputLength(api, family, component, Mapping(v), plan.0.fields, |plan.0.fields|);
    if i < |plan.0.fields| {
      InputIs(api, family, component, Mapping(v), plan.0.fields, |plan.0.fields|, i);
      MeaningKeepsData(api, plan.0.fields[i].typeRef,
          FieldSource(family, component, Mapping(v), plan.0.fields[i]).value);
    }
  }

  // ----- what is accepted, and where components read

  /** The values that may stand where a builtin type is expected. */
  ghost predicate MayStandAs(api: Api, name: string, v: Value) {
    match v
    case Str(_) => name == "string"
    case Bool(_) => name == "bool"
    case Int(i) =>
      || name in {"int", "int64"} || (name in {"uint32", "uint64"} && i >= 0)
      || (name == "float64" && api.widen(i).Some?)
    case Float(d) => name == "float64" && d != NotFinite
    case _ => false
  }

  /**
   Which values have a meaning: scalars of the right kind, text under one of six names, null or a value where a value
   is optional, and lists of at most 131072 items that all have a meaning.
   */
  lemma MeaningIff(api: Api, t: TypeRef, v: Value)
    ensures t.Builtin? ==> (Meaning(api, t, v).Some? <==> MayStandAs(api, t.name, v))
    ensures t.Named? && t.name in {"Severity", "LogLevel", "Outcome", "Source", "Bucket", "EventName"} ==>
              Meaning(api, t, v) ==
                if v.Str? then Some(ConvertedValue(t, ScalarValue(Builtin("string"), TextScalar(v.s)))) else None
    ensures t.Optional? ==> (Meaning(api, t, v).Some? <==> v == Null || Meaning(api, t.element, v).Some?)
    ensures t.Slice? ==>
              (Meaning(api, t, v).Some? <==>
                 v.List? && |v.items| <= 131072 && forall i | 0 <= i < |v.items| ::
                   Meaning(api, t.element, v.items[i]).Some?)
  {
    if t.Slice? && v.List? {
      ItemsMean(api, t.element, v, |v.items|);
    }
  }

  lemma {:induction false} ItemsMean(api: Api, element: TypeRef, v: Value, n: nat)
    requires v.List? && n <= |v.items|
    ensures ItemsMeaning(api, element, v, n).Some? <==>
              forall i | 0 <= i < n :: Meaning(api, element, v.items[i]).Some?
  {
    hide Meaning;
    if n > 0 {
      ItemsMean(api, element, v, n - 1);
    }
  }

  /** What has a meaning as a Go value of a type is a Go value of that type. */
  lemma {:induction false} MeaningHasType(api: Api, t: TypeRef, v: Value)
    ensures Meaning(api, t, v).Some? ==> !Meaning(api, t, v).value.Made? && Meaning(api, t, v).value.typeRef == t
  {
    if t.Named? && t.name !in NAMED_SCALARS && t.name in api.structured {
      match api.structured[t.name]
      case ObjectPlan(declared, members) =>
        hide DeclaredMeaning, EntriesMeaning, Remaining, EntriesPlanOf;
        assert v.Dict? ==> Meaning(api, t, v) == ObjectMeaning(api, t, declared, members, v);
      case _ => hide ItemsMeaning;
    }
  }

  /** The member of a declared field has a meaning, or is missing and may be. */
  ghost predicate FieldFits(api: Api, f: Field, raw: map<string, Value>) {
    if f.semantic in raw then Meaning(api, f.typeRef, raw[f.semantic]).Some? else f.typeRef.Optional?
  }

  /** A plan makes entries of the members that no field declares. */
  ghost predicate EntriesFit(api: Api, plan: EntriesPlan, declared: seq<Field>, raw: map<string, Value>) {
    && |plan.callable.results| == 2 && plan.callable.results[1] == Builtin("error")
    && forall k | k in raw && Undeclared(declared, k) ::
      Meaning(api, plan.nameType, Str(k)).Some? && Meaning(api, plan.valueType, raw[k]).Some?
  }

  lemma {:induction false} DeclaredIff(api: Api, v: Value, declared: seq<Field>, n: nat)
    requires v.Dict? && n <= |declared|
    ensures DeclaredMeaning(api, v, declared, n).Some? <==>
              forall i | 0 <= i < n && declared[i].selector != "Entries" :: FieldFits(api, declared[i], Mapping(v))
  {
    hide Meaning;
    if n > 0 {
      DeclaredIff(api, v, declared, n - 1);
    }
  }

  lemma {:induction false} EntriesIff(api: Api, v: Value, plan: EntriesPlan, names: seq<string>, n: nat)
    requires v.Dict? && n <= |names| && forall name | name in names :: name in Mapping(v)
    ensures EntriesMeaning(api, v, plan, names, n).Some? <==>
              forall i | 0 <= i < n :: EntryMeaning(api, v, plan, names[i]).Some?
  {
    hide EntryMeaning;
    if n > 0 {
      EntriesIff(api, v, plan, names, n - 1);
    }
  }

  lemma EntriesFitIff(api: Api, v: Value, plan: EntriesPlan, declared: seq<Field>)
    requires v.Dict? && Remaining(Mapping(v), declared) != []
    ensures var names := Remaining(Mapping(v), declared);
            EntriesMeaning(api, v, plan, names, |names|).Some? <==> EntriesFit(api, plan, declared, Mapping(v))
  {
    var names := Remaining(Mapping(v), declared);
    EntriesIff(api, v, plan, names, |names|);
    RemainingInOrder(Mapping(v), declared);
    hide Mapping, Remaining, EntriesMeaning, Undeclared, Meaning;
    assert names[0] in names;
  }

  /** Which mappings have a meaning as an object. */
  lemma ObjectIff(api: Api, t: TypeRef, declared: seq<Field>, members: seq<MemberPlan>, v: Value)
    requires v.Dict?
    ensures ObjectMeaning(api, t, declared, members, v).Some? <==>
              && (forall f | f in declared && f.selector != "Entries" :: FieldFits(api, f, Mapping(v)))
              && ((exists k :: k in Mapping(v) && Undeclared(declared, k)) ==>
                    exists plan | MadeByPlan(api, declared, members, plan) ::
                      EntriesFit(api, plan, declared, Mapping(v)))
  {
    var raw, plan := Mapping(v), EntriesPlanOf(api, declared, members);
    var names := Remaining(raw, declared);
    DeclaredIff(api, v, declared, |declared|);
    RemainingInOrder(raw, declared);
    hide *;
    forall p ensures plan == Some(p) <==> MadeByPlan(api, declared, members, p) {
      PlanIff(api, declared, members, p);
    }
    assert (exists k :: k in raw && Undeclared(declared, k)) <==> names != [] by {
      if names != [] {
        assert names[0] in names;
      }
    }
    ObjectParts(api, t, declared, members, v);
    if names != [] && plan.Some? {
      EntriesFitIff(api, v, plan.value, declared);
    }
  }

  lemma ObjectParts(api: Api, t: TypeRef, declared: seq<Field>, members: seq<MemberPlan>, v: Value)
    requires v.Dict?
    ensures var names, plan := Remaining(Mapping(v), declared), EntriesPlanOf(api, declared, members);
            ObjectMeaning(api, t, declared, members, v).Some? <==>
              && DeclaredMeaning(api, v, declared, |declared|).Some?
              && (names != [] ==> plan.Some? && EntriesMeaning(api, v, plan.value, names, |names|).Some?)
  {
    hide Mapping, Remaining, DeclaredMeaning, EntriesMeaning, EntriesPlanOf;
  }

  /** A field takes the member `key`, and null if it is missing and may be. */
  ghost predicate Takes(source: Option<Value>, f: InputField, from: map<string, Value>, key: string) {
    && (key in from ==> source == Some(from[key]))
    && (key !in from ==> source == if f.typeRef.Optional? then Some(Null) else None)
  }

  /** Where the fields of an event input come from. */
  lemma EventSources(family: Family, item: map<string, Value>, f: InputField)
    ensures var source := FieldSource(family, EventComponent, item, f);
            if f.conversion == "condition_fact" then
              source == if f.semantic in family.conditions then Some(Bool(family.conditions[f.semantic])) else None
            else if f.selector == "TimeUnixNano" then Takes(source, f, item, "time_unix_nano")
            else if f.selector == "DroppedAttributesCount" then Takes(source, f, item, "dropped_attributes_count")
            else if f.target != "trace.event.attributes" then source == None
            else Takes(source, f, AttributesOf(item), f.semantic)
  {
  }

  /** Where the fields of a link input come from. */
  lemma LinkSources(family: Family, item: map<string, Value>, f: InputField)
    ensures var source := FieldSource(family, LinkComponent, item, f);
            if f.conversion == "condition_fact" then
              source == if f.semantic in family.conditions then Some(Bool(family.conditions[f.semantic])) else None
            else if f.selector == "TraceID" then Takes(source, f, item, "trace_id")
            else if f.selector == "SpanID" then Takes(source, f, item, "span_id")
            else if f.selector == "TraceState" then Takes(source, f, item, "trace_state")
            else if f.selector == "DroppedAttributesCount" then Takes(source, f, item, "dropped_attributes_count")
            else if f.target != "trace.link.attributes" then source == None
            else Takes(source, f, AttributesOf(item), f.semantic)
  {
  }

  function AttributesOf(item: map<string, Value>): map<string, Value> {
    if "attributes" in item && item["attributes"].Dict? then item["attributes"].members else map[]
  }

  /** Event `item` is registered under its name. */
  ghost predicate EventOf(api: Api, family: Family, item: map<string, Value>, name: string) {
    && "name" in item && item["name"] == Str(name) && name != "" && name in family.eventSources
    && ("span_event_input", family.eventSources[name]) in family.inputs
    && ("span_event_constructor", family.eventSources[name]) in api.callables
  }

  /** A link is registered under its relation, or else under its relation attribute. */
  ghost predicate LinkOf(api: Api, family: Family, item: map<string, Value>, name: string) {
    && ("attributes" in item ==> item["attributes"].Dict?)
    && (if "relation" in item then item["relation"] == Str(name)
        else "attributes" in item && var attributes := Mapping(item["attributes"]);
          "defenseclaw.link.relation" in attributes && attributes["defenseclaw.link.relation"] == Str(name))
    && name != "" && name in family.linkSources
    && ("span_link_input", family.linkSources[name]) in family.inputs
    && ("span_link_constructor", family.linkSources[name]) in api.callables
  }

  /** Which input and which constructor an event is compiled with, and when there are none. */
  lemma EventRegistered(api: Api, family: Family, item: map<string, Value>, name: string)
    ensures var plan := ComponentPlan(api, family, EventComponent, item);
            && (EventOf(api, family, item, name) ==>
                  plan == Some((family.inputs[("span_event_input", family.eventSources[name])],
                                api.callables[("span_event_constructor", family.eventSources[name])])))
            && (plan.Some? ==> exists n :: EventOf(api, family, item, n))
  {
    if ComponentPlan(api, family, EventComponent, item).Some? {
      assert EventOf(api, family, item, RegisteredName(EventComponent, item).value);
    }
  }

  /** Which input and which constructor a link is compiled with, and when there are none. */
  lemma LinkRegistered(api: Api, family: Family, item: map<string, Value>, name: string)
    ensures var plan := ComponentPlan(api, family, LinkComponent, item);
            && (LinkOf(api, family, item, name) ==>
                  plan == Some((family.inputs[("span_link_input", family.linkSources[name])],
                                api.callables[("span_link_constructor", family.linkSources[name])])))
            && (plan.Some? ==> exists n :: LinkOf(api, family, item, n))
  {
    if ComponentPlan(api, family, LinkComponent, item).Some? {
      assert LinkOf(api, family, item, RegisteredName(LinkComponent, item).value);
    }
  }
}
