/**
 scripts/telemetry_go_fixture_plan.py `_InputCompiler`: typed fixture data compiled to an expression
 and an ordered prelude of constructor bindings.
 */
module FixtureCompiler {
  import opened Outcomes
  import opened Sorting
  import opened FixtureData
  import opened FixturePrograms
  import D = Digits

  // ----- plan facts

  datatype Field = Field(selector: string, semantic: string, typeRef: TypeRef)

  datatype MemberPlan = MemberPlan(sourceId: string, fields: map<string, TypeRef>)

  datatype Structured =
    | ArrayPlan(itemType: TypeRef) | ObjectPlan(declared: seq<Field>, members: seq<MemberPlan>) | UnionPlan

  datatype CallablePlan = CallablePlan(symbol: string, results: seq<TypeRef>)

  /** The typed API; `widen` is Python's `float` of an integer, which fails beyond the largest double. */
  datatype Api = Api(
    structured: map<string, Structured>,
    callables: map<(string, string), CallablePlan>,
    widen: int -> Option<real>)

  datatype InputField = InputField(selector: string, typeRef: TypeRef, conversion: string, semantic: string,
    target: string)

  datatype InputPlan = InputPlan(symbol: string, fields: seq<InputField>)

  /** The span components compiled with `events` and `links`. */
  datatype Component = EventComponent | LinkComponent

  /** What a family declares about components: condition facts, inputs, and the sources of its components. */
  datatype Family = Family(
    conditions: map<string, bool>,
    inputs: map<(string, string), InputPlan>,
    eventSources: map<string, string>,
    linkSources: map<string, string>)

  const NAMED_SCALARS: set<string> := {"Severity", "LogLevel", "Outcome", "Source", "Bucket", "EventName"}

  const STRING := Builtin("string")

  // ----- what a value means as a Go value of a type

  function Level(v: Value): nat {
    if v.List? || v.Dict? then 1 else 0
  }

  function LiteralOf(api: Api, name: string, v: Value): Option<Scalar> {
    match v
    case Str(s) => if name == "string" then Some(TextScalar(s)) else None
    case Bool(b) => if name == "bool" then Some(BoolScalar(b)) else None
    case Int(i) =>
      if name == "int" || name == "int64" then Some(IntScalar(i))
      else if name == "uint32" || name == "uint64" then (if i < 0 then None else Some(IntScalar(i)))
      else if name == "float64" && api.widen(i).Some? then Some(DoubleScalar(api.widen(i).value))
      else None
    case Float(d) => if name == "float64" && d.Finite? then Some(DoubleScalar(d.r)) else None
    case _ => None
  }

  /** A constructor call's value, if the callable returns a value and an error. */
  function Constructed(plan: CallablePlan, arguments: seq<GoValue>): Option<GoValue> {
    if |plan.results| == 2 && plan.results[1] == Builtin("error")
    then Some(Made(plan.results[0], plan.symbol, arguments))
    else None
  }

  /** How the undeclared members of a structured value are made. */
  datatype EntriesPlan = EntriesPlan(callable: CallablePlan, nameType: TypeRef, valueType: TypeRef,
    entriesType: TypeRef)

  function EntriesField(declared: seq<Field>): Option<Field> {
    if declared == [] then None
    else if declared[0].selector == "Entries" then Some(declared[0])
    else EntriesField(declared[1..])
  }

  function EntriesPlanOf(api: Api, declared: seq<Field>, members: seq<MemberPlan>): Option<EntriesPlan> {
    var entries := EntriesField(declared);
    if |members| != 1 || entries.None? then None
    else
      var member, key := members[0], ("structured_member_constructor", members[0].sourceId);
      if key !in api.callables || member.fields.Keys != {"Name", "Value"} || !entries.value.typeRef.Slice? then None
      else Some(EntriesPlan(api.callables[key], member.fields["Name"], member.fields["Value"], entries.value.typeRef))
  }

  /** The members a declared field names. */
  function Consumed(declared: seq<Field>): set<string> {
    set f | f in declared && f.selector != "Entries" :: f.semantic
  }

  function Remaining(raw: map<string, Value>, declared: seq<Field>): (names: seq<string>)
    ensures forall name | name in names :: name in raw
  {
    SortedSet(raw.Keys - Consumed(declared))
  }

  function Meaning(api: Api, t: TypeRef, v: Value): Option<GoValue>
    decreases Level(v), v, 4, t
  {
    match t
    case Optional(element) =>
      if v.Null? then Some(AbsentValue(t))
      else
        var inner := Meaning(api, element, v);
        if inner.Some? then Some(PresentValue(t, inner.value)) else None
    case Slice(element) =>
      if !v.List? || |v.items| > MAX_VALUE_NODES then None
      else
        var items := ItemsMeaning(api, element, v, |v.items|);
        if items.Some? then Some(SliceValue(t, items.value)) else None
    case Builtin(name) =>
      var scalar := LiteralOf(api, name, v);
      if scalar.Some? then Some(ScalarValue(t, scalar.value)) else None
    case Named(name) =>
      if name in NAMED_SCALARS then
        if v.Str? then Some(ConvertedValue(t, ScalarValue(STRING, TextScalar(v.s)))) else None
      else if name in api.structured then StructuredMeaning(api, t, api.structured[name], v)
      else None
    case _ => None
  }

  /** The meanings of the first `n` items of a list. */
  function ItemsMeaning(api: Api, t: TypeRef, parent: Value, n: nat): Option<seq<GoValue>>
    requires parent.List? && n <= |parent.items|
    decreases 1, parent, 0, n
  {
    if n == 0 then Some([])
    else
      var before, last := ItemsMeaning(api, t, parent, n - 1), Meaning(api, t, parent.items[n - 1]);
      if before.Some? && last.Some? then Some(before.value + [last.value]) else None
  }

  function StructuredMeaning(api: Api, t: TypeRef, plan: Structured, v: Value): (r: Option<GoValue>)
    ensures r.Some? ==> r.value.StructValue?
    decreases Level(v), v, 3, t
  {
    match plan
    case ArrayPlan(itemType) =>
      if !v.List? || |v.items| > MAX_VALUE_NODES then None
      else
        var items := ItemsMeaning(api, itemType, v, |v.items|);
        if items.Some? then Some(StructValue(t, [GoField("Items", SliceValue(Slice(itemType), items.value))])) else None
    case ObjectPlan(declared, members) =>
      if v.Dict? then ObjectMeaning(api, t, declared, members, v) else None
    case UnionPlan => None
  }

  function ObjectMeaning(api: Api, t: TypeRef, declared: seq<Field>, members: seq<MemberPlan>,
                         v: Value): (r: Option<GoValue>)
    requires v.Dict?
    ensures r.Some? ==> r.value.StructValue?
    decreases 1, v, 2, t
  {
    var fields := DeclaredMeaning(api, v, declared, |declared|);
    var names := Remaining(Mapping(v), declared);
    if fields.None? then None
    else if names == [] then Some(StructValue(t, fields.value))
    else
      var entriesPlan := EntriesPlanOf(api, declared, members);
      if entriesPlan.None? then None
      else
        var entries := EntriesMeaning(api, v, entriesPlan.value, names, |names|);
        if entries.None? then None
        else
          var slice := SliceValue(entriesPlan.value.entriesType, entries.value);
          Some(StructValue(t, fields.value + [GoField("Entries", slice)]))
  }

  /** The meanings of the first `n` declared fields; a missing optional member is absent. */
  function DeclaredMeaning(api: Api, v: Value, declared: seq<Field>, n: nat): Option<seq<GoField>>
    requires v.Dict? && n <= |declared|
    decreases 1, v, 1, n
  {
    if n == 0 then Some([])
    else
      var before, f := DeclaredMeaning(api, v, declared, n - 1), declared[n - 1];
      if before.None? || f.selector == "Entries" then before
      else
        var value := DeclaredValue(api, v, f);
        if value.Some? then Some(before.value + [GoField(f.selector, value.value)]) else None
  }

  function DeclaredValue(api: Api, v: Value, f: Field): Option<GoValue>
    requires v.Dict?
    decreases 1, v, 0, 0
  {
    if f.semantic in Mapping(v) then Meaning(api, f.typeRef, Mapping(v)[f.semantic])
    else if f.typeRef.Optional? then Some(AbsentValue(f.typeRef))
    else None
  }

  /** The meanings of the first `n` dynamic members. */
  function EntriesMeaning(api: Api, v: Value, plan: EntriesPlan, names: seq<string>, n: nat): Option<seq<GoValue>>
    requires v.Dict? && n <= |names| && forall name | name in names :: name in Mapping(v)
    decreases 1, v, 1, n
  {
    if n == 0 then Some([])
    else
      var before, entry := EntriesMeaning(api, v, plan, names, n - 1), EntryMeaning(api, v, plan, names[n - 1]);
      if before.Some? && entry.Some? then Some(before.value + [entry.value]) else None
  }

  /** A dynamic member is a constructor call on its name and its value. */
  function EntryMeaning(api: Api, v: Value, plan: EntriesPlan, name: string): Option<GoValue>
    requires v.Dict? && name in Mapping(v)
    decreases 1, v, 0, 0
  {
    var key, value := Meaning(api, plan.nameType, Str(name)), Meaning(api, plan.valueType, Mapping(v)[name]);
    if key.Some? && value.Some? then Constructed(plan.callable, [key.value, value.value]) else None
  }

  lemma {:induction false} ItemsFail(api: Api, t: TypeRef, parent: Value, i: nat, n: nat)
    requires parent.List? && i <= n <= |parent.items| && ItemsMeaning(api, t, parent, i).None?
    ensures ItemsMeaning(api, t, parent, n).None?
  {
    hide Meaning;
    if i < n {
      ItemsFail(api, t, parent, i, n - 1);
    }
  }

  lemma {:induction false} DeclaredFail(api: Api, v: Value, declared: seq<Field>, i: nat, n: nat)
    requires v.Dict? && i <= n <= |declared| && DeclaredMeaning(api, v, declared, i).None?
    ensures DeclaredMeaning(api, v, declared, n).None?
  {
    hide Meaning;
    if i < n {
      DeclaredFail(api, v, declared, i, n - 1);
    }
  }

  lemma {:induction false} EntriesFail(api: Api, v: Value, plan: EntriesPlan, names: seq<string>, i: nat, n: nat)
    requires v.Dict? && i <= n <= |names| && (forall name | name in names :: name in Mapping(v))
    requires EntriesMeaning(api, v, plan, names, i).None?
    ensures EntriesMeaning(api, v, plan, names, n).None?
  {
    hide Meaning;
    if i < n {
      EntriesFail(api, v, plan, names, i, n - 1);
    }
  }

  // ----- what a span component means

  function CommonKey(component: Component, selector: string): Option<string> {
    match component
    case EventComponent =>
      if selector == "TimeUnixNano" then Some("time_unix_nano")
      else if selector == "DroppedAttributesCount" then Some("dropped_attributes_count")
      else None
    case LinkComponent =>
      if selector == "TraceID" then Some("trace_id")
      else if selector == "SpanID" then Some("span_id")
      else if selector == "TraceState" then Some("trace_state")
      else if selector == "DroppedAttributesCount" then Some("dropped_attributes_count")
      else None
  }

  function TargetSlot(component: Component): string {
    if component.EventComponent? then "trace.event.attributes" else "trace.link.attributes"
  }

  function Lookup(members: map<string, Value>, key: string): Option<Value> {
    if key in members then Some(members[key]) else None
  }

  /** The source value of a component field: null when it is absent and may be, none when it may not. */
  function FieldSource(family: Family, component: Component, item: map<string, Value>, f: InputField): Option<Value> {
    if f.conversion == "condition_fact" then
      if f.semantic in family.conditions then Some(Bool(family.conditions[f.semantic])) else None
    else
      var key := CommonKey(component, f.selector);
      if key.None? && f.target != TargetSlot(component) then None
      else
        var found :=
          if key.Some? then Lookup(item, key.value)
          else if "attributes" in item && item["attributes"].Dict? then Lookup(item["attributes"].members, f.semantic)
          else None;
        if found.None? && f.typeRef.Optional? then Some(Null) else found
  }

  function FieldMeaning(api: Api, family: Family, component: Component, item: map<string, Value>,
                        f: InputField): Option<GoValue> {
    var source := FieldSource(family, component, item, f);
    if source.Some? then Meaning(api, f.typeRef, source.value) else None
  }

  function InputMeaning(api: Api, family: Family, component: Component, item: map<string, Value>,
                        fields: seq<InputField>, n: nat): Option<seq<GoField>>
    requires n <= |fields|
  {
    if n == 0 then Some([])
    else
      var before, f := InputMeaning(api, family, component, item, fields, n - 1), fields[n - 1];
      var value := FieldMeaning(api, family, component, item, f);
      if before.Some? && value.Some? then Some(before.value + [GoField(f.selector, value.value)]) else None
  }

  /** The name under which a component is registered. */
  function RegisteredName(component: Component, item: map<string, Value>): Option<string> {
    var attributes := if "attributes" in item then item["attributes"] else Dict(map[]);
    var key := "defenseclaw.link.relation";
    if component.LinkComponent? && !attributes.Dict? then None
    else
      var name :=
        if component.EventComponent? then Lookup(item, "name")
        else if "relation" in item then Some(item["relation"])
        else Lookup(Mapping(attributes), key);
      if name.Some? && name.value.Str? && name.value.s != "" then Some(name.value.s) else None
  }

  /** The registered input and constructor of a component. */
  function ComponentPlan(api: Api, family: Family, component: Component,
                         item: map<string, Value>): Option<(InputPlan, CallablePlan)> {
    var name := RegisteredName(component, item);
    var sources := if component.EventComponent? then family.eventSources else family.linkSources;
    if name.None? || name.value !in sources then None
    else
      var source := sources[name.value];
      var inputKey := (if component.EventComponent? then "span_event_input" else "span_link_input", source);
      var callableKey := (if component.EventComponent? then "span_event_constructor" else "span_link_constructor",
          source);
      if inputKey in family.inputs && callableKey in api.callables
          then Some((family.inputs[inputKey], api.callables[callableKey]))
      else None
  }

  /** A component is its constructor applied to its typed input. */
  function ComponentMeaning(api: Api, family: Family, component: Component, v: Value): Option<GoValue> {
    if !v.Dict? then None
    else
      var item := Mapping(v);
      var plan := ComponentPlan(api, family, component, item);
      if plan.None? then None
      else
        var fields := InputMeaning(api, family, component, item, plan.value.0.fields, |plan.value.0.fields|);
        if fields.None? then None
        else Constructed(plan.value.1, [StructValue(Named(plan.value.0.symbol), fields.value)])
  }

  function ComponentsMeaning(api: Api, family: Family, component: Component, items: seq<Value>,
                             n: nat): Option<seq<GoValue>>
    requires n <= |items|
  {
    if n == 0 then Some([])
    else
      var before := ComponentsMeaning(api, family, component, items, n - 1);
      var last := ComponentMeaning(api, family, component, items[n - 1]);
      if before.Some? && last.Some? then Some(before.value + [last.value]) else None
  }

  lemma {:induction false} ComponentsFail(api: Api, family: Family, component: Component, items: seq<Value>, i: nat,
                                          n: nat)
    requires i <= n <= |items| && ComponentsMeaning(api, family, component, items, i).None?
    ensures ComponentsMeaning(api, family, component, items, n).None?
  {
    hide ComponentMeaning;
    if i < n {
      ComponentsFail(api, family, component, items, i, n - 1);
    }
  }

  lemma {:induction false} InputFails(api: Api, family: Family, component: Component, item: map<string, Value>,
                                      fields: seq<InputField>, i: nat, n: nat)
    requires i <= n <= |fields| && InputMeaning(api, family, component, item, fields, i).None?
    ensures InputMeaning(api, family, component, item, fields, n).None?
  {
    hide FieldMeaning;
    if i < n {
      InputFails(api, family, component, item, fields, i, n - 1);
    }
  }

  // ----- the compiler

  class InputCompiler {
    const api: Api
    const family: Family
    var prelude: seq<Statement>
    var constructorIndex: nat

    ghost predicate Valid()
      reads this
    {
      constructorIndex == |prelude| && Sound(prelude)
    }

    constructor (api: Api, family: Family)
      ensures Valid() && prelude == [] && this.api == api && this.family == family
    {
      this.api, this.family := api, family;
      prelude := [];
      constructorIndex := 0;
    }

    /** scripts/telemetry_go_fixture_plan.py `bind_constructor`. */
    method BindConstructor(plan: CallablePlan, arguments: seq<Expr>, prefix: string, ghost values: seq<GoValue>)
      returns (r: Option<Expr>)
      requires Valid() && prefix in PREFIXES && CompiledAll(arguments, prelude, values)
      modifies this`prelude, this`constructorIndex
      ensures Valid()
      ensures r.Some? <==> Constructed(plan, values).Some?
      ensures r.None? ==> prelude == old(prelude)
      ensures r.Some? ==>
                && prelude == old(prelude) + [Statement(ResultName(prefix, |old(prelude)|),
                  ErrorName(prefix, |old(prelude)|),
                                                        Call(plan.results[0], plan.symbol, arguments))]
                && Compiled(r.value, prelude, Constructed(plan, values).value)
                && MadeBy(prelude) == MadeBy(old(prelude)) + [Constructed(plan, values).value]
    {
      if |plan.results| != 2 {
        return None;
      }
      if plan.results[1] != Builtin("error") {
        return None;
      }
      hide Sound, Compiled, CompiledAll, ResultName, ErrorName, MadeBy;
      ghost var before := prelude;
      var suffix := constructorIndex;
      constructorIndex := constructorIndex + 1;
      var expression := Call(plan.results[0], plan.symbol, arguments);
      var statement := Statement(ResultName(prefix, suffix), ErrorName(prefix, suffix), expression);
      prelude := prelude + [statement];
      ConstructorBound(before, statement, plan.results[0], plan.symbol, prefix, values);
      return Some(Symbol(plan.results[0], statement.resultName));
    }

    /** scripts/telemetry_go_fixture_plan.py `typed`. */
    method Typed(t: TypeRef, v: Value) returns (r: Option<Expr>)
      requires Valid()
      modifies this`prelude, this`constructorIndex
      ensures Valid() && Built(old(prelude), prelude, r, Meaning(api, t, v))
      ensures MemberNames(old(prelude), prelude)
      decreases Level(v), v, 4, t
    {
      NoNames(prelude);
      hide MemberNames, Built, BuiltAll, Sound, ItemsMeaning, StructuredMeaning, LiteralOf;
      BuiltNothing(prelude);
      match t {
        case Optional(element) =>
          if v.Null? {
            BuiltLeaves(prelude, t, t, BoolScalar(false));
            return Some(OptionalAbsent(t));
          }
          var argument := Typed(element, v);
          BuiltPresent(old(prelude), prelude, t, argument, Meaning(api, element, v));
          return if argument.Some? then Some(OptionalPresent(t, argument.value)) else None;
        case Slice(element) =>
          if !v.List? || |v.items| > MAX_VALUE_NODES {
            return None;
          }
          var items := TypedItems(element, v);
          BuiltSlice(old(prelude), prelude, t, items, ItemsMeaning(api, element, v, |v.items|));
          return if items.Some? then Some(SliceOf(t, items.value)) else None;
        case Builtin(name) =>
          var scalar := LiteralOf(api, name, v);
          if scalar.None? {
            return None;
          }
          BuiltLeaves(prelude, t, t, scalar.value);
          return Some(Literal(t, scalar.value));
        case Named(name) =>
          if name in NAMED_SCALARS {
            if !v.Str? {
              return None;
            }
            BuiltLeaves(prelude, t, STRING, TextScalar(v.s));
            return Some(Conversion(t, Literal(STRING, TextScalar(v.s))));
          }
          if name !in api.structured {
            return None;
          }
          r := StructuredValue(t, api.structured[name], v);
        case _ =>
          return None;
      }
    }

    method TypedItems(t: TypeRef, parent: Value) returns (r: Option<seq<Expr>>)
      requires Valid() && parent.List?
      modifies this`prelude, this`constructorIndex
      ensures Valid() && BuiltAll(old(prelude), prelude, r, ItemsMeaning(api, t, parent, |parent.items|))
      ensures MemberNames(old(prelude), prelude)
      decreases 1, parent, 0, 0
    {
      NoNames(prelude);
      hide MemberNames, Built, BuiltAll, Sound, Meaning;
      BuiltNothing(prelude);
      var items: seq<Expr> := [];
      for i := 0 to |parent.items|
        invariant MemberNames(old(prelude), prelude)
        invariant Valid() && ItemsMeaning(api, t, parent, i).Some?
        invariant BuiltAll(old(prelude), prelude, Some(items), ItemsMeaning(api, t, parent, i))
      {
        ghost var before := prelude;
        var item := Typed(t, parent.items[i]);
        BuiltMore(old(prelude), before, prelude, items, ItemsMeaning(api, t, parent, i).value, item,
            Meaning(api, t, parent.items[i]));
        BuiltAgrees(before, prelude, item, Meaning(api, t, parent.items[i]));
        BuiltAllAgree(old(prelude), before, Some(items), ItemsMeaning(api, t, parent, i));
        NamesAddUp(old(prelude), before, prelude);
        if item.None? {
          ItemsFail(api, t, parent, i + 1, |parent.items|);
          return None;
        }
        items := items + [item.value];
      }
      return Some(items);
    }

    /** scripts/telemetry_go_fixture_plan.py `structured_value`. */
    method StructuredValue(t: TypeRef, plan: Structured, v: Value) returns (r: Option<Expr>)
      requires Valid()
      modifies this`prelude, this`constructorIndex
      ensures Valid() && Built(old(prelude), prelude, r, StructuredMeaning(api, t, plan, v))
      ensures MemberNames(old(prelude), prelude)
      decreases Level(v), v, 3, t
    {
      NoNames(prelude);
      hide MemberNames, Built, BuiltAll, BuiltFields, Sound, ItemsMeaning, ObjectMeaning;
      BuiltNothing(prelude);
      match plan {
        case ArrayPlan(itemType) =>
          if !v.List? || |v.items| > MAX_VALUE_NODES {
            return None;
          }
          var items := TypedItems(itemType, v);
          ArrayBuilt(old(prelude), prelude, t, itemType, items, ItemsMeaning(api, itemType, v, |v.items|));
          if items.None? {
            return None;
          }
          return Some(Composite(t, [CompositeField("Items", SliceOf(Slice(itemType), items.value))]));
        case ObjectPlan(declared, members) =>
          if !v.Dict? {
            return None;
          }
          r := ObjectValue(t, declared, members, v);
        case UnionPlan =>
          return None;
      }
    }

    method ObjectValue(t: TypeRef, declared: seq<Field>, members: seq<MemberPlan>, v: Value) returns (r: Option<Expr>)
      requires Valid() && v.Dict?
      modifies this`prelude, this`constructorIndex
      ensures Valid() && Built(old(prelude), prelude, r, ObjectMeaning(api, t, declared, members, v))
      ensures MemberNames(old(prelude), prelude)
      decreases 1, v, 2, t
    {
      NoNames(prelude);
      hide MemberNames, Built, BuiltAll, BuiltFields, Sound, DeclaredMeaning, EntriesMeaning, Remaining, EntriesPlanOf,
        Mapping;
      var fields := DeclaredFields(v, declared);
      ghost var meanings := DeclaredMeaning(api, v, declared, |declared|);
      BuiltFieldsAgree(old(prelude), prelude, fields, meanings);
      BuiltFails(old(prelude), prelude);
      if fields.None? {
        return None;
      }
      var names := Remaining(Mapping(v), declared);
      if names == [] {
        BuiltComposite(old(prelude), prelude, t, fields.value, meanings.value);
        return Some(Composite(t, fields.value));
      }
      var entriesPlan := EntriesPlanOf(api, declared, members);
      if entriesPlan.None? {
        return None;
      }
      ghost var before := prelude;
      var entries := Entries(v, entriesPlan.value, names);
      BuiltAllAgree(before, prelude, entries, EntriesMeaning(api, v, entriesPlan.value, names, |names|));
      NamesAddUp(old(prelude), before, prelude);
      BuiltFails(old(prelude), prelude);
      if entries.None? {
        return None;
      }
      var slice := SliceOf(entriesPlan.value.entriesType, entries.value);
      ghost var sliceMeaning :=
        SliceValue(entriesPlan.value.entriesType, EntriesMeaning(api, v, entriesPlan.value, names, |names|).value);
      BuiltSlice(before, prelude, entriesPlan.value.entriesType, entries,
          EntriesMeaning(api, v, entriesPlan.value, names, |names|));
      BuiltMoreFields(old(prelude), before, prelude, fields.value, meanings.value, "Entries", Some(slice),
          Some(sliceMeaning));
      var allFields := fields.value + [CompositeField("Entries", slice)];
      BuiltComposite(old(prelude), prelude, t, allFields, meanings.value + [GoField("Entries", sliceMeaning)]);
      return Some(Composite(t, allFields));
    }

    method DeclaredFields(v: Value, declared: seq<Field>) returns (r: Option<seq<CompositeField>>)
      requires Valid() && v.Dict?
      modifies this`prelude, this`constructorIndex
      ensures Valid() && BuiltFields(old(prelude), prelude, r, DeclaredMeaning(api, v, declared, |declared|))
      ensures MemberNames(old(prelude), prelude)
      decreases 1, v, 1, 0
    {
      NoNames(prelude);
      hide MemberNames, Built, BuiltFields, Sound, Mapping, DeclaredMeaning, DeclaredValue;
      BuiltNothing(prelude);
      DeclaredStart(api, v, declared);
      var raw := Mapping(v);
      var fields: seq<CompositeField> := [];
      for i := 0 to |declared|
        invariant MemberNames(old(prelude), prelude)
        invariant Valid() && DeclaredMeaning(api, v, declared, i).Some?
        invariant BuiltFields(old(prelude), prelude, Some(fields), DeclaredMeaning(api, v, declared, i))
      {
        var field := declared[i];
        DeclaredStep(api, v, declared, i);
        if field.selector != "Entries" {
          ghost var before := prelude;
          var value: Option<Expr> := None;
          BuiltNothing(prelude);
          NoNames(prelude);
          if field.semantic in raw {
            value := Typed(field.typeRef, raw[field.semantic]);
          } else if field.typeRef.Optional? {
            value := Typed(field.typeRef, Null);
          }
          DeclaredValueIs(api, v, field);
          BuiltFieldsAgree(old(prelude), before, Some(fields), DeclaredMeaning(api, v, declared, i));
          BuiltAgrees(before, prelude, value, DeclaredValue(api, v, field));
          NamesAddUp(old(prelude), before, prelude);
          BuiltMoreFields(old(prelude), before, prelude, fields, DeclaredMeaning(api, v, declared, i).value,
                          field.selector, value, DeclaredValue(api, v, field));
          BuiltAgrees(before, prelude, value, DeclaredValue(api, v, field));
          if value.None? {
            DeclaredFail(api, v, declared, i + 1, |declared|);
            return None;
          }
          fields := fields + [CompositeField(field.selector, value.value)];
        }
      }
      return Some(fields);
    }

    method Entries(v: Value, plan: EntriesPlan, names: seq<string>) returns (r: Option<seq<Expr>>)
      requires Valid() && v.Dict? && forall name | name in names :: name in Mapping(v)
      modifies this`prelude, this`constructorIndex
      ensures Valid() && BuiltAll(old(prelude), prelude, r, EntriesMeaning(api, v, plan, names, |names|))
      ensures MemberNames(old(prelude), prelude)
      decreases 1, v, 1, 0
    {
      NoNames(prelude);
      hide MemberNames, Built, BuiltAll, Sound, EntriesMeaning, Mapping;
      BuiltNothing(prelude);
      EntriesStart(api, v, plan, names);
      var entries: seq<Expr> := [];
      for i := 0 to |names|
        invariant MemberNames(old(prelude), prelude)
        invariant Valid() && EntriesMeaning(api, v, plan, names, i).Some?
        invariant BuiltAll(old(prelude), prelude, Some(entries), EntriesMeaning(api, v, plan, names, i))
      {
        ghost var before := prelude;
        var entry := Entry(v, plan, names[i]);
        EntriesStep(api, v, plan, names, i);
        BuiltAllAgree(old(prelude), before, Some(entries), EntriesMeaning(api, v, plan, names, i));
        BuiltAgrees(before, prelude, entry, EntryMeaning(api, v, plan, names[i]));
        NamesAddUp(old(prelude), before, prelude);
        BuiltMore(old(prelude), before, prelude, entries, EntriesMeaning(api, v, plan, names, i).value,
                  entry, EntryMeaning(api, v, plan, names[i]));
        BuiltAgrees(before, prelude, entry, EntryMeaning(api, v, plan, names[i]));
        if entry.None? {
          EntriesFail(api, v, plan, names, i + 1, |names|);
          return None;
        }
        entries := entries + [entry.value];
      }
      return Some(entries);
    }

    /** The constructor call of one dynamic member. */
    method Entry(v: Value, plan: EntriesPlan, name: string) returns (r: Option<Expr>)
      requires Valid() && v.Dict? && name in Mapping(v)
      modifies this`prelude, this`constructorIndex
      ensures Valid() && Built(old(prelude), prelude, r, EntryMeaning(api, v, plan, name))
      ensures MemberNames(old(prelude), prelude)
      decreases 1, v, 0, 0
    {
      NoNames(prelude);
      hide MemberNames, Built, Sound, Mapping, Meaning, Constructed, Compiled;
      BuiltNothing(prelude);
      var key := Typed(plan.nameType, Str(name));
      ghost var keyValue, middle := Meaning(api, plan.nameType, Str(name)), prelude;
      BuiltAgrees(old(prelude), prelude, key, keyValue);
      BuiltFails(old(prelude), prelude);
      if key.None? {
        return None;
      }
      var value := Typed(plan.valueType, Mapping(v)[name]);
      ghost var valueValue, end := Meaning(api, plan.valueType, Mapping(v)[name]), prelude;
      BuiltAgrees(middle, prelude, value, valueValue);
      NamesAddUp(old(prelude), middle, end);
      BuiltFails(old(prelude), prelude);
      if value.None? {
        return None;
      }
      BuiltThen(old(prelude), middle, end, key.value, keyValue.value);
      BuiltThen(middle, end, end, value.value, valueValue.value);
      r := BindConstructor(plan.callable, [key.value, value.value], "structuredMember",
          [keyValue.value, valueValue.value]);
      BuiltFails(old(prelude), prelude);
      if r.Some? {
        OneMemberName(end, prelude);
        NamesAddUp(old(prelude), end, prelude);
        BuiltEntry(old(prelude), middle, end, prelude, plan.callable, key.value, keyValue.value, value.value,
            valueValue.value, r.value);
      }
    }

    /** scripts/telemetry_go_fixture_plan.py `component_input`. */
    method ComponentInput(plan: InputPlan, item: map<string, Value>, component: Component) returns (r: Option<Expr>)
      requires Valid()
      modifies this`prelude, this`constructorIndex
      ensures Valid() && MemberNames(old(prelude), prelude)
      ensures var fields := InputMeaning(api, family, component, item, plan.fields, |plan.fields|);
              Built(old(prelude), prelude, r,
                  if fields.Some? then Some(StructValue(Named(plan.symbol), fields.value)) else None)
    {
      NoNames(prelude);
      hide MemberNames, Built, BuiltFields, Sound, Meaning, FieldSource;
      BuiltNothing(prelude);
      var fields: seq<CompositeField> := [];
      for i := 0 to |plan.fields|
        invariant MemberNames(old(prelude), prelude)
        invariant Valid() && InputMeaning(api, family, component, item, plan.fields, i).Some?
        invariant BuiltFields(old(prelude), prelude, Some(fields),
                  InputMeaning(api, family, component, item, plan.fields, i))
      {
        ghost var before := prelude;
        var field := plan.fields[i];
        var source := FieldSource(family, component, item, field);
        BuiltFieldsAgree(old(prelude), prelude, Some(fields),
            InputMeaning(api, family, component, item, plan.fields, i));
        BuiltFails(old(prelude), prelude);
        if source.None? {
          InputFails(api, family, component, item, plan.fields, i + 1, |plan.fields|);
          return None;
        }
        var value := Typed(field.typeRef, source.value);
        BuiltAgrees(before, prelude, value, Meaning(api, field.typeRef, source.value));
        NamesAddUp(old(prelude), before, prelude);
        BuiltMoreFields(old(prelude), before, prelude, fields,
            InputMeaning(api, family, component, item, plan.fields, i).value,
                        field.selector, value, Meaning(api, field.typeRef, source.value));
        BuiltAgrees(before, prelude, value, Meaning(api, field.typeRef, source.value));
        if value.None? {
          BuiltFails(old(prelude), prelude);
          InputFails(api, family, component, item, plan.fields, i + 1, |plan.fields|);
          return None;
        }
        fields := fields + [CompositeField(field.selector, value.value)];
      }
      BuiltComposite(old(prelude), prelude, Named(plan.symbol), fields,
                     InputMeaning(api, family, component, item, plan.fields, |plan.fields|).value);
      return Some(Composite(Named(plan.symbol), fields));
    }

    /** One round of the loop in `events` and in `links`. */
    method ComponentValue(component: Component, v: Value) returns (r: Option<Expr>)
      requires Valid()
      modifies this`prelude, this`constructorIndex
      ensures Valid() && Built(old(prelude), prelude, r, ComponentMeaning(api, family, component, v))
      ensures r.Some? ==> ComponentNames(old(prelude), prelude, component)
    {
      hide ComponentNames, MemberNames, Built, Sound, Mapping, ComponentPlan, InputMeaning, Constructed, Compiled;
      BuiltNothing(prelude);
      if !v.Dict? {
        return None;
      }
      var plan := ComponentPlan(api, family, component, Mapping(v));
      if plan.None? {
        return None;
      }
      var input := ComponentInput(plan.value.0, Mapping(v), component);
      ghost var fields := InputMeaning(api, family, component, Mapping(v), plan.value.0.fields, |plan.value.0.fields|);
      ghost var value := if fields.Some? then Some(StructValue(Named(plan.value.0.symbol), fields.value)) else None;
      BuiltAgrees(old(prelude), prelude, input, value);
      if input.None? {
        return None;
      }
      ghost var middle := prelude;
      BuiltThen(old(prelude), middle, middle, input.value, value.value);
      r := BindConstructor(plan.value.1, [input.value],
          if component.EventComponent? then "traceEvent" else "traceLink", [value.value]);
      BuiltFails(old(prelude), prelude);
      if r.Some? {
        ComponentNamed(old(prelude), middle, prelude, component);
        BuiltCall(old(prelude), middle, prelude, plan.value.1, input.value, value.value, r.value);
      }
    }

    /** scripts/telemetry_go_fixture_plan.py `events` and `links`. */
    method Components(component: Component, t: TypeRef, v: Value) returns (r: Option<Expr>)
      requires Valid()
      modifies this`prelude, this`constructorIndex
      ensures Valid()
      ensures Built(old(prelude), prelude, r,
                    if t.Slice? && v.List? && |v.items| <= MAX_VALUE_NODES
                    then SliceMeaning(t, ComponentsMeaning(api, family, component, v.items, |v.items|)) else None)
    {
      hide Built, BuiltAll, Sound, ComponentMeaning;
      BuiltNothing(prelude);
      if !t.Slice? || !v.List? || |v.items| > MAX_VALUE_NODES {
        return None;
      }
      var items: seq<Expr> := [];
      for i := 0 to |v.items|
        invariant Valid() && ComponentsMeaning(api, family, component, v.items, i).Some?
        invariant BuiltAll(old(prelude), prelude, Some(items), ComponentsMeaning(api, family, component, v.items, i))
      {
        ghost var before := prelude;
        var item := ComponentValue(component, v.items[i]);
        ghost var meaning := ComponentMeaning(api, family, component, v.items[i]);
        BuiltMore(old(prelude), before, prelude, items, ComponentsMeaning(api, family, component, v.items, i).value,
            item, meaning);
        BuiltAgrees(before, prelude, item, meaning);
        if item.None? {
          BuiltAllAgree(old(prelude), prelude, None, None);
          BuiltFails(old(prelude), prelude);
          ComponentsFail(api, family, component, v.items, i + 1, |v.items|);
          return None;
        }
        items := items + [item.value];
      }
      BuiltSlice(old(prelude), prelude, t, Some(items), ComponentsMeaning(api, family, component, v.items, |v.items|));
      return Some(SliceOf(t, items));
    }
  }

  function SliceMeaning(t: TypeRef, items: Option<seq<GoValue>>): Option<GoValue> {
    if items.Some? then Some(SliceValue(t, items.value)) else None
  }

  lemma BuiltCall(p: seq<Statement>, q: seq<Statement>, r: seq<Statement>, plan: CallablePlan, argument: Expr,
                  value: GoValue, e: Expr)
    requires Built(p, q, Some(argument), Some(value)) && q <= r && Sound(r)
    requires Constructed(plan, [value]).Some? && Compiled(e, r, Constructed(plan, [value]).value)
    requires MadeBy(r) == MadeBy(q) + [Constructed(plan, [value]).value]
    ensures Built(p, r, Some(e), Constructed(plan, [value]))
  {
    hide Sound, Compiled, MadeIn, MadeBy, Constructed;
    CallsOfMade(plan, value);
  }

  lemma CallsOfMade(plan: CallablePlan, value: GoValue)
    requires Constructed(plan, [value]).Some?
    ensures MadeIn(Constructed(plan, [value]).value) == MadeIn(value) + [Constructed(plan, [value]).value]
  {
    MadeAppend([], value);
    assert [] + [value] == [value];
  }

  lemma BuiltAgrees(p: seq<Statement>, q: seq<Statement>, e: Option<Expr>, g: Option<GoValue>)
    requires Built(p, q, e, g)
    ensures p <= q && Sound(q) && (e.Some? <==> g.Some?)
  {
    hide Sound, Compiled;
  }

  lemma BuiltAllAgree(p: seq<Statement>, q: seq<Statement>, es: Option<seq<Expr>>, gs: Option<seq<GoValue>>)
    requires BuiltAll(p, q, es, gs)
    ensures p <= q && Sound(q) && (es.Some? <==> gs.Some?)
  {
    hide Sound, CompiledAll;
  }

  lemma BuiltFieldsAgree(p: seq<Statement>, q: seq<Statement>, es: Option<seq<CompositeField>>,
                         gs: Option<seq<GoField>>)
    requires BuiltFields(p, q, es, gs)
    ensures p <= q && Sound(q) && (es.Some? <==> gs.Some?)
  {
    hide Sound, CompiledFields;
  }

  lemma BuiltFails(p: seq<Statement>, q: seq<Statement>)
    requires p <= q && Sound(q)
    ensures Built(p, q, None, None)
  {
    hide Sound, Compiled;
  }

  lemma ArrayBuilt(p: seq<Statement>, q: seq<Statement>, t: TypeRef, itemType: TypeRef, es: Option<seq<Expr>>,
                   gs: Option<seq<GoValue>>)
    requires BuiltAll(p, q, es, gs)
    ensures es.Some? <==> gs.Some?
    ensures es.None? ==> Built(p, q, None, None)
    ensures es.Some? ==>
              Built(p, q, Some(Composite(t, [CompositeField("Items", SliceOf(Slice(itemType), es.value))])),
                    Some(StructValue(t, [GoField("Items", SliceValue(Slice(itemType), gs.value))])))
  {
    hide Sound, Compiled, CompiledAll, MadeIn, MadeInAll, MadeBy;
    if es.Some? {
      ArrayCompiled(t, itemType, es.value, q, gs.value);
      ArrayMade(t, itemType, gs.value);
    }
  }

  lemma ArrayCompiled(t: TypeRef, itemType: TypeRef, es: seq<Expr>, q: seq<Statement>, gs: seq<GoValue>)
    requires CompiledAll(es, q, gs)
    ensures Compiled(Composite(t, [CompositeField("Items", SliceOf(Slice(itemType), es))]), q,
                     StructValue(t, [GoField("Items", SliceValue(Slice(itemType), gs))]))
  {
    hide Compiled;
    CompiledSlice(Slice(itemType), es, q, gs);
    CompiledComposite(t, [CompositeField("Items", SliceOf(Slice(itemType), es))], q,
                      [GoField("Items", SliceValue(Slice(itemType), gs))]);
  }

  lemma ArrayMade(t: TypeRef, itemType: TypeRef, gs: seq<GoValue>)
    ensures MadeIn(StructValue(t, [GoField("Items", SliceValue(Slice(itemType), gs))])) == MadeInAll(gs)
  {
    hide MadeInAll;
    var field := GoField("Items", SliceValue(Slice(itemType), gs));
    FieldMadeAppend([], field);
    assert [] + [field] == [field];
  }

  lemma BuiltEntry(p: seq<Statement>, q: seq<Statement>, r: seq<Statement>, s: seq<Statement>, plan: CallablePlan,
                   key: Expr, keyValue: GoValue, value: Expr, valueValue: GoValue, e: Expr)
    requires Built(p, q, Some(key), Some(keyValue)) && Built(q, r, Some(value), Some(valueValue))
    requires r <= s && Sound(s) && Constructed(plan, [keyValue, valueValue]).Some?
    requires Compiled(e, s, Constructed(plan, [keyValue, valueValue]).value)
    requires MadeBy(s) == MadeBy(r) + [Constructed(plan, [keyValue, valueValue]).value]
    ensures Built(p, s, Some(e), Constructed(plan, [keyValue, valueValue]))
  {
    hide Sound, Compiled, Constructed, MadeIn, MadeBy;
    MadeCalls(plan, keyValue, valueValue);
  }

  lemma MadeCalls(plan: CallablePlan, key: GoValue, value: GoValue)
    requires Constructed(plan, [key, value]).Some?
    ensures MadeIn(Constructed(plan, [key, value]).value) ==
              MadeIn(key) + MadeIn(value) + [Constructed(plan, [key, value]).value]
  {
    MadeAppend([key], value);
    MadeAppend([], key);
    assert [key] + [value] == [key, value] && [] + [key] == [key];
    var made := Constructed(plan, [key, value]).value;
    assert MadeIn(made) == MadeInAll([key, value]) + [made];
    assert MadeInAll([]) == [];
    hide MadeIn, MadeInAll;
  }

  /** A numbered statement with a constructor call keeps the prelude sound and its symbol stands for the value made. */
  lemma ConstructorBound(before: seq<Statement>, s: Statement, t: TypeRef, symbol: string, prefix: string,
                         values: seq<GoValue>)
    requires Sound(before) && prefix in PREFIXES && s.expression.Call?
    requires s.expression.typeRef == t && s.expression.symbol == symbol
    requires CompiledAll(s.expression.arguments, before, values)
    requires s.resultName == ResultName(prefix, |before|) && s.errorName == ErrorName(prefix, |before|)
    ensures Sound(before + [s]) && Compiled(Symbol(t, s.resultName), before + [s], Made(t, symbol, values))
    ensures MadeBy(before + [s]) == MadeBy(before) + [Made(t, symbol, values)]
  {
    hide Evaluates, Compiled, CompiledAll, WellBound, Numbered, OneCallEach, ResultName, ErrorName, MadeBy;
    FreshNames(before, prefix, |before|);
    NamesDiffer(prefix, |before|, prefix, |before|);
    CompiledCall(t, symbol, s.expression.arguments, before, values);
    BindsValue(before, s, t, Made(t, symbol, values));
    MadeByMore(before, s, Made(t, symbol, values));
    StaysNumbered(before, s, prefix);
    StaysOneCallEach(before, s, values);
  }

  /** The last statement added binds the component, and those before it are numbered `structuredMember` bindings. */
  ghost predicate ComponentNames(p: seq<Statement>, q: seq<Statement>, component: Component) {
    && |q| > |p| && MemberNames(p, q[..|q| - 1])
    && q[|q| - 1].resultName == (if component.EventComponent? then "traceEvent" else "traceLink") + D.Text(|q| - 1)
    && q[|q| - 1].errorName == (if component.EventComponent? then "traceEventErr" else "traceLinkErr") + D.Text(|q| - 1)
  }

  lemma ComponentNamed(p: seq<Statement>, middle: seq<Statement>, q: seq<Statement>, component: Component)
    requires p <= middle <= q && |q| == |middle| + 1 && MemberNames(p, middle)
    requires var prefix := if component.EventComponent? then "traceEvent" else "traceLink";
             && q[|middle|].resultName == ResultName(prefix, |middle|)
             && q[|middle|].errorName == ErrorName(prefix, |middle|)
    ensures ComponentNames(p, q, component)
  {
    assert q[..|q| - 1] == middle;
    assert "traceEvent" + "Err" == "traceEventErr" && "traceLink" + "Err" == "traceLinkErr";
    hide D.Text, MemberNames;
  }

  lemma OneMemberName(p: seq<Statement>, q: seq<Statement>)
    requires |q| == |p| + 1 && q[|p|].resultName == ResultName("structuredMember", |p|)
    requires q[|p|].errorName == ErrorName("structuredMember", |p|)
    ensures MemberNames(p, q)
  {
    assert "structuredMember" + "Err" == "structuredMemberErr";
    hide D.Text;
  }

  lemma StaysOneCallEach(prelude: seq<Statement>, s: Statement, values: seq<GoValue>)
    requires OneCallEach(prelude) && s.expression.Call? && CompiledAll(s.expression.arguments, prelude, values)
    ensures OneCallEach(prelude + [s])
  {
    hide Evaluates;
  }

  lemma StaysNumbered(prelude: seq<Statement>, s: Statement, prefix: string)
    requires Numbered(prelude) && prefix in PREFIXES
    requires s.resultName == ResultName(prefix, |prelude|) && s.errorName == ErrorName(prefix, |prelude|)
    ensures Numbered(prelude + [s])
  {
    hide ResultName, ErrorName;
    assert NamedAt(s, |prelude|);
  }

  lemma DeclaredStep(api: Api, v: Value, declared: seq<Field>, i: nat)
    requires v.Dict? && i < |declared| && DeclaredMeaning(api, v, declared, i).Some?
    ensures var before, f := DeclaredMeaning(api, v, declared, i), declared[i];
            DeclaredMeaning(api, v, declared, i + 1) ==
              if f.selector == "Entries" then before
              else if DeclaredValue(api, v, f).None? then None
              else Some(before.value + [GoField(f.selector, DeclaredValue(api, v, f).value)])
  {
  }

  lemma DeclaredStart(api: Api, v: Value, declared: seq<Field>)
    requires v.Dict?
    ensures DeclaredMeaning(api, v, declared, 0) == Some([])
  {
  }

  lemma DeclaredValueIs(api: Api, v: Value, f: Field)
    requires v.Dict?
    ensures DeclaredValue(api, v, f) ==
            if f.semantic in Mapping(v) then Meaning(api, f.typeRef, Mapping(v)[f.semantic])
            else if f.typeRef.Optional? then Meaning(api, f.typeRef, Null)
            else None
  {
  }

  lemma EntriesStart(api: Api, v: Value, plan: EntriesPlan, names: seq<string>)
    requires v.Dict? && forall name | name in names :: name in Mapping(v)
    ensures EntriesMeaning(api, v, plan, names, 0) == Some([])
  {
  }

  lemma EntriesStep(api: Api, v: Value, plan: EntriesPlan, names: seq<string>, i: nat)
    requires v.Dict? && i < |names| && forall name | name in names :: name in Mapping(v)
    requires EntriesMeaning(api, v, plan, names, i).Some?
    ensures var before, entry := EntriesMeaning(api, v, plan, names, i), EntryMeaning(api, v, plan, names[i]);
            EntriesMeaning(api, v, plan, names, i + 1) ==
                if entry.None? then None else Some(before.value + [entry.value])
  {
  }
}
