/**
 scripts/telemetry_go_fixture_plan.py `_value` and `_plain_expected`: the closed data tree a fixture
 keeps of an expected value, and the value read back from it.
 */
module FixtureData {
  import opened Outcomes
  import opened Sorting

  datatype Double = Finite(r: real) | NotFinite

  /** Parsed fixture data; `Other` stands for any value of a type the compiler does not take. */
  datatype Value =
    | Null | Str(s: string) | Bool(b: bool) | Int(i: int) | Float(d: Double)
    | List(items: seq<Value>) | Dict(members: map<string, Value>) | Other

  datatype Scalar = TextScalar(s: string) | BoolScalar(b: bool) | IntScalar(i: int) | DoubleScalar(r: real)

  datatype Tree =
    | NullTree | ScalarTree(scalar: Scalar) | ObjectTree(fields: seq<TreeField>) | SequenceTree(items: seq<Tree>)

  datatype TreeField = TreeField(name: string, value: Tree)

  const MAX_VALUE_DEPTH := 64
  const MAX_VALUE_NODES := 131072

  /** The shape of typed compiler data: exactly the keys `$type` and `fields`, the latter a mapping. */
  predicate IsWrapper(v: Value) {
    v.Dict? && v.members.Keys == {"$type", "fields"} && v.members["fields"].Dict?
  }

  /** `_mapping`, on a mapping. */
  function Mapping(v: Value): (members: map<string, Value>)
    requires v.Dict?
    ensures forall k | k in members :: members[k] < v
  {
    if IsWrapper(v) then
      assert v.members["fields"] < v;
      v.members["fields"].members
    else v.members
  }

  function ScalarOf(v: Value): Option<Scalar> {
    match v
    case Str(s) => Some(TextScalar(s))
    case Bool(b) => Some(BoolScalar(b))
    case Int(i) => Some(IntScalar(i))
    case Float(d) => if d.Finite? then Some(DoubleScalar(d.r)) else None
    case _ => None
  }

  function Unscalar(s: Scalar): Value {
    match s
    case TextScalar(t) => Str(t)
    case BoolScalar(b) => Bool(b)
    case IntScalar(i) => Int(i)
    case DoubleScalar(r) => Float(Finite(r))
  }

  /** The value with every wrapper replaced by its fields. */
  function Unwrapped(v: Value): Value {
    match v
    case List(items) => List(seq(|items|, i requires 0 <= i < |items| => Unwrapped(items[i])))
    case Dict(_) => Dict(map k | k in Mapping(v) :: Unwrapped(Mapping(v)[k]))
    case _ => v
  }

  /** No mapping in the value looks like a wrapper. */
  predicate NoWrapper(v: Value) {
    match v
    case List(items) => forall i | 0 <= i < |items| :: NoWrapper(items[i])
    case Dict(members) => !IsWrapper(v) && forall k | k in members :: NoWrapper(members[k])
    case _ => true
  }

  // ----- size and height

  function Sum(xs: seq<nat>): nat {
    if xs == [] then 0 else Sum(xs[..|xs| - 1]) + xs[|xs| - 1]
  }

  function Largest(xs: seq<nat>): (m: nat)
    ensures forall x | x in xs :: x <= m
    ensures xs != [] ==> m in xs
  {
    if xs == [] then 0
    else
      var m, x := Largest(xs[..|xs| - 1]), xs[|xs| - 1];
      assert forall y | y in xs :: y == x || y in xs[..|xs| - 1];
      if m < x then x else m
  }

  /** The values at the keys of a mapping, in the order of the keys. */
  function ValuesOf(members: map<string, Value>): (values: seq<Value>)
    ensures |values| == |SortedSet(members.Keys)|
    ensures forall i | 0 <= i < |values| ::
              SortedSet(members.Keys)[i] in members && values[i] == members[SortedSet(members.Keys)[i]]
  {
    var keys := SortedSet(members.Keys);
    assert forall i | 0 <= i < |keys| :: keys[i] in keys;
    seq(|keys|, i requires 0 <= i < |keys| => members[keys[i]])
  }

  /** The children of a value in the order the compiler visits them. */
  function Children(v: Value): (children: seq<Value>)
    ensures forall c | c in children :: c < v
  {
    match v
    case List(items) => items
    case Dict(members) => ValuesOf(members)
    case _ => []
  }

  /** The number of nodes of a value. */
  function Nodes(v: Value): nat
    decreases v, 1
  {
    1 + Sum(NodesOf(v, Children(v)))
  }

  function NodesOf(v: Value, children: seq<Value>): (counts: seq<nat>)
    requires forall c | c in children :: c < v
    ensures |counts| == |children|
    decreases v, 0
  {
    seq(|children|, i requires 0 <= i < |children| => assert children[i] in children; Nodes(children[i]))
  }

  function Height(v: Value): nat
    decreases v, 1
  {
    if Children(v) == [] then 0 else 1 + Largest(HeightsOf(v, Children(v)))
  }

  function HeightsOf(v: Value, children: seq<Value>): (heights: seq<nat>)
    requires forall c | c in children :: c < v
    ensures |heights| == |children|
    decreases v, 0
  {
    seq(|children|, i requires 0 <= i < |children| => assert children[i] in children; Height(children[i]))
  }

  // ----- the data tree

  /** What the compiler visits below a value. */
  function Parts(v: Value): (parts: seq<Value>)
    ensures forall p | p in parts :: p < v
  {
    match v
    case List(items) => items
    case Dict(_) => ValuesOf(Mapping(v))
    case _ => []
  }

  /** Every visited leaf is a finite scalar or null. */
  predicate Supported(v: Value) {
    if v.List? || v.Dict? then forall i | 0 <= i < |Parts(v)| :: Supported(Parts(v)[i])
    else v.Null? || ScalarOf(v).Some?
  }

  function TreeOf(v: Value): Tree
    requires Supported(v)
  {
    match v
    case Null => NullTree
    case List(items) => SequenceTree(seq(|items|,
        i requires 0 <= i < |items| => assert items[i] == Parts(v)[i]; TreeOf(items[i])))
    case Dict(_) =>
      var keys := SortedSet(Mapping(v).Keys);
      ObjectTree(seq(|keys|, i requires 0 <= i < |keys| => TreeField(keys[i], TreeOf(Parts(v)[i]))))
    case _ => ScalarTree(ScalarOf(v).value)
  }

  /** `_plain_expected`. */
  function PlainExpected(t: Tree): Value {
    match t
    case NullTree => Null
    case ScalarTree(scalar) => Unscalar(scalar)
    case SequenceTree(items) => List(seq(|items|, i requires 0 <= i < |items| => PlainExpected(items[i])))
    case ObjectTree(fields) => Dict(PlainFields(fields))
  }

  function PlainFields(fields: seq<TreeField>): map<string, Value> {
    if fields == [] then map[]
    else
      var last := fields[|fields| - 1];
      PlainFields(fields[..|fields| - 1])[last.name := PlainExpected(last.value)]
  }

  /** Within the depth and node bounds. */
  predicate Fits(v: Value, depth: nat, budget: int) {
    depth + Height(Unwrapped(v)) <= MAX_VALUE_DEPTH && Nodes(Unwrapped(v)) <= budget
  }

  lemma SumSplit(xs: seq<nat>, i: nat)
    requires i < |xs|
    ensures Sum(xs[..i + 1]) == Sum(xs[..i]) + xs[i]
  {
    assert xs[..i + 1][..i] == xs[..i];
  }

  lemma {:induction false} SumPrefix(xs: seq<nat>, i: nat)
    requires i <= |xs|
    ensures Sum(xs[..i]) <= Sum(xs)
    decreases |xs| - i
  {
    if i == |xs| {
      assert xs[..i] == xs;
    } else {
      SumSplit(xs, i);
      SumPrefix(xs, i + 1);
    }
  }

  /** Unwrapping and taking children commute. */
  lemma UnwrappedChildren(v: Value)
    ensures |Children(Unwrapped(v))| == |Parts(v)|
    ensures forall i | 0 <= i < |Parts(v)| :: Children(Unwrapped(v))[i] == Unwrapped(Parts(v)[i])
  {
    if v.Dict? {
      assert Unwrapped(v).members.Keys == Mapping(v).Keys;
    }
  }

  // ----- building the tree within the bounds

  /** The compiler's shared node counter. */
  class Budget {
    var left: int
    constructor (nodes: int)
      ensures left == nodes
    {
      left := nodes;
    }
  }

  /** What visiting the first `i` parts costs. */
  function Spent(parts: seq<Value>, i: nat): nat
    requires i <= |parts|
  {
    if i == 0 then 0 else Spent(parts, i - 1) + Nodes(Unwrapped(parts[i - 1]))
  }

  predicate PartsFit(parts: seq<Value>, depth: nat, budget: int) {
    && (forall i | 0 <= i < |parts| ::
          Supported(parts[i]) && depth + 1 + Height(Unwrapped(parts[i])) <= MAX_VALUE_DEPTH)
    && Spent(parts, |parts|) <= budget
  }

  lemma {:induction false} SpentMonotone(parts: seq<Value>, i: nat, j: nat)
    requires i <= j <= |parts|
    ensures Spent(parts, i) <= Spent(parts, j)
  {
    if i < j {
      SpentMonotone(parts, i, j - 1);
    }
  }

  lemma {:induction false} SpentIsNodes(v: Value, i: nat)
    requires i <= |Parts(v)|
    ensures |Children(Unwrapped(v))| == |Parts(v)|
    ensures Spent(Parts(v), i) == Sum(NodesOf(Unwrapped(v), Children(Unwrapped(v)))[..i])
  {
    UnwrappedChildren(v);
    hide Unwrapped, Children, Parts, Nodes;
    if i > 0 {
      SpentIsNodes(v, i - 1);
      SumSplit(NodesOf(Unwrapped(v), Children(Unwrapped(v))), i - 1);
    }
  }

  lemma {:induction false} SpentAtLeast(parts: seq<Value>, i: nat)
    requires i <= |parts|
    ensures i <= Spent(parts, i)
  {
    if i > 0 {
      SpentAtLeast(parts, i - 1);
    }
  }

  lemma HeightBelow(v: Value, bound: nat)
    requires v.List? || v.Dict?
    ensures Height(Unwrapped(v)) <= bound <==>
              forall i | 0 <= i < |Parts(v)| :: 1 + Height(Unwrapped(Parts(v)[i])) <= bound
  {
    var u := Unwrapped(v);
    UnwrappedChildren(v);
    var heights := HeightsOf(u, Children(u));
    hide Children, Unwrapped, Parts;
    forall i | 0 <= i < |Parts(v)| ensures heights[i] in heights && heights[i] == Height(Unwrapped(Parts(v)[i])) {
    }
    if Parts(v) != [] {
      var i :| 0 <= i < |heights| && heights[i] == Largest(heights);
    }
  }

  lemma NodesAreSpent(v: Value)
    requires v.List? || v.Dict?
    ensures Nodes(Unwrapped(v)) == 1 + Spent(Parts(v), |Parts(v)|)
  {
    var u := Unwrapped(v);
    SpentIsNodes(v, |Parts(v)|);
    hide Parts, Unwrapped, Children, Spent;
    assert NodesOf(u, Children(u))[..|Parts(v)|] == NodesOf(u, Children(u));
  }

  lemma SupportedParts(v: Value)
    requires v.List? || v.Dict?
    ensures Supported(v) <==> forall i | 0 <= i < |Parts(v)| :: Supported(Parts(v)[i])
  {
    hide Parts;
  }

  /** A container is within the bounds exactly when its parts are, one level down and one node later. */
  lemma FitsParts(v: Value, depth: nat, budget: int)
    requires v.List? || v.Dict?
    ensures depth <= MAX_VALUE_DEPTH ==>
              (Supported(v) && Fits(v, depth, budget) <==> PartsFit(Parts(v), depth, budget - 1))
    ensures Nodes(Unwrapped(v)) == 1 + Spent(Parts(v), |Parts(v)|)
  {
    hide Parts, Unwrapped, Children, Spent, Height, Supported, Nodes;
    NodesAreSpent(v);
    SupportedParts(v);
    if depth <= MAX_VALUE_DEPTH {
      HeightBelow(v, MAX_VALUE_DEPTH - depth);
    }
  }

  lemma LeafFits(v: Value, depth: nat, budget: int)
    requires !v.List? && !v.Dict?
    ensures Fits(v, depth, budget) <==> depth <= MAX_VALUE_DEPTH && 1 <= budget
    ensures Nodes(Unwrapped(v)) == 1
    ensures Supported(v) <==> v.Null? || ScalarOf(v).Some?
    ensures v.Null? ==> TreeOf(v) == NullTree
    ensures ScalarOf(v).Some? ==> TreeOf(v) == ScalarTree(ScalarOf(v).value)
  {
  }

  lemma TooDeep(v: Value, depth: nat, budget: int)
    requires depth > MAX_VALUE_DEPTH || budget < 1
    ensures !Fits(v, depth, budget)
  {
    hide Unwrapped, Children;
  }

  lemma PartsOfList(v: Value)
    requires v.List?
    ensures Parts(v) == v.items
  {
  }

  lemma TreeOfParts(v: Value, trees: seq<Tree>)
    requires v.List? || v.Dict?
    requires |trees| == |Parts(v)| &&
             forall i | 0 <= i < |trees| :: Supported(Parts(v)[i]) && trees[i] == TreeOf(Parts(v)[i])
    ensures Supported(v)
    ensures v.List? ==> TreeOf(v) == SequenceTree(trees)
    ensures v.Dict? ==>
              |SortedSet(Mapping(v).Keys)| == |trees| &&
                  TreeOf(v) == ObjectTree(NamedTrees(SortedSet(Mapping(v).Keys), trees))
  {
    SupportedParts(v);
    hide Supported, SortedSet, Mapping;
    if v.List? {
      PartsOfList(v);
      assert TreeOf(v).items == trees;
    } else {
      assert TreeOf(v).fields == NamedTrees(SortedSet(Mapping(v).Keys), trees);
    }
  }

  function NamedTrees(keys: seq<string>, trees: seq<Tree>): seq<TreeField>
    requires |keys| == |trees|
  {
    seq(|keys|, i requires 0 <= i < |keys| => TreeField(keys[i], trees[i]))
  }

  /** scripts/telemetry_go_fixture_plan.py `_value`. */
  method ValueTree(v: Value, depth: nat, budget: Budget) returns (r: Option<Tree>)
    requires budget.left <= MAX_VALUE_NODES
    modifies budget
    ensures r.Some? <==> Supported(v) && Fits(v, depth, old(budget.left))
    ensures r.Some? ==> r.value == TreeOf(v) && budget.left == old(budget.left) - Nodes(Unwrapped(v))
    ensures budget.left <= old(budget.left)
    decreases v, 1
  {
    hide *;
    if depth > MAX_VALUE_DEPTH {
      TooDeep(v, depth, budget.left);
      return None;
    }
    budget.left := budget.left - 1;
    if budget.left < 0 {
      TooDeep(v, depth, old(budget.left));
      return None;
    }
    if v.Dict? {
      FitsParts(v, depth, old(budget.left));
      var trees := ValueTrees(v, Parts(v), depth, budget);
      if trees.None? {
        return None;
      }
      TreeOfParts(v, trees.value);
      r := Some(ObjectTree(NamedTrees(SortedSet(Mapping(v).Keys), trees.value)));
    } else if v.List? {
      PartsOfList(v);
      FitsParts(v, depth, old(budget.left));
      if |v.items| > MAX_VALUE_NODES {
        TooLong(v.items, depth, budget.left);
        return None;
      }
      var trees := ValueTrees(v, v.items, depth, budget);
      if trees.None? {
        return None;
      }
      TreeOfParts(v, trees.value);
      r := Some(SequenceTree(trees.value));
    } else {
      LeafFits(v, depth, old(budget.left));
      r := if v.Null? then Some(NullTree) else if ScalarOf(v).Some? then Some(ScalarTree(ScalarOf(v).value)) else None;
    }
  }

  lemma TooLong(parts: seq<Value>, depth: nat, budget: int)
    requires |parts| > budget
    ensures !PartsFit(parts, depth, budget)
  {
    SpentAtLeast(parts, |parts|);
  }

  method ValueTrees(ghost parent: Value, parts: seq<Value>, depth: nat, budget: Budget) returns (r: Option<seq<Tree>>)
    requires forall p | p in parts :: p < parent
    requires 0 <= budget.left <= MAX_VALUE_NODES
    modifies budget
    ensures r.Some? <==> PartsFit(parts, depth, old(budget.left))
    ensures r.Some? ==> budget.left == old(budget.left) - Spent(parts, |parts|)
    ensures r.Some? ==>
              |r.value| == |parts| &&
              forall i | 0 <= i < |parts| :: Supported(parts[i]) && r.value[i] == TreeOf(parts[i])
    ensures budget.left <= old(budget.left)
    decreases parent, 0
  {
    hide Supported, Nodes, Unwrapped, TreeOf, Height;
    var trees := [];
    for i := 0 to |parts|
      invariant budget.left == old(budget.left) - Spent(parts, i) && 0 <= budget.left
      invariant |trees| == i
      invariant forall j | 0 <= j < i ::
                  && Supported(parts[j])
                  && depth + 1 + Height(Unwrapped(parts[j])) <= MAX_VALUE_DEPTH
                  && trees[j] == TreeOf(parts[j])
    {
      assert parts[i] in parts;
      var tree := ValueTree(parts[i], depth + 1, budget);
      SpentMonotone(parts, i + 1, |parts|);
      if tree.None? {
        return None;
      }
      trees := trees + [tree.value];
    }
    return Some(trees);
  }

  // ----- the round trip

  lemma {:induction false} PlainNamed(keys: seq<string>, trees: seq<Tree>)
    requires |keys| == |trees| && Distinct(keys)
    ensures var m := PlainFields(NamedTrees(keys, trees));
            && (forall k :: k in m <==> k in keys)
            && forall j | 0 <= j < |keys| :: keys[j] in m && m[keys[j]] == PlainExpected(trees[j])
  {
    hide PlainExpected;
    if keys != [] {
      var n := |keys| - 1;
      PlainNamed(keys[..n], trees[..n]);
      NamedSplit(keys, trees);
      assert keys == keys[..n] + [keys[n]];
    }
  }

  lemma NamedSplit(keys: seq<string>, trees: seq<Tree>)
    requires |keys| == |trees| > 0
    ensures var n := |keys| - 1;
            && NamedTrees(keys, trees)[..n] == NamedTrees(keys[..n], trees[..n])
            && NamedTrees(keys, trees)[n] == TreeField(keys[n], trees[n])
  {
  }

  /** What is read back is the value with its wrappers gone. */
  lemma {:induction false} ReadBack(v: Value)
    requires Supported(v)
    ensures PlainExpected(TreeOf(v)) == Unwrapped(v)
  {
    hide TreeOf, PlainExpected, PlainFields, NamedTrees, Unwrapped, SortedSet, Mapping, Parts;
    if v.List? || v.Dict? {
      var trees := seq(|Parts(v)|, i requires 0 <= i < |Parts(v)| => TreeOf(Parts(v)[i]));
      forall i | 0 <= i < |trees| ensures PlainExpected(trees[i]) == Unwrapped(Parts(v)[i]) {
        assert Parts(v)[i] in Parts(v);
        ReadBack(Parts(v)[i]);
      }
      TreeOfParts(v, trees);
      if v.List? {
        ListReadBack(v, trees);
      } else {
        var keys := SortedSet(Mapping(v).Keys);
        PlainNamed(keys, trees);
        DictReadBack(v, keys, trees);
        ObjectReadBack(NamedTrees(keys, trees));
      }
    } else {
      LeafReadBack(v);
    }
  }

  lemma LeafReadBack(v: Value)
    requires !v.List? && !v.Dict? && Supported(v)
    ensures PlainExpected(TreeOf(v)) == Unwrapped(v)
  {
  }

  lemma ObjectReadBack(fields: seq<TreeField>)
    ensures PlainExpected(ObjectTree(fields)) == Dict(PlainFields(fields))
  {
    hide PlainFields;
  }

  lemma ListReadBack(v: Value, trees: seq<Tree>)
    requires v.List? && |trees| == |Parts(v)|
    requires forall i | 0 <= i < |trees| :: PlainExpected(trees[i]) == Unwrapped(Parts(v)[i])
    ensures PlainExpected(SequenceTree(trees)) == Unwrapped(v)
  {
    PartsOfList(v);
    assert PlainExpected(SequenceTree(trees)).items == Unwrapped(v).items;
  }

  lemma DictReadBack(v: Value, keys: seq<string>, trees: seq<Tree>)
    requires v.Dict? && keys == SortedSet(Mapping(v).Keys) && |trees| == |keys| == |Parts(v)|
    requires forall i | 0 <= i < |trees| :: PlainExpected(trees[i]) == Unwrapped(Parts(v)[i])
    requires var m := PlainFields(NamedTrees(keys, trees));
             && (forall k :: k in m <==> k in keys)
             && forall j | 0 <= j < |keys| :: keys[j] in m && m[keys[j]] == PlainExpected(trees[j])
    ensures Dict(PlainFields(NamedTrees(keys, trees))) == Unwrapped(v)
  {
    hide PlainExpected, PlainFields, SortedSet;
    var m, u := PlainFields(NamedTrees(keys, trees)), Unwrapped(v).members;
    hide Unwrapped, NamedTrees;
    forall j | 0 <= j < |keys| ensures keys[j] in u && u[keys[j]] == m[keys[j]] {
      assert keys[j] in keys;
      UnwrappedAt(v, j);
    }
    assert forall k :: k in u <==> k in keys by {
      UnwrappedKeys(v);
    }
    SameMap(keys, m, u);
  }

  lemma UnwrappedKeys(v: Value)
    requires v.Dict?
    ensures Unwrapped(v).Dict? && Unwrapped(v).members.Keys == Mapping(v).Keys
  {
  }

  lemma UnwrappedAt(v: Value, i: nat)
    requires v.Dict? && i < |Parts(v)|
    ensures |SortedSet(Mapping(v).Keys)| == |Parts(v)| && Unwrapped(v).Dict?
    ensures var k := SortedSet(Mapping(v).Keys)[i];
            k in Unwrapped(v).members && Unwrapped(v).members[k] == Unwrapped(Parts(v)[i])
  {
  }

  lemma SameMap(keys: seq<string>, m: map<string, Value>, u: map<string, Value>)
    requires forall k :: k in m <==> k in keys
    requires forall k :: k in u <==> k in keys
    requires forall j | 0 <= j < |keys| :: keys[j] in m && keys[j] in u && m[keys[j]] == u[keys[j]]
    ensures m == u
  {
    forall k | k in u ensures k in m && m[k] == u[k] {
      var j :| 0 <= j < |keys| && keys[j] == k;
    }
  }

  lemma {:induction false} NothingToUnwrap(v: Value)
    requires NoWrapper(v)
    ensures Unwrapped(v) == v
  {
    match v
    case List(items) =>
      forall i | 0 <= i < |items| ensures Unwrapped(items[i]) == items[i] {
        NothingToUnwrap(items[i]);
      }
    case Dict(members) =>
      forall k | k in members ensures Unwrapped(members[k]) == members[k] {
        NothingToUnwrap(members[k]);
      }
      assert Unwrapped(v).members == members;
    case _ =>
  }

  lemma {:induction false} SumHas(xs: seq<nat>, i: nat)
    requires i < |xs|
    ensures xs[i] <= Sum(xs)
  {
    if i < |xs| - 1 {
      SumHas(xs[..|xs| - 1], i);
    }
  }

  ghost predicate SomeWrapped(parts: seq<Value>, i: nat)
    requires i <= |parts|
  {
    exists j :: 0 <= j < i && !NoWrapper(parts[j])
  }

  lemma {:induction false} SpentBelow(v: Value, parts: seq<Value>, i: nat)
    requires i <= |parts| && forall p | p in parts :: p < v
    ensures Spent(parts, i) <= Sum(NodesOf(v, parts)[..i])
    ensures SomeWrapped(parts, i) ==> Spent(parts, i) < Sum(NodesOf(v, parts)[..i])
    decreases v, 0, i
  {
    hide Unwrapped, NoWrapper, Nodes, Sum;
    if i > 0 {
      SpentBelow(v, parts, i - 1);
      assert parts[i - 1] in parts;
      UnwrappedSmaller(parts[i - 1]);
      SumSplit(NodesOf(v, parts), i - 1);
      if SomeWrapped(parts, i) && NoWrapper(parts[i - 1]) {
        assert SomeWrapped(parts, i - 1);
      }
    }
  }

  /** Unwrapping loses nodes exactly when there is a wrapper. */
  lemma {:induction false} UnwrappedSmaller(v: Value)
    ensures Nodes(Unwrapped(v)) <= Nodes(v)
    ensures Nodes(Unwrapped(v)) < Nodes(v) <==> !NoWrapper(v)
    decreases v, 1
  {
    if NoWrapper(v) {
      NothingToUnwrap(v);
    } else if IsWrapper(v) {
      var inner := v.members["fields"];
      assert inner < v;
      ContainerShrinks(inner, Parts(v));
      assert Nodes(Unwrapped(v)) <= Nodes(inner) by { NodesAreSpent(v); }
      WrapperCosts(v);
    } else if v.Dict? || v.List? {
      ContainerShrinks(v, Parts(v));
      NodesAreSpent(v);
      if !NoWrapper(v) {
        WrappedPart(v);
      }
    }
  }

  lemma ContainerShrinks(v: Value, parts: seq<Value>)
    requires parts == Children(v) && (v.Dict? || v.List?)
    ensures 1 + Spent(parts, |parts|) <= Nodes(v)
    ensures SomeWrapped(parts, |parts|) ==> 1 + Spent(parts, |parts|) < Nodes(v)
    decreases v, 0, |parts| + 1
  {
    hide Children, Spent, Sum;
    SpentBelow(v, parts, |parts|);
    assert NodesOf(v, parts)[..|parts|] == NodesOf(v, parts);
  }

  lemma WrapperCosts(v: Value)
    requires IsWrapper(v)
    ensures Nodes(v.members["fields"]) < Nodes(v)
  {
    var keys := SortedSet(v.members.Keys);
    assert "fields" in keys;
    var i :| 0 <= i < |keys| && keys[i] == "fields";
    SumHas(NodesOf(v, Children(v)), i);
  }

  lemma WrappedPart(v: Value)
    requires !NoWrapper(v) && !IsWrapper(v) && (v.Dict? || v.List?)
    ensures SomeWrapped(Parts(v), |Parts(v)|)
  {
    if v.List? {
      var i :| 0 <= i < |v.items| && !NoWrapper(v.items[i]);
      assert Parts(v)[i] == v.items[i];
    } else {
      var k :| k in v.members && !NoWrapper(v.members[k]);
      var keys := SortedSet(v.members.Keys);
      assert k in keys;
      var i :| 0 <= i < |keys| && keys[i] == k;
      assert Parts(v)[i] == v.members[k];
    }
  }

  /**
   The value read back is the original exactly when no mapping in it has just the keys `$type` and
   `fields` with a mapping under `fields`.
   */
  lemma RoundTrip(v: Value)
    ensures Supported(v) ==> (PlainExpected(TreeOf(v)) == v <==> NoWrapper(v))
  {
    if Supported(v) {
      hide Supported, Nodes, TreeOf, PlainExpected, NoWrapper, Unwrapped;
      ReadBack(v);
      UnwrappedSmaller(v);
      if NoWrapper(v) {
        NothingToUnwrap(v);
      }
    }
  }

  /** The failing case: a mapping that looks like typed data comes back without its type. */
  lemma WrapperDoesNotRoundTrip()
    ensures var v := Dict(map["$type" := Str("T"), "fields" := Dict(map["a" := Int(1)])]);
            Supported(v) && PlainExpected(TreeOf(v)) == Dict(map["a" := Int(1)]) != v
  {
    var inner := map["a" := Int(1)];
    var v := Dict(map["$type" := Str("T"), "fields" := Dict(inner)]);
    assert IsWrapper(v) && Mapping(v) == inner;
    assert forall i | 0 <= i < |Parts(v)| :: Parts(v)[i] == Int(1);
    ReadBack(v);
    assert Unwrapped(Int(1)) == Int(1);
    assert Unwrapped(v).members == inner;
  }

  // ----- what is taken, and in which order

  /** A mapping gives one field a member, in the order of the names. */
  lemma FieldsInOrder(v: Value)
    requires v.Dict? && Supported(v)
    ensures TreeOf(v).ObjectTree?
    ensures Ascending(FieldNames(TreeOf(v).fields))
    ensures forall k :: k in FieldNames(TreeOf(v).fields) <==> k in Mapping(v)
    ensures forall f | f in TreeOf(v).fields :: f.name in Mapping(v) && Supported(Mapping(v)[f.name]) &&
              f.value == TreeOf(Mapping(v)[f.name])
  {
    var keys := SortedSet(Mapping(v).Keys);
    assert forall i | 0 <= i < |keys| :: Supported(Parts(v)[i]) && Parts(v)[i] == Mapping(v)[keys[i]];
    assert FieldNames(TreeOf(v).fields) == keys;
  }

  function FieldNames(fields: seq<TreeField>): seq<string> {
    seq(|fields|, i requires 0 <= i < |fields| => fields[i].name)
  }

  /** What a whole value may be: 64 levels, 131072 nodes, and leaves that are finite scalars or null. */
  lemma WholeValue(v: Value)
    ensures Fits(v, 0, MAX_VALUE_NODES) <==> Height(Unwrapped(v)) <= 64 && Nodes(Unwrapped(v)) <= 131072
    ensures !v.List? && !v.Dict? ==> (Supported(v) <==> v != Other && v != Float(NotFinite))
    ensures v.List? ==> (Supported(v) <==> forall item | item in v.items :: Supported(item))
    ensures v.Dict? ==> (Supported(v) <==> forall k | k in Mapping(v) :: Supported(Mapping(v)[k]))
  {
    hide Height, Nodes, Unwrapped;
    if v.Dict? {
      SupportedDict(v);
      hide *;
    } else if v.List? {
      SupportedParts(v);
      PartsOfList(v);
      hide Supported, Parts;
    }
  }

  lemma SupportedDict(v: Value)
    requires v.Dict?
    ensures Supported(v) <==> forall k | k in Mapping(v) :: Supported(Mapping(v)[k])
  {
    var keys := SortedSet(Mapping(v).Keys);
    PartsOfDict(v);
    SupportedParts(v);
    hide *;
    forall k | k in Mapping(v) ensures exists i :: 0 <= i < |keys| && keys[i] == k {
      assert k in keys;
    }
    assert forall i | 0 <= i < |keys| :: keys[i] in keys;
  }

  lemma PartsOfDict(v: Value)
    requires v.Dict?
    ensures var keys := SortedSet(Mapping(v).Keys);
            |Parts(v)| == |keys| &&
            forall i | 0 <= i < |keys| :: keys[i] in keys && Parts(v)[i] == Mapping(v)[keys[i]]
  {
    hide SortedSet, Mapping;
  }
}
