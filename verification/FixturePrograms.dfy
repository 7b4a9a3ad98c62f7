/**
 scripts/telemetry_go_fixture_plan.py: the fixture's expression language, an ordered prelude of
 constructor bindings, and what they evaluate to.
 */
module FixturePrograms {
  import opened Outcomes
  import opened FixtureData
  import D = Digits

  datatype TypeRef =
    | Builtin(name: string) | Named(name: string) | Qualified(name: string)
    | Optional(element: TypeRef) | Slice(element: TypeRef) | Pointer(element: TypeRef)

  datatype Expr =
    | Literal(typeRef: TypeRef, scalar: Scalar)
    | Symbol(typeRef: TypeRef, name: string)
    | Call(typeRef: TypeRef, symbol: string, arguments: seq<Expr>)
    | Composite(typeRef: TypeRef, fields: seq<CompositeField>)
    | OptionalAbsent(typeRef: TypeRef)
    | OptionalPresent(typeRef: TypeRef, argument: Expr)
    | SliceOf(typeRef: TypeRef, items: seq<Expr>)
    | Conversion(typeRef: TypeRef, argument: Expr)

  datatype CompositeField = CompositeField(selector: string, expression: Expr)

  /** `resultName, errorName := expression`, where the error must be nil. */
  datatype Statement = Statement(resultName: string, errorName: string, expression: Expr)

  /** Go values; a constructor makes a value that keeps its arguments. */
  datatype GoValue =
    | ScalarValue(typeRef: TypeRef, scalar: Scalar)
    | AbsentValue(typeRef: TypeRef)
    | PresentValue(typeRef: TypeRef, inner: GoValue)
    | SliceValue(typeRef: TypeRef, items: seq<GoValue>)
    | ConvertedValue(typeRef: TypeRef, inner: GoValue)
    | StructValue(typeRef: TypeRef, fields: seq<GoField>)
    | Made(typeRef: TypeRef, symbol: string, arguments: seq<GoValue>)
    | NilError
    | Unbound

  datatype GoField = GoField(selector: string, value: GoValue)

  type Env = map<string, GoValue>

  /** Every symbol of the expression is one of `names`. */
  predicate Closed(e: Expr, names: set<string>) {
    match e
    case Symbol(_, name) => name in names
    case Call(_, _, arguments) => forall i | 0 <= i < |arguments| :: Closed(arguments[i], names)
    case Composite(_, fields) => forall i | 0 <= i < |fields| :: Closed(fields[i].expression, names)
    case OptionalPresent(_, argument) => Closed(argument, names)
    case SliceOf(_, items) => forall i | 0 <= i < |items| :: Closed(items[i], names)
    case Conversion(_, argument) => Closed(argument, names)
    case _ => true
  }

  function Denote(e: Expr, env: Env): GoValue {
    match e
    case Literal(t, scalar) => ScalarValue(t, scalar)
    case Symbol(_, name) => if name in env then env[name] else Unbound
    case Call(t, symbol, arguments) =>
      Made(t, symbol, seq(|arguments|, i requires 0 <= i < |arguments| => Denote(arguments[i], env)))
    case Composite(t, fields) =>
      StructValue(t,
          seq(|fields|, i requires 0 <= i < |fields| => GoField(fields[i].selector, Denote(fields[i].expression, env))))
    case OptionalAbsent(t) => AbsentValue(t)
    case OptionalPresent(t, argument) => PresentValue(t, Denote(argument, env))
    case SliceOf(t, items) => SliceValue(t, seq(|items|, i requires 0 <= i < |items| => Denote(items[i], env)))
    case Conversion(t, argument) => ConvertedValue(t, Denote(argument, env))
  }

  /** The bindings after the prelude has run. */
  function Run(prelude: seq<Statement>): Env {
    if prelude == [] then map[]
    else
      var before, s := Run(prelude[..|prelude| - 1]), prelude[|prelude| - 1];
      before[s.resultName := Denote(s.expression, before)][s.errorName := NilError]
  }

  /** Every statement binds two new names and uses only names bound before it. */
  predicate WellBound(prelude: seq<Statement>) {
    prelude == [] ||
    var before, s := prelude[..|prelude| - 1], prelude[|prelude| - 1];
    && WellBound(before)
    && s.resultName !in Run(before) && s.errorName !in Run(before) && s.resultName != s.errorName
    && Closed(s.expression, Run(before).Keys)
  }

  /** The expression calls nothing. */
  predicate CallFree(e: Expr) {
    match e
    case Call(_, _, _) => false
    case Composite(_, fields) => forall i | 0 <= i < |fields| :: CallFree(fields[i].expression)
    case OptionalPresent(_, argument) => CallFree(argument)
    case SliceOf(_, items) => forall i | 0 <= i < |items| :: CallFree(items[i])
    case Conversion(_, argument) => CallFree(argument)
    case _ => true
  }

  /** The expression needs nothing but the prelude and evaluates to `g` after it. */
  predicate Evaluates(e: Expr, prelude: seq<Statement>, g: GoValue) {
    Closed(e, Run(prelude).Keys) && Denote(e, Run(prelude)) == g
  }

  /** It does so without a call of its own. */
  predicate Compiled(e: Expr, prelude: seq<Statement>, g: GoValue) {
    CallFree(e) && Evaluates(e, prelude, g)
  }

  predicate CompiledAll(es: seq<Expr>, prelude: seq<Statement>, gs: seq<GoValue>) {
    |es| == |gs| && forall i | 0 <= i < |es| :: Compiled(es[i], prelude, gs[i])
  }

  predicate CompiledFields(fields: seq<CompositeField>, prelude: seq<Statement>, gs: seq<GoField>) {
    |fields| == |gs| && forall i | 0 <= i < |fields| ::
      fields[i].selector == gs[i].selector && Compiled(fields[i].expression, prelude, gs[i].value)
  }

  // ----- a longer prelude changes nothing

  ghost predicate Grows(env: Env, larger: Env) {
    forall name | name in env :: name in larger && larger[name] == env[name]
  }

  lemma {:induction false} DenoteStable(e: Expr, env: Env, larger: Env)
    requires Grows(env, larger) && Closed(e, env.Keys)
    ensures Closed(e, larger.Keys) && Denote(e, larger) == Denote(e, env)
  {
    match e
    case Call(_, _, arguments) =>
      forall i | 0 <= i < |arguments|
        ensures Closed(arguments[i], larger.Keys) && Denote(arguments[i], larger) == Denote(arguments[i], env)
      {
        DenoteStable(arguments[i], env, larger);
      }
      assert Denote(e, larger).arguments == Denote(e, env).arguments;
    case Composite(_, fields) =>
      forall i | 0 <= i < |fields|
        ensures Closed(fields[i].expression, larger.Keys)
        ensures Denote(fields[i].expression, larger) == Denote(fields[i].expression, env)
      {
        DenoteStable(fields[i].expression, env, larger);
      }
      assert Denote(e, larger).fields == Denote(e, env).fields;
    case OptionalPresent(_, argument) => DenoteStable(argument, env, larger);
    case SliceOf(_, items) =>
      forall i | 0 <= i < |items| ensures Closed(items[i], larger.Keys) &&
          Denote(items[i], larger) == Denote(items[i], env) {
        DenoteStable(items[i], env, larger);
      }
      assert Denote(e, larger).items == Denote(e, env).items;
    case Conversion(_, argument) => DenoteStable(argument, env, larger);
    case _ =>
  }

  lemma {:induction false} RunGrows(p: seq<Statement>, q: seq<Statement>)
    requires p <= q && WellBound(q)
    ensures Grows(Run(p), Run(q)) && WellBound(p)
  {
    hide Closed, Denote;
    if p != q {
      var before := q[..|q| - 1];
      assert p <= before;
      RunGrows(p, before);
    }
  }

  /** Later statements cannot change what an expression evaluates to. */
  lemma StaysCompiled(e: Expr, p: seq<Statement>, q: seq<Statement>, g: GoValue)
    requires p <= q && WellBound(q) && Compiled(e, p, g)
    ensures Compiled(e, q, g)
  {
    RunGrows(p, q);
    DenoteStable(e, Run(p), Run(q));
  }

  lemma StayCompiled(es: seq<Expr>, p: seq<Statement>, q: seq<Statement>, gs: seq<GoValue>)
    requires p <= q && WellBound(q) && CompiledAll(es, p, gs)
    ensures CompiledAll(es, q, gs)
  {
    hide Compiled;
    forall i | 0 <= i < |es| ensures Compiled(es[i], q, gs[i]) {
      StaysCompiled(es[i], p, q, gs[i]);
    }
  }

  lemma FieldsStayCompiled(fields: seq<CompositeField>, p: seq<Statement>, q: seq<Statement>, gs: seq<GoField>)
    requires p <= q && WellBound(q) && CompiledFields(fields, p, gs)
    ensures CompiledFields(fields, q, gs)
  {
    hide Compiled;
    forall i | 0 <= i < |fields| ensures Compiled(fields[i].expression, q, gs[i].value) {
      StaysCompiled(fields[i].expression, p, q, gs[i].value);
    }
  }

  lemma CompiledSlice(t: TypeRef, es: seq<Expr>, p: seq<Statement>, gs: seq<GoValue>)
    requires CompiledAll(es, p, gs)
    ensures Compiled(SliceOf(t, es), p, SliceValue(t, gs))
  {
    assert Denote(SliceOf(t, es), Run(p)).items == gs;
  }

  lemma CompiledCall(t: TypeRef, symbol: string, es: seq<Expr>, p: seq<Statement>, gs: seq<GoValue>)
    requires CompiledAll(es, p, gs)
    ensures Evaluates(Call(t, symbol, es), p, Made(t, symbol, gs))
  {
    assert Denote(Call(t, symbol, es), Run(p)).arguments == gs;
  }

  lemma CompiledComposite(t: TypeRef, fields: seq<CompositeField>, p: seq<Statement>, gs: seq<GoField>)
    requires CompiledFields(fields, p, gs)
    ensures Compiled(Composite(t, fields), p, StructValue(t, gs))
  {
    assert Denote(Composite(t, fields), Run(p)).fields == gs;
  }

  /** A new binding makes its symbol stand for the value of the bound expression. */
  lemma BindsValue(p: seq<Statement>, s: Statement, t: TypeRef, g: GoValue)
    requires WellBound(p) && Evaluates(s.expression, p, g)
    requires s.resultName !in Run(p) && s.errorName !in Run(p) && s.resultName != s.errorName
    ensures WellBound(p + [s]) && Compiled(Symbol(t, s.resultName), p + [s], g)
  {
    assert (p + [s])[..|p|] == p;
  }

  // ----- names

  const PREFIXES: set<string> := {"structuredMember", "traceEvent", "traceLink"}

  function ResultName(prefix: string, k: nat): string {
    prefix + D.Text(k)
  }

  function ErrorName(prefix: string, k: nat): string {
    prefix + "Err" + D.Text(k)
  }

  /** The statement at position `k` binds names that carry `k`. */
  predicate NamedAt(s: Statement, k: nat) {
    exists prefix | prefix in PREFIXES :: s.resultName == ResultName(prefix, k) && s.errorName == ErrorName(prefix, k)
  }

  predicate Numbered(prelude: seq<Statement>) {
    forall k | 0 <= k < |prelude| :: NamedAt(prelude[k], k)
  }

  lemma SuffixesAgree(p: string, a: string, b: string)
    requires p + a == p + b
    ensures a == b
  {
    assert a == (p + a)[|p|..] && b == (p + b)[|p|..];
  }

  lemma PrefixesDiffer(p: string, q: string, a: string, b: string)
    requires p in PREFIXES && q in PREFIXES && p != q
    ensures p + a != q + b
  {
    var i := if p == "structuredMember" || q == "structuredMember" then 0 else 5;
    assert (p + a)[i] == p[i] && (q + b)[i] == q[i];
  }

  lemma DigitFirst(k: nat)
    ensures D.Text(k)[0] != 'E'
  {
    D.TextCanonical(k);
  }

  /** Names of different statements differ, and so do the two names of one. */
  lemma NamesDiffer(p: string, j: nat, q: string, k: nat)
    requires p in PREFIXES && q in PREFIXES
    ensures ResultName(p, j) == ResultName(q, k) ==> p == q && j == k
    ensures ErrorName(p, j) == ErrorName(q, k) ==> p == q && j == k
    ensures ResultName(p, j) != ErrorName(q, k)
  {
    hide D.Text;
    var a, b := D.Text(j), D.Text(k);
    assert p + "Err" + b == p + ("Err" + b);
    assert q + "Err" + b == q + ("Err" + b);
    assert p + "Err" + a == p + ("Err" + a);
    if p != q {
      PrefixesDiffer(p, q, a, b);
      PrefixesDiffer(p, q, a, "Err" + b);
      PrefixesDiffer(p, q, "Err" + a, "Err" + b);
    } else {
      DigitFirst(j);
      assert ("Err" + b)[0] == 'E';
      if a != b {
        if p + a == p + b {
          SuffixesAgree(p, a, b);
        }
        if p + "Err" + a == p + "Err" + b {
          SuffixesAgree(p + "Err", a, b);
        }
      } else {
        D.TextInjective(j, k);
      }
      if p + a == p + ("Err" + b) {
        SuffixesAgree(p, a, "Err" + b);
      }
    }
  }

  /** The names of statement number `|prelude|` are not bound yet. */
  lemma {:induction false} FreshNames(prelude: seq<Statement>, prefix: string, k: nat)
    requires Numbered(prelude) && prefix in PREFIXES && |prelude| <= k
    ensures ResultName(prefix, k) !in Run(prelude) && ErrorName(prefix, k) !in Run(prelude)
  {
    hide Denote, ResultName, ErrorName, PREFIXES;
    if prelude != [] {
      var n := |prelude| - 1;
      FreshNames(prelude[..n], prefix, k);
      assert NamedAt(prelude[n], n);
      var q :| q in PREFIXES && prelude[n].resultName == ResultName(q, n) && prelude[n].errorName == ErrorName(q, n);
      NamesDiffer(prefix, k, q, n);
      NamesDiffer(q, n, prefix, k);
    }
  }

  // ----- constructor calls


  /** The constructor calls inside a value, each after the calls in its arguments, and otherwise from left to right. */
  function MadeIn(g: GoValue): seq<GoValue> {
    match g
    case PresentValue(_, inner) => MadeIn(inner)
    case ConvertedValue(_, inner) => MadeIn(inner)
    case SliceValue(_, items) => MadeInAll(items)
    case Made(_, _, arguments) => MadeInAll(arguments) + [g]
    case StructValue(_, fields) => MadeInFields(fields)
    case _ => []
  }

  function MadeInAll(gs: seq<GoValue>): seq<GoValue> {
    if gs == [] then [] else MadeInAll(gs[..|gs| - 1]) + MadeIn(gs[|gs| - 1])
  }

  function MadeInFields(fields: seq<GoField>): seq<GoValue> {
    if fields == [] then [] else MadeInFields(fields[..|fields| - 1]) + MadeIn(fields[|fields| - 1].value)
  }

  lemma MadeAppend(gs: seq<GoValue>, g: GoValue)
    ensures MadeInAll(gs + [g]) == MadeInAll(gs) + MadeIn(g)
  {
    assert (gs + [g])[..|gs|] == gs;
  }

  lemma FieldMadeAppend(fields: seq<GoField>, field: GoField)
    ensures MadeInFields(fields + [field]) == MadeInFields(fields) + MadeIn(field.value)
  {
    assert (fields + [field])[..|fields|] == fields;
  }

  /** What the statements make, one after the other. */
  function MadeBy(prelude: seq<Statement>): (values: seq<GoValue>)
    ensures |values| == |prelude|
  {
    if prelude == [] then []
    else
      var before, s := prelude[..|prelude| - 1], prelude[|prelude| - 1];
      MadeBy(before) + [Denote(s.expression, Run(before))]
  }

  lemma MadeByMore(p: seq<Statement>, s: Statement, g: GoValue)
    requires Evaluates(s.expression, p, g)
    ensures MadeBy(p + [s]) == MadeBy(p) + [g]
  {
    assert (p + [s])[..|p|] == p;
  }

  // ----- steps of a compilation

  /** Each statement makes one constructor call on arguments without calls. */
  predicate OneCallEach(prelude: seq<Statement>) {
    forall k | 0 <= k < |prelude| :: OneCall(prelude[k].expression)
  }

  predicate OneCall(e: Expr) {
    e.Call? && forall i | 0 <= i < |e.arguments| :: CallFree(e.arguments[i])
  }

  predicate Sound(prelude: seq<Statement>) {
    WellBound(prelude) && Numbered(prelude) && OneCallEach(prelude)
  }

  /**
   Compiling went from prelude `p` to prelude `q`: it succeeded exactly when the source has a meaning,
   the result evaluates to that meaning without a call of its own, and the statements added make exactly the
   constructor calls in the meaning, in their order.
   */
  ghost predicate Built(p: seq<Statement>, q: seq<Statement>, e: Option<Expr>, g: Option<GoValue>) {
    && p <= q && Sound(q)
    && (e.Some? <==> g.Some?)
    && (e.Some? ==> Compiled(e.value, q, g.value) && MadeBy(q) == MadeBy(p) + MadeIn(g.value))
  }

  ghost predicate BuiltAll(p: seq<Statement>, q: seq<Statement>, es: Option<seq<Expr>>, gs: Option<seq<GoValue>>) {
    && p <= q && Sound(q)
    && (es.Some? <==> gs.Some?)
    && (es.Some? ==> CompiledAll(es.value, q, gs.value) && MadeBy(q) == MadeBy(p) + MadeInAll(gs.value))
  }

  ghost predicate BuiltFields(p: seq<Statement>, q: seq<Statement>, es: Option<seq<CompositeField>>,
                              gs: Option<seq<GoField>>) {
    && p <= q && Sound(q)
    && (es.Some? <==> gs.Some?)
    && (es.Some? ==> CompiledFields(es.value, q, gs.value) && MadeBy(q) == MadeBy(p) + MadeInFields(gs.value))
  }

  lemma BuiltNothing(p: seq<Statement>)
    requires Sound(p)
    ensures Built(p, p, None, None) && BuiltAll(p, p, Some([]), Some([])) && BuiltFields(p, p, Some([]), Some([]))
  {
    hide Sound, Compiled;
  }

  lemma BuiltMore(p: seq<Statement>, q: seq<Statement>, r: seq<Statement>, es: seq<Expr>, gs: seq<GoValue>,
                  e: Option<Expr>, g: Option<GoValue>)
    requires BuiltAll(p, q, Some(es), Some(gs)) && Built(q, r, e, g)
    ensures if e.Some? then BuiltAll(p, r, Some(es + [e.value]), Some(gs + [g.value])) else BuiltAll(p, r, None, None)
  {
    hide Compiled, MadeIn, MadeInAll, Numbered, WellBound, OneCallEach, MadeBy;
    if e.Some? {
      StayCompiled(es, q, r, gs);
      MadeAppend(gs, g.value);
    }
  }

  lemma BuiltMoreFields(p: seq<Statement>, q: seq<Statement>, r: seq<Statement>, es: seq<CompositeField>,
                        gs: seq<GoField>,
                        selector: string, e: Option<Expr>, g: Option<GoValue>)
    requires BuiltFields(p, q, Some(es), Some(gs)) && Built(q, r, e, g)
    ensures if e.Some?
            then BuiltFields(p, r, Some(es + [CompositeField(selector, e.value)]),
                Some(gs + [GoField(selector, g.value)]))
            else BuiltFields(p, r, None, None)
  {
    hide Compiled, MadeIn, MadeInFields, Numbered, WellBound, OneCallEach, MadeBy;
    if e.Some? {
      FieldsStayCompiled(es, q, r, gs);
      FieldMadeAppend(gs, GoField(selector, g.value));
    }
  }

  lemma BuiltSlice(p: seq<Statement>, q: seq<Statement>, t: TypeRef, es: Option<seq<Expr>>, gs: Option<seq<GoValue>>)
    requires BuiltAll(p, q, es, gs)
    ensures Built(p, q, if es.Some? then Some(SliceOf(t, es.value)) else None,
              if gs.Some? then Some(SliceValue(t, gs.value)) else None)
  {
    hide Compiled, MadeInAll, Sound, MadeBy;
    if es.Some? {
      CompiledSlice(t, es.value, q, gs.value);
    }
  }

  lemma BuiltComposite(p: seq<Statement>, q: seq<Statement>, t: TypeRef, es: seq<CompositeField>, gs: seq<GoField>)
    requires BuiltFields(p, q, Some(es), Some(gs))
    ensures Built(p, q, Some(Composite(t, es)), Some(StructValue(t, gs)))
  {
    hide Compiled, MadeInFields, Sound, MadeBy;
    CompiledComposite(t, es, q, gs);
  }

  lemma BuiltPresent(p: seq<Statement>, q: seq<Statement>, t: TypeRef, e: Option<Expr>, g: Option<GoValue>)
    requires Built(p, q, e, g)
    ensures Built(p, q, if e.Some? then Some(OptionalPresent(t, e.value)) else None,
              if g.Some? then Some(PresentValue(t, g.value)) else None)
  {
    hide Sound, Run;
  }

  lemma BuiltLeaves(p: seq<Statement>, t: TypeRef, u: TypeRef, scalar: Scalar)
    requires Sound(p)
    ensures Built(p, p, Some(Literal(t, scalar)), Some(ScalarValue(t, scalar)))
    ensures Built(p, p, Some(OptionalAbsent(t)), Some(AbsentValue(t)))
    ensures Built(p, p, Some(Conversion(t, Literal(u, scalar))), Some(ConvertedValue(t, ScalarValue(u, scalar))))
  {
    hide Sound, Run;
    var literal, value := Literal(u, scalar), ScalarValue(u, scalar);
    assert Denote(literal, Run(p)) == value && Closed(literal, Run(p).Keys) && MadeIn(value) == [];
    assert Denote(Conversion(t, literal), Run(p)) == ConvertedValue(t, value) &&
        Closed(Conversion(t, literal), Run(p).Keys);
    assert CallFree(literal) && CallFree(Conversion(t, literal)) && MadeIn(ConvertedValue(t, value)) == [];
  }

  /** Nothing after `q` spoils what was built. */
  lemma BuiltThen(p: seq<Statement>, q: seq<Statement>, r: seq<Statement>, e: Expr, g: GoValue)
    requires Built(p, q, Some(e), Some(g)) && q <= r && Sound(r)
    ensures Compiled(e, r, g)
  {
    hide Compiled, MadeIn, MadeBy;
    StaysCompiled(e, q, r, g);
  }

  // ----- names of structured members

  /** The statements added are numbered `structuredMember` bindings. */
  ghost predicate MemberNames(p: seq<Statement>, q: seq<Statement>) {
    forall k | |p| <= k < |q| ::
      q[k].resultName == "structuredMember" + D.Text(k) && q[k].errorName == "structuredMemberErr" + D.Text(k)
  }

  lemma NoNames(p: seq<Statement>)
    ensures MemberNames(p, p)
  {
  }

  lemma NamesAddUp(p: seq<Statement>, q: seq<Statement>, r: seq<Statement>)
    requires p <= q <= r && MemberNames(p, q) && MemberNames(q, r)
    ensures MemberNames(p, r)
  {
    hide D.Text;
    forall k | |p| <= k < |r|
      ensures r[k].resultName == "structuredMember" + D.Text(k) && r[k].errorName == "structuredMemberErr" + D.Text(k)
    {
      if k < |q| {
        assert r[k] == q[k];
      }
    }
  }

  // ----- definitions come before uses

  function Symbols(e: Expr): set<string> {
    match e
    case Symbol(_, name) => {name}
    case Call(_, _, arguments) => set i, name | 0 <= i < |arguments| && name in Symbols(arguments[i]) :: name
    case Composite(_, fields) => set i, name | 0 <= i < |fields| && name in Symbols(fields[i].expression) :: name
    case OptionalPresent(_, argument) => Symbols(argument)
    case SliceOf(_, items) => set i, name | 0 <= i < |items| && name in Symbols(items[i]) :: name
    case Conversion(_, argument) => Symbols(argument)
    case _ => {}
  }

  predicate Binds(s: Statement, name: string) {
    name == s.resultName || name == s.errorName
  }

  lemma {:induction false} ClosedSymbols(e: Expr, names: set<string>)
    requires Closed(e, names)
    ensures Symbols(e) <= names
  {
    match e
    case Call(_, _, arguments) =>
      forall i | 0 <= i < |arguments| ensures Symbols(arguments[i]) <= names { ClosedSymbols(arguments[i], names); }
    case Composite(_, fields) =>
      forall i | 0 <= i < |fields| ensures Symbols(fields[i].expression) <= names {
        ClosedSymbols(fields[i].expression, names);
      }
    case OptionalPresent(_, argument) => ClosedSymbols(argument, names);
    case SliceOf(_, items) =>
      forall i | 0 <= i < |items| ensures Symbols(items[i]) <= names { ClosedSymbols(items[i], names); }
    case Conversion(_, argument) => ClosedSymbols(argument, names);
    case _ =>
  }

  lemma {:induction false} BoundNames(prelude: seq<Statement>, name: string)
    ensures name in Run(prelude) <==> exists j | 0 <= j < |prelude| :: Binds(prelude[j], name)
  {
    hide Denote;
    if prelude != [] {
      var n := |prelude| - 1;
      BoundNames(prelude[..n], name);
      assert forall j | 0 <= j < n :: prelude[..n][j] == prelude[j];
      if name in Run(prelude[..n]) {
        var j :| 0 <= j < n && Binds(prelude[..n][j], name);
        assert Binds(prelude[j], name);
      }
    }
  }

  lemma StatementFacts(prelude: seq<Statement>, k: nat)
    requires WellBound(prelude) && k < |prelude|
    ensures Closed(prelude[k].expression, Run(prelude[..k]).Keys)
    ensures forall name | Binds(prelude[k], name) :: name !in Run(prelude[..k])
  {
    hide Closed, Run;
    RunGrows(prelude[..k + 1], prelude);
    assert prelude[..k + 1][..k] == prelude[..k];
  }

  lemma BoundTwice(prelude: seq<Statement>, j: nat, k: nat, name: string)
    requires WellBound(prelude) && j < k < |prelude| && Binds(prelude[j], name)
    ensures !Binds(prelude[k], name)
  {
    hide WellBound;
    StatementFacts(prelude, k);
    BoundNames(prelude[..k], name);
    assert prelude[..k][j] == prelude[j];
  }

  ghost predicate OnlyBinder(prelude: seq<Statement>, j: nat, name: string) {
    forall k | 0 <= k < |prelude| :: Binds(prelude[k], name) <==> k == j
  }

  /** A name bound among the first `i` statements is bound once in the whole prelude. */
  lemma BoundOnce(prelude: seq<Statement>, i: nat, name: string)
    requires i <= |prelude| && WellBound(prelude) && name in Run(prelude[..i])
    ensures exists j | 0 <= j < i :: OnlyBinder(prelude, j, name)
  {
    hide WellBound, Binds;
    BoundNames(prelude[..i], name);
    var j :| 0 <= j < i && Binds(prelude[..i][j], name);
    assert Binds(prelude[j], name);
    forall k | 0 <= k < |prelude| && k != j ensures !Binds(prelude[k], name) {
      if j < k {
        BoundTwice(prelude, j, k, name);
      } else if Binds(prelude[k], name) {
        BoundTwice(prelude, k, j, name);
      }
    }
    assert OnlyBinder(prelude, j, name);
  }

  /** Every name that a compiled expression uses is bound exactly once, by a statement of its prelude. */
  lemma ResultNameBoundOnce(e: Expr, prelude: seq<Statement>, g: GoValue, name: string)
    ensures WellBound(prelude) && Compiled(e, prelude, g) && name in Symbols(e) ==>
              exists j | 0 <= j < |prelude| :: OnlyBinder(prelude, j, name)
  {
    if WellBound(prelude) && Compiled(e, prelude, g) && name in Symbols(e) {
      hide WellBound, Denote, Closed, Symbols, OnlyBinder;
      ClosedSymbols(e, Run(prelude).Keys);
      assert prelude[..|prelude|] == prelude;
      BoundOnce(prelude, |prelude|, name);
    }
  }

  /** Every name a statement uses is bound exactly once, by an earlier statement. */
  lemma EveryNameBoundOnce(prelude: seq<Statement>, i: nat, name: string)
    requires i < |prelude|
    ensures WellBound(prelude) && name in Symbols(prelude[i].expression) ==>
              exists j | 0 <= j < i :: OnlyBinder(prelude, j, name)
  {
    hide WellBound, Binds;
    if WellBound(prelude) && name in Symbols(prelude[i].expression) {
      StatementFacts(prelude, i);
      ClosedSymbols(prelude[i].expression, Run(prelude[..i]).Keys);
      BoundOnce(prelude, i, name);
    }
  }
}
