/**
 What the record encoder of scripts/telemetry_canonical_record.py writes, stated on the record: every leaf at its
 place in the text, the members in order, and which numbers are accepted and respelled.
 */
module RecordTexts {
  import opened Outcomes
  import opened Sorting
  import D = Digits
  import X = ExactDecimal
  import opened CanonicalNumber
  import opened JsonText
  import opened CanonicalRecord
  import opened RecordLaws

  // ----- places

  /** One step from a value into a member or an item. */
  datatype Step = Into(key: string) | Item(index: nat)

  /** Following the path from `v` leads to `w`. */
  ghost predicate Leads(v: Value, path: seq<Step>, w: Value)
    decreases |path|
  {
    if path == [] then v == w
    else
      match path[0]
      case Into(key) =>
        v.Object? && exists m | m in v.members :: m.key == TextKey(Scalars(key)) && Leads(m.value, path[1..], w)
      case Item(i) => v.Array? && i < |v.items| && Leads(v.items[i], path[1..], w)
  }

  /** Following the path in the text's structure leads to `k`. */
  ghost predicate Shows(j: Json, path: seq<Step>, k: Json)
    decreases |path|
  {
    if path == [] then j == k
    else
      match path[0]
      case Into(key) => j.JObj? && exists m | m in j.members :: m.key == key && Shows(m.value, path[1..], k)
      case Item(i) => j.JArr? && i < |j.items| && Shows(j.items[i], path[1..], k)
  }

  /** Payload values are what lies below the members `body` and `instrument_data` of the record. */
  predicate InPayload(path: seq<Step>) {
    path != [] && (path[0] == Into("body") || path[0] == Into("instrument_data"))
  }

  // ----- what is written at a place

  /** A number is written as its canonical spelling in the payload and when it is a decimal, and else as it is. */
  function NumberAt(n: Number, path: seq<Step>): string
    requires X.Scan(NativeText(n)).Some?
  {
    if InPayload(path) || n.Dec? then Spelling(Denoted(n)) else NativeText(n)
  }

  lemma IntoMember(v: Value, valueNumbers: bool, root: bool, m: Member)
    requires v.Object? && PlainKeys(v.members) && DistinctKeys(v.members) && m in v.members
    ensures TreeOf(v, valueNumbers, root).JObj?
    ensures TreeMember(m, valueNumbers, root) in TreeOf(v, valueNumbers, root).members
  {
    SortedKeysAscend(v.members);
    hide Sorted;
    var s := Sorted(v.members);
    var i :| 0 <= i < |s| && s[i] == m;
    TreeKeys(v, valueNumbers, root, i);
  }

  lemma {:induction false} Placed(v: Value, valueNumbers: bool, root: bool, path: seq<Step>, w: Value)
    requires PythonValue(v) && Encodable(v, valueNumbers, root) && Leads(v, path, w)
    ensures var payload := valueNumbers || (root && InPayload(path));
            && PythonValue(w) && Encodable(w, payload, root && path == [])
            && Shows(TreeOf(v, valueNumbers, root), path, TreeOf(w, payload, root && path == []))
    decreases |path|
  {
    hide EncodeNumber, FloatText, Sorted;
    if path != [] {
      match path[0]
      case Into(key) =>
        var m :| m in v.members && m.key == TextKey(Scalars(key)) && Leads(m.value, path[1..], w);
        var flag := ChildFlag(valueNumbers, root, key);
        assert flag == (valueNumbers || (root && InPayload(path)));
        var i :| 0 <= i < |v.members| && v.members[i] == m;
        Placed(m.value, flag, false, path[1..], w);
        IntoMember(v, valueNumbers, root, m);
        assert TreeMember(m, valueNumbers, root) == JMember(key, TreeOf(m.value, flag, false));
      case Item(i) =>
        Placed(v.items[i], valueNumbers, false, path[1..], w);
    }
  }

  /**
   The emitted text shows every leaf of the record at its place: constants and strings as they are, and numbers
   respelled exactly in the payload and when they are decimals.
   */
  lemma EveryLeafShows(v: Value, path: seq<Step>, w: Value)
    requires PythonValue(v) && CanonicalRecordJson(v).Ok? && Leads(v, path, w)
    ensures ReadText(CanonicalRecordJson(v).value).Some?
    ensures var j := ReadText(CanonicalRecordJson(v).value).value;
            && (w.Null? ==> Shows(j, path, JNull))
            && (w.Bool? ==> Shows(j, path, JBool(w.b)))
            && (w.Str? ==> w.text.Scalars? && Shows(j, path, JStr(w.text.chars)))
            && (w.Num? ==> X.Scan(NativeText(w.number)).Some? && Shows(j, path, JNum(NumberAt(w.number, path))))
  {
    hide EncodeNumber, FloatText, ReadText, Print, Leads, Shows, Spelling, X.Scan;
    AcceptedRecord(v);
    Placed(v, false, true, path, w);
    if w.Num? {
      AcceptedScans(w.number, InPayload(path));
    }
  }

  /** In the text the members of each object come in the order of their keys. */
  lemma MembersInOrder(v: Value)
    requires PythonValue(v) && CanonicalRecordJson(v).Ok?
    ensures ReadText(CanonicalRecordJson(v).value).Some? && KeysAscend(ReadText(CanonicalRecordJson(v).value).value)
  {
    hide *;
    AcceptedRecord(v);
    TreeSettled(v, false, true);
  }

  // ----- which numbers are accepted

  /**
   A number is accepted exactly when it is finite and, where it has to be respelled, a JSON number of at most a
   mebibyte.
   */
  lemma NumberAccepted(n: Number, valueNumbers: bool)
    ensures EncodeNumber(n, valueNumbers).Ok? <==>
              && (n.Int? || n.finite)
              && (valueNumbers || n.Dec? ==> X.IsJsonNumber(NativeText(n)) && |NativeText(n)| <= 1024 * 1024)
  {
    AcceptsExactly(NativeText(n));
    hide Normalized, X.IsJsonNumber;
  }

  // ----- the punctuation

  /** Constants, separators and brackets as they are written. */
  lemma Punctuation()
    ensures Print(JArr([JNull, JBool(true), JBool(false)])) == "[null,true,false]"
    ensures Print(JObj([JMember("a", JArr([])), JMember("b", JObj([]))])) == "{\"a\":[],\"b\":{}}"
  {
    ListPrinted();
    MembersPrinted();
  }

  lemma ListPrinted()
    ensures Print(JArr([JNull, JBool(true), JBool(false)])) == "[null,true,false]"
  {
    assert Print(JNull) == "null" && Print(JBool(true)) == "true" && Print(JBool(false)) == "false";
    PrintedArray([JNull, JBool(true), JBool(false)]);
    hide Print;
    MoreItems(JBool(true), [JBool(false)]);
    MoreItems(JNull, [JBool(true), JBool(false)]);
    assert PrintItems([JBool(false)]) == "false";
    hide PrintItems;
    assert [JBool(true)] + [JBool(false)] == [JBool(true), JBool(false)];
    assert [JNull] + [JBool(true), JBool(false)] == [JNull, JBool(true), JBool(false)];
  }

  lemma PrintedArray(items: seq<Json>)
    ensures Print(JArr(items)) == "[" + PrintItems(items) + "]"
  {
  }

  lemma MoreItems(first: Json, others: seq<Json>)
    requires others != []
    ensures PrintItems([first] + others) == Print(first) + "," + PrintItems(others)
  {
    assert ([first] + others)[1..] == others;
  }

  lemma MembersPrinted()
    ensures Print(JObj([JMember("a", JArr([])), JMember("b", JObj([]))])) == "{\"a\":[],\"b\":{}}"
  {
    var a, b := JMember("a", JArr([])), JMember("b", JObj([]));
    EmptyPrinted();
    LetterMember('a', JArr([]));
    LetterMember('b', JObj([]));
    hide Print, PrintMember;
    assert PrintMember(a) == "\"a\":[]" && PrintMember(b) == "\"b\":{}";
    TwoMembers(a, b);
    PrintedObject([a, b]);
  }

  lemma EmptyPrinted()
    ensures Print(JArr([])) == "[]" && Print(JObj([])) == "{}"
  {
    PrintEmpty();
  }

  lemma LetterMember(c: char, value: Json)
    requires 'a' <= c <= 'z'
    ensures PrintMember(JMember([c], value)) == "\"" + [c] + "\":" + Print(value)
  {
    LetterQuoted(c);
    hide Quoted, Print;
  }

  lemma TwoMembers(a: JMember, b: JMember)
    ensures PrintMembers([a, b]) == PrintMember(a) + "," + PrintMember(b)
  {
    hide PrintMember;
    assert [a, b][1..] == [b];
  }

  lemma PrintedObject(members: seq<JMember>)
    ensures Print(JObj(members)) == "{" + PrintMembers(members) + "}"
  {
    hide PrintMembers;
  }

  lemma LetterQuoted(c: char)
    requires 'a' <= c <= 'z'
    ensures Quoted([c]) == "\"" + [c] + "\""
  {
    EscapedOne(c);
    hide Escaped;
  }
}
