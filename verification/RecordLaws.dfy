/**
 Laws of the record encoder: which records get the same text, and that encoding an emitted text
 again gives the same text.
 */
module RecordLaws {
  import opened Outcomes
  import opened Sorting
  import D = Digits
  import X = ExactDecimal
  import opened CanonicalNumber
  import opened JsonText
  import opened CanonicalRecord

  // ----- what Python guarantees of its values

  predicate DistinctKeys(members: seq<Member>) {
    forall i, j | 0 <= i < j < |members| :: members[i].key != members[j].key
  }

  /** `repr` of a finite float is a JSON number with a fraction or an exponent. */
  predicate FloatText(text: string) {
    var t := X.Scan(text);
    t.Some? && (t.value.fraction != "" || t.value.exponent.Exponent?)
  }

  /** A dictionary has each key once. */
  predicate PythonValue(v: Value) {
    match v
    case Num(n) => n.Float? && n.finite ==> FloatText(n.text)
    case Object(members) =>
      DistinctKeys(members) && forall i | 0 <= i < |members| :: PythonValue(members[i].value)
    case Array(items) => forall i | 0 <= i < |items| :: PythonValue(items[i])
    case _ => true
  }

  // ----- the encoder emits the printed structure

  lemma {:induction false} EncodeIsPrint(v: Value, valueNumbers: bool, root: bool)
    requires Encode(v, valueNumbers, root).Ok?
    ensures Encode(v, valueNumbers, root).value == Print(TreeOf(v, valueNumbers, root))
    decreases v, 1, 0
  {
    hide EncodeNumber, Quoted, SortBy, TreeMembers, EncodeMembers, EncodeItems, PrintItems, PrintMembers;
    match v
    case Object(members) =>
      SameElements(Sorted(members), members);
      MembersArePrinted(v, Sorted(members), valueNumbers, root);
    case Array(items) =>
      ItemsArePrinted(items, valueNumbers);
      assert TreeOf(v, valueNumbers, root) == JArr(TreeItems(items, valueNumbers));
    case _ =>
  }

  function TreeItems(items: seq<Value>, valueNumbers: bool): seq<Json> {
    seq(|items|, i requires 0 <= i < |items| => TreeOf(items[i], valueNumbers, false))
  }

  lemma {:induction false} ItemsArePrinted(items: seq<Value>, valueNumbers: bool)
    requires EncodeItems(items, valueNumbers).Ok?
    ensures EncodeItems(items, valueNumbers).value == PrintItems(TreeItems(items, valueNumbers))
    decreases items, 0, 0
  {
    hide Encode, Print, TreeOf;
    if items != [] {
      EncodeIsPrint(items[0], valueNumbers, false);
      if |items| > 1 {
        ItemsArePrinted(items[1..], valueNumbers);
        assert TreeItems(items, valueNumbers)[1..] == TreeItems(items[1..], valueNumbers);
      }
    }
  }

  lemma {:induction false} MembersArePrinted(parent: Value, members: seq<Member>, valueNumbers: bool, root: bool)
    requires parent.Object? && forall m | m in members :: m in parent.members
    requires EncodeMembers(parent, members, valueNumbers, root).Ok?
    ensures EncodeMembers(parent, members, valueNumbers, root).value
         == PrintMembers(TreeMembers(parent, members, valueNumbers, root))
    decreases parent, 0, |members|
  {
    hide Encode, Print, TreeOf, ChildFlag, KeyChars, Quoted;
    if members != [] {
      assert members[0] in parent.members;
      var key := KeyChars(members[0].key);
      EncodeIsPrint(members[0].value, ChildFlag(valueNumbers, root, key), false);
      if |members| > 1 {
        MembersArePrinted(parent, members[1..], valueNumbers, root);
        assert TreeMembers(parent, members, valueNumbers, root)[1..]
            == TreeMembers(parent, members[1..], valueNumbers, root);
      }
    }
  }

  // ----- acceptance, leaf by leaf

  /** Every number below is encodable, every key and string is plain, nothing is unsupported. */
  predicate Encodable(v: Value, valueNumbers: bool, root: bool) {
    match v
    case Str(text) => text.Scalars?
    case Num(n) => EncodeNumber(n, valueNumbers).Ok?
    case Object(members) =>
      && PlainKeys(members)
      && forall i | 0 <= i < |members| ::
           Encodable(members[i].value, ChildFlag(valueNumbers, root, KeyChars(members[i].key)), false)
    case Array(items) => forall i | 0 <= i < |items| :: Encodable(items[i], valueNumbers, false)
    case Unsupported => false
    case _ => true
  }

  /** A record is accepted exactly when each of its parts is. */
  lemma {:induction false} EncodeAccepts(v: Value, valueNumbers: bool, root: bool)
    ensures Encode(v, valueNumbers, root).Ok? <==> Encodable(v, valueNumbers, root)
    decreases v, 1, 0
  {
    match v
    case Object(members) =>
      SameElements(Sorted(members), members);
      if PlainKeys(members) {
        MembersAccepted(v, Sorted(members), valueNumbers, root);
        MembersEncodable(members, Sorted(members), valueNumbers, root);
      }
    case Array(items) => ItemsAccepted(items, valueNumbers);
    case _ =>
  }

  predicate EncodableMember(m: Member, valueNumbers: bool, root: bool) {
    Encodable(m.value, ChildFlag(valueNumbers, root, KeyChars(m.key)), false)
  }

  lemma MembersEncodable(members: seq<Member>, sorted: seq<Member>, valueNumbers: bool, root: bool)
    requires forall m :: m in members <==> m in sorted
    ensures (forall i | 0 <= i < |members| ::
               Encodable(members[i].value, ChildFlag(valueNumbers, root, KeyChars(members[i].key)), false))
       <==> (forall m | m in sorted :: EncodableMember(m, valueNumbers, root))
  {
    hide Encodable;
    if forall m | m in sorted :: EncodableMember(m, valueNumbers, root) {
      forall i | 0 <= i < |members|
        ensures Encodable(members[i].value, ChildFlag(valueNumbers, root, KeyChars(members[i].key)), false)
      {
        assert members[i] in sorted;
        assert EncodableMember(members[i], valueNumbers, root);
      }
    }
  }

  lemma {:induction false} ItemsAccepted(items: seq<Value>, valueNumbers: bool)
    ensures EncodeItems(items, valueNumbers).Ok? <==>
            forall i | 0 <= i < |items| :: Encodable(items[i], valueNumbers, false)
    decreases items, 0, 0
  {
    hide Encode, Encodable;
    if items != [] {
      EncodeAccepts(items[0], valueNumbers, false);
      if |items| > 1 {
        ItemsAccepted(items[1..], valueNumbers);
        assert items == [items[0]] + items[1..];
      }
    }
  }

  lemma {:induction false} MembersAccepted(parent: Value, members: seq<Member>, valueNumbers: bool, root: bool)
    requires parent.Object? && forall m | m in members :: m in parent.members
    ensures EncodeMembers(parent, members, valueNumbers, root).Ok? <==>
            forall m | m in members :: EncodableMember(m, valueNumbers, root)
    decreases parent, 0, |members|
  {
    hide Encode, Encodable, Quoted;
    if members != [] {
      assert members[0] in parent.members;
      EncodeAccepts(members[0].value, ChildFlag(valueNumbers, root, KeyChars(members[0].key)), false);
      assert members == [members[0]] + members[1..];
      assert forall m :: m in members <==> m == members[0] || m in members[1..];
      var first := EncodableMember(members[0], valueNumbers, root);
      assert first <==> Encode(members[0].value, ChildFlag(valueNumbers, root, KeyChars(members[0].key)), false).Ok?;
      if |members| > 1 {
        MembersAccepted(parent, members[1..], valueNumbers, root);
        assert EncodeMembers(parent, members, valueNumbers, root).Ok? <==>
               first && EncodeMembers(parent, members[1..], valueNumbers, root).Ok?;
      } else {
        assert members[1..] == [];
      }
    }
  }

  // ----- numbers

  /** The exact number a leaf stands for. */
  function Denoted(n: Number): X.Decimal
    requires X.Scan(NativeText(n)).Some?
  {
    X.ScanSound(NativeText(n));
    X.TokenValue(X.Scan(NativeText(n)).value)
  }

  lemma IntScans(i: int)
    ensures X.Scan(D.IntText(i)) == Some(X.Token(i < 0, D.Text(Magnitude(i)), "", X.NoExponent))
    ensures Denoted(Int(i)) == X.Decimal(i < 0, Magnitude(i), 0)
  {
    var t := X.Token(i < 0, D.Text(Magnitude(i)), "", X.NoExponent);
    D.TextCanonical(Magnitude(i));
    AppendNothing(t.integer);
    assert X.UnsignedText(t) == t.integer;
    assert X.TokenText(t) == D.IntText(i);
    X.ScanComplete(t);
  }

  /** Decimals are always respelled; other leaves may happen to be spelled canonically. */
  predicate CanonicallySpelled(n: Number)
    requires X.Scan(NativeText(n)).Some?
  {
    n.Dec? || NativeText(n) == Spelling(Denoted(n))
  }

  predicate PythonNumber(n: Number) {
    n.Float? && n.finite ==> FloatText(n.text)
  }

  lemma AcceptedScans(n: Number, valueNumbers: bool)
    requires PythonNumber(n) && EncodeNumber(n, valueNumbers).Ok?
    ensures X.Scan(NativeText(n)).Some?
    ensures EncodeNumber(n, valueNumbers).value
         == if valueNumbers || n.Dec? then Spelling(Denoted(n)) else NativeText(n)
    ensures X.Scan(EncodeNumber(n, valueNumbers).value).Some?
  {
    hide Spelling;
    if n.Int? {
      IntScans(n.i);
    }
    if valueNumbers || n.Dec? {
      NormalizedReduced(NativeText(n));
    }
  }

  /** Equality of numbers: numeric below the value roots, of the spelling elsewhere. */
  ghost predicate SameNumber(m: Number, n: Number, valueNumbers: bool)
    requires X.Scan(NativeText(m)).Some? && X.Scan(NativeText(n)).Some?
  {
    if valueNumbers then X.SameValue(Denoted(m), Denoted(n))
    else m == n || (CanonicallySpelled(m) && CanonicallySpelled(n) && X.SameValue(Denoted(m), Denoted(n)))
  }

  lemma SpellingDecided(m: Number, n: Number)
    requires X.Scan(NativeText(m)).Some? && X.Scan(NativeText(n)).Some?
    ensures Spelling(Denoted(m)) == Spelling(Denoted(n)) <==> X.SameValue(Denoted(m), Denoted(n))
  {
    SpellingDecidedByReduced(Denoted(m), Denoted(n));
    X.SameValueIffReduced(Denoted(m), Denoted(n));
  }

  /** A leaf spelled like a respelled decimal is its own canonical spelling. */
  lemma RespelledIsCanonical(m: Number, n: Number)
    requires X.Scan(NativeText(m)).Some? && X.Scan(NativeText(n)).Some?
    requires Spelling(Denoted(m)) == NativeText(n)
    ensures NativeText(n) == Spelling(Denoted(n))
  {
    CanonicalTokenReduced(Denoted(m));
    X.ScanComplete(CanonicalToken(Denoted(m)));
    SpellingDecidedByReduced(Denoted(m), Denoted(n));
  }

  lemma NativeInjective(m: Number, n: Number)
    requires PythonNumber(m) && PythonNumber(n) && IsFinite(m) && IsFinite(n) && !m.Dec? && !n.Dec?
    requires NativeText(m) == NativeText(n)
    ensures m == n
  {
    if m.Int? { IntScans(m.i); }
    if n.Int? { IntScans(n.i); }
    if m.Int? && n.Int? {
      D.TextInjective(Magnitude(m.i), Magnitude(n.i));
    }
  }

  lemma NumberTextDecides(m: Number, n: Number, valueNumbers: bool)
    requires PythonNumber(m) && PythonNumber(n)
    requires EncodeNumber(m, valueNumbers).Ok? && EncodeNumber(n, valueNumbers).Ok?
    ensures X.Scan(NativeText(m)).Some? && X.Scan(NativeText(n)).Some?
    ensures EncodeNumber(m, valueNumbers) == EncodeNumber(n, valueNumbers) <==> SameNumber(m, n, valueNumbers)
  {
    hide Spelling, X.SameValue, X.Scan, D.IntText, FloatText, Normalized;
    AcceptedScans(m, valueNumbers);
    AcceptedScans(n, valueNumbers);
    SpellingDecided(m, n);
    if !valueNumbers && EncodeNumber(m, false) == EncodeNumber(n, false) {
      if m.Dec? && !n.Dec? {
        RespelledIsCanonical(m, n);
      } else if !m.Dec? && n.Dec? {
        RespelledIsCanonical(n, m);
      } else if !m.Dec? {
        NativeInjective(m, n);
      }
    }
  }

  // ----- which records get the same text

  function Keys(members: seq<Member>): seq<string> {
    seq(|members|, i requires 0 <= i < |members| => KeyChars(members[i].key))
  }

  /** Sorting leaves the keys strictly ascending in code-point order. */
  lemma SortedKeysAscend(members: seq<Member>)
    requires PlainKeys(members) && DistinctKeys(members)
    ensures PlainKeys(Sorted(members)) && Ascending(Keys(Sorted(members)))
    ensures forall m :: m in members <==> m in Sorted(members)
    ensures |Sorted(members)| == |members|
  {
    var s := Sorted(members);
    SameElements(s, members);
    MemberOrder();
    SortBySorted(members, MemberLeq);
    assert Distinct(members);
    PermutationDistinct(members, s);
    forall i, j | 0 <= i < j < |s|
      ensures TextLeq(KeyChars(s[i].key), KeyChars(s[j].key)) && KeyChars(s[i].key) != KeyChars(s[j].key)
    {
      assert s[i] in members && s[j] in members;
      assert MemberLeq(s[i], s[j]);
      Utf8KeepsOrder(KeyChars(s[i].key), KeyChars(s[j].key));
      SameKeySameMember(members, s[i], s[j]);
    }
  }

  lemma SameKeySameMember(members: seq<Member>, a: Member, b: Member)
    requires PlainKeys(members) && DistinctKeys(members) && a in members && b in members
    requires a != b
    ensures KeyChars(a.key) != KeyChars(b.key)
  {
    var i :| 0 <= i < |members| && members[i] == a;
    var j :| 0 <= j < |members| && members[j] == b;
    assert members[i].key != members[j].key;
  }

  lemma MemberOrder()
    ensures TotalPreorder(MemberLeq)
  {
    forall a, b ensures MemberLeq(a, b) || MemberLeq(b, a) {
      Utf8KeepsOrder(KeyChars(a.key), KeyChars(b.key));
      Utf8KeepsOrder(KeyChars(b.key), KeyChars(a.key));
      TextLeqTotal(KeyChars(a.key), KeyChars(b.key));
    }
    forall a, b, c | MemberLeq(a, b) && MemberLeq(b, c) ensures MemberLeq(a, c) {
      Utf8KeepsOrder(KeyChars(a.key), KeyChars(b.key));
      Utf8KeepsOrder(KeyChars(b.key), KeyChars(c.key));
      Utf8KeepsOrder(KeyChars(a.key), KeyChars(c.key));
      TextLeqTransitive(KeyChars(a.key), KeyChars(b.key), KeyChars(c.key));
    }
  }

  /**
   The same record: equal scalars and list items, numbers equal as their place demands, and
   dictionaries with the same keys and the same values whatever their insertion order.
   */
  ghost predicate Same(v: Value, w: Value, valueNumbers: bool, root: bool)
    decreases v, 1
  {
    match v
    case Num(m) =>
      w.Num? && X.Scan(NativeText(m)).Some? && X.Scan(NativeText(w.number)).Some? &&
      SameNumber(m, w.number, valueNumbers)
    case Object(members) =>
      && w.Object?
      && EachMatched(members, w.members, valueNumbers, root)
      && KeysCovered(w.members, members)
    case Array(items) =>
      && w.Array? && |items| == |w.items|
      && forall i | 0 <= i < |items| :: Same(items[i], w.items[i], valueNumbers, false)
    case _ => v == w
  }

  /** Every key of `members` is a key of `others`. */
  ghost predicate KeysCovered(members: seq<Member>, others: seq<Member>) {
    forall b | b in members :: exists a | a in others :: a.key == b.key
  }

  ghost predicate SameMember(a: Member, b: Member, valueNumbers: bool, root: bool)
    decreases a, 2
  {
    a.key == b.key && Same(a.value, b.value, ChildFlag(valueNumbers, root, KeyChars(a.key)), false)
  }

  ghost predicate EachMatched(members: seq<Member>, others: seq<Member>, valueNumbers: bool, root: bool)
    decreases members, 0
  {
    forall a | a in members :: exists b | b in others :: SameMember(a, b, valueNumbers, root)
  }

  ghost predicate TreesDecide(members: seq<Member>, others: seq<Member>, valueNumbers: bool, root: bool) {
    forall a, b | a in members && b in others && a.key == b.key ::
      TreeMember(a, valueNumbers, root) == TreeMember(b, valueNumbers, root) <==> SameMember(a, b, valueNumbers, root)
  }

  /** The structures agree exactly when the records are the same. */
  lemma {:induction false} TreeDecides(v: Value, w: Value, valueNumbers: bool, root: bool)
    requires PythonValue(v) && PythonValue(w)
    requires Encodable(v, valueNumbers, root) && Encodable(w, valueNumbers, root)
    ensures TreeOf(v, valueNumbers, root) == TreeOf(w, valueNumbers, root) <==> Same(v, w, valueNumbers, root)
    decreases v
  {
    hide SameNumber, EncodeNumber, X.Scan, TreeMembers, SortBy, DistinctKeys;
    match v
    case Num(m) =>
      if w.Num? {
        NumberTextDecides(m, w.number, valueNumbers);
      }
    case Array(items) =>
      if w.Array? {
        forall i | 0 <= i < |items| && i < |w.items|
          ensures TreeOf(items[i], valueNumbers, false) == TreeOf(w.items[i], valueNumbers, false) <==>
                  Same(items[i], w.items[i], valueNumbers, false)
        {
          TreeDecides(items[i], w.items[i], valueNumbers, false);
        }
        ArraysAgree(items, w.items, valueNumbers);
      }
    case Object(members) =>
      if w.Object? {
        SortedKeysAscend(members);
        SortedKeysAscend(w.members);
        forall a, b | a in members && b in w.members && a.key == b.key
          ensures TreeMember(a, valueNumbers, root) == TreeMember(b, valueNumbers, root) <==>
                  SameMember(a, b, valueNumbers, root)
        {
          TreeDecides(a.value, b.value, ChildFlag(valueNumbers, root, KeyChars(a.key)), false);
        }
        ObjectsAgree(v, w, valueNumbers, root);
      }
    case _ =>
  }

  lemma ArraysAgree(items: seq<Value>, others: seq<Value>, valueNumbers: bool)
    requires forall i | 0 <= i < |items| && i < |others| ::
               TreeOf(items[i], valueNumbers, false) == TreeOf(others[i], valueNumbers, false) <==>
               Same(items[i], others[i], valueNumbers, false)
    ensures TreeOf(Array(items), valueNumbers, false) == TreeOf(Array(others), valueNumbers, false) <==>
            |items| == |others| && forall i | 0 <= i < |items| :: Same(items[i], others[i], valueNumbers, false)
    ensures forall root :: TreeOf(Array(items), valueNumbers, root) == TreeOf(Array(items), valueNumbers, false)
    ensures forall root :: TreeOf(Array(others), valueNumbers, root) == TreeOf(Array(others), valueNumbers, false)
  {
    hide Same;
    var a, b := TreeOf(Array(items), valueNumbers, false), TreeOf(Array(others), valueNumbers, false);
    if a == b {
      forall i | 0 <= i < |items| ensures Same(items[i], others[i], valueNumbers, false) {
        assert a.items[i] == b.items[i];
      }
    }
  }

  lemma ObjectsAgree(v: Value, w: Value, valueNumbers: bool, root: bool)
    requires v.Object? && w.Object? && PlainKeys(v.members) && PlainKeys(w.members)
    requires DistinctKeys(v.members) && DistinctKeys(w.members)
    requires TreesDecide(v.members, w.members, valueNumbers, root)
    ensures TreeOf(v, valueNumbers, root) == TreeOf(w, valueNumbers, root) <==> Same(v, w, valueNumbers, root)
  {
    hide SortBy;
    SortedKeysAscend(v.members);
    SortedKeysAscend(w.members);
    if TreeOf(v, valueNumbers, root) == TreeOf(w, valueNumbers, root) {
      EqualTreesSame(v, w, valueNumbers, root);
    }
    if Same(v, w, valueNumbers, root) {
      SameEqualTrees(v, w, valueNumbers, root);
    }
  }

  lemma TreeKeys(v: Value, valueNumbers: bool, root: bool, i: nat)
    requires v.Object? && PlainKeys(v.members) && DistinctKeys(v.members) && i < |v.members|
    ensures var s, t := Sorted(v.members), TreeOf(v, valueNumbers, root);
            && |s| == |v.members| && t.JObj? && |t.members| == |s| && s[i] in v.members
            && t.members[i] == TreeMember(s[i], valueNumbers, root)
            && s[i].key == TextKey(Scalars(KeyChars(s[i].key)))
  {
    hide SortBy;
    SortedKeysAscend(v.members);
    assert Sorted(v.members)[i] in v.members;
  }

  lemma EqualTreesSame(v: Value, w: Value, valueNumbers: bool, root: bool)
    requires v.Object? && w.Object? && PlainKeys(v.members) && PlainKeys(w.members)
    requires DistinctKeys(v.members) && DistinctKeys(w.members)
    requires TreesDecide(v.members, w.members, valueNumbers, root)
    requires TreeOf(v, valueNumbers, root) == TreeOf(w, valueNumbers, root)
    ensures Same(v, w, valueNumbers, root)
  {
    hide TreeOf, TreeMember, Sorted, DistinctKeys;
    SortedKeysAscend(v.members);
    SortedKeysAscend(w.members);
    forall a | a in v.members
      ensures exists b | b in w.members :: SameMember(a, b, valueNumbers, root)
    {
      var b := TwinMember(v, w, a, valueNumbers, root);
      assert SameMember(a, b, valueNumbers, root);
    }
    forall b | b in w.members
      ensures exists a | a in v.members :: a.key == b.key
    {
      var a := TwinMember(w, v, b, valueNumbers, root);
    }
    assert KeysCovered(w.members, v.members);
  }

  /** The member at the same place of an equal structure. */
  lemma TwinMember(v: Value, w: Value, a: Member, valueNumbers: bool, root: bool) returns (b: Member)
    requires v.Object? && w.Object? && PlainKeys(v.members) && PlainKeys(w.members)
    requires DistinctKeys(v.members) && DistinctKeys(w.members) && a in v.members
    requires TreeOf(v, valueNumbers, root) == TreeOf(w, valueNumbers, root)
    ensures b in w.members && a.key == b.key
    ensures TreeMember(a, valueNumbers, root) == TreeMember(b, valueNumbers, root)
  {
    hide TreeOf, Sorted, DistinctKeys;
    SortedKeysAscend(v.members);
    var s, t := Sorted(v.members), Sorted(w.members);
    var p :| 0 <= p < |s| && s[p] == a;
    TreeKeys(v, valueNumbers, root, p);
    TreeSizes(v, w, valueNumbers, root);
    TreeKeys(w, valueNumbers, root, p);
    b := t[p];
  }

  lemma TreeSizes(v: Value, w: Value, valueNumbers: bool, root: bool)
    requires v.Object? && w.Object? && TreeOf(v, valueNumbers, root) == TreeOf(w, valueNumbers, root)
    ensures |v.members| == |w.members|
  {
    assert |TreeOf(v, valueNumbers, root).members| == |v.members|;
  }

  lemma SameKeysSorted(v: Value, w: Value, valueNumbers: bool, root: bool)
    requires v.Object? && w.Object? && PlainKeys(v.members) && PlainKeys(w.members)
    requires DistinctKeys(v.members) && DistinctKeys(w.members)
    requires KeysCovered(v.members, w.members) && KeysCovered(w.members, v.members)
    ensures Keys(Sorted(v.members)) == Keys(Sorted(w.members))
  {
    hide Sorted, DistinctKeys;
    SortedKeysAscend(v.members);
    SortedKeysAscend(w.members);
    var s, t := Sorted(v.members), Sorted(w.members);
    forall k ensures k in Keys(s) <==> k in Keys(t) {
      if k in Keys(s) { KeyTransfers(s, t, k); }
      if k in Keys(t) { KeyTransfers(t, s, k); }
    }
    AscendingUnique(Keys(s), Keys(t));
  }

  lemma KeyTransfers(s: seq<Member>, t: seq<Member>, k: string)
    requires KeysCovered(s, t) && k in Keys(s)
    ensures k in Keys(t)
  {
    var p :| 0 <= p < |s| && Keys(s)[p] == k;
    assert s[p] in s;
    var b :| b in t && b.key == s[p].key;
    var q :| 0 <= q < |t| && t[q] == b;
    assert Keys(t)[q] == k;
  }

  lemma MatchedKeys(members: seq<Member>, others: seq<Member>, valueNumbers: bool, root: bool)
    requires EachMatched(members, others, valueNumbers, root)
    ensures KeysCovered(members, others)
  {
    forall a | a in members ensures exists b | b in others :: b.key == a.key {
      var b :| b in others && SameMember(a, b, valueNumbers, root);
    }
  }

  lemma SameEqualTrees(v: Value, w: Value, valueNumbers: bool, root: bool)
    requires v.Object? && w.Object? && PlainKeys(v.members) && PlainKeys(w.members)
    requires DistinctKeys(v.members) && DistinctKeys(w.members)
    requires TreesDecide(v.members, w.members, valueNumbers, root)
    requires EachMatched(v.members, w.members, valueNumbers, root) && KeysCovered(w.members, v.members)
    ensures TreeOf(v, valueNumbers, root) == TreeOf(w, valueNumbers, root)
  {
    hide Sorted, DistinctKeys, TreeMember, TreeOf, TreesDecide, EachMatched, KeysCovered, PlainKeys;
    MatchedKeys(v.members, w.members, valueNumbers, root);
    SameKeysSorted(v, w, valueNumbers, root);
    var s, t := Sorted(v.members), Sorted(w.members);
    assert |Keys(s)| == |s| && |Keys(t)| == |t|;
    var x, y := TreeOf(v, valueNumbers, root), TreeOf(w, valueNumbers, root);
    TreeSize(v, valueNumbers, root);
    TreeSize(w, valueNumbers, root);
    forall p | 0 <= p < |s| ensures x.members[p] == y.members[p] {
      PlacesAgree(v, w, p, valueNumbers, root);
    }
  }

  lemma PlacesAgree(v: Value, w: Value, p: nat, valueNumbers: bool, root: bool)
    requires v.Object? && w.Object? && PlainKeys(v.members) && PlainKeys(w.members)
    requires DistinctKeys(v.members) && DistinctKeys(w.members)
    requires p < |v.members| && p < |w.members|
    requires Keys(Sorted(v.members)) == Keys(Sorted(w.members))
    requires TreesDecide(v.members, w.members, valueNumbers, root)
    requires EachMatched(v.members, w.members, valueNumbers, root)
    ensures TreeOf(v, valueNumbers, root).JObj? && TreeOf(w, valueNumbers, root).JObj?
    ensures |TreeOf(v, valueNumbers, root).members| == |v.members|
    ensures |TreeOf(w, valueNumbers, root).members| == |w.members|
    ensures TreeOf(v, valueNumbers, root).members[p] == TreeOf(w, valueNumbers, root).members[p]
  {
    hide Sorted, DistinctKeys, TreeMember, TreeOf, SameMember;
    TreeKeys(v, valueNumbers, root, p);
    TreeKeys(w, valueNumbers, root, p);
    var a, b := Sorted(v.members)[p], Sorted(w.members)[p];
    assert Keys(Sorted(v.members))[p] == KeyChars(a.key) && Keys(Sorted(w.members))[p] == KeyChars(b.key);
    assert exists c | c in w.members :: SameMember(a, c, valueNumbers, root);
    PairedMember(v, w, a, b, valueNumbers, root);
  }

  lemma TreeSize(v: Value, valueNumbers: bool, root: bool)
    requires v.Object?
    ensures |Sorted(v.members)| == |v.members|
    ensures TreeOf(v, valueNumbers, root).JObj? && |TreeOf(v, valueNumbers, root).members| == |v.members|
  {
  }

  lemma PairedMember(v: Value, w: Value, a: Member, b: Member, valueNumbers: bool, root: bool)
    requires v.Object? && w.Object? && PlainKeys(w.members) && DistinctKeys(w.members)
    requires a in v.members && b in w.members && a.key == b.key
    requires exists c | c in w.members :: SameMember(a, c, valueNumbers, root)
    ensures SameMember(a, b, valueNumbers, root)
  {
    hide Same;
    var c :| c in w.members && SameMember(a, c, valueNumbers, root);
    if c != b {
      SameKeySameMember(w.members, c, b);
      assert false;
    }
  }

  lemma {:induction false} TreeScans(v: Value, valueNumbers: bool, root: bool)
    requires PythonValue(v) && Encodable(v, valueNumbers, root)
    ensures NumbersScan(TreeOf(v, valueNumbers, root))
    decreases v
  {
    hide X.Scan, FloatText, EncodeNumber, SortBy, DistinctKeys;
    match v
    case Num(n) => AcceptedScans(n, valueNumbers);
    case Array(items) =>
      forall i | 0 <= i < |items| ensures NumbersScan(TreeOf(items[i], valueNumbers, false)) {
        TreeScans(items[i], valueNumbers, false);
      }
    case Object(members) =>
      SortedKeysAscend(members);
      TreeSize(v, valueNumbers, root);
      forall i | 0 <= i < |members|
        ensures NumbersScan(TreeOf(v, valueNumbers, root).members[i].value)
      {
        TreeKeys(v, valueNumbers, root, i);
        var m := Sorted(members)[i];
        assert m in members;
        TreeScans(m.value, ChildFlag(valueNumbers, root, KeyChars(m.key)), false);
      }
    case _ =>
  }

  lemma AcceptedRecord(v: Value)
    requires PythonValue(v) && CanonicalRecordJson(v).Ok?
    ensures Encodable(v, false, true)
    ensures var tree := TreeOf(v, false, true);
            CanonicalRecordJson(v).value == Print(tree) && NumbersScan(tree) && ReadText(Print(tree)) == Some(tree)
  {
    hide TreeOf, Encode, Encodable, Print, ReadText;
    EncodeAccepts(v, false, true);
    EncodeIsPrint(v, false, true);
    TreeScans(v, false, true);
    PrintThenRead(TreeOf(v, false, true));
  }

  /**
   Determinism and injectivity: two accepted records get the same text exactly when they are the same
   record, so insertion order never shows and no two different records collide.
   */
  lemma EncodingDistinguishes(v: Value, w: Value)
    requires PythonValue(v) && PythonValue(w)
    ensures CanonicalRecordJson(v).Ok? && CanonicalRecordJson(w).Ok? ==>
              (CanonicalRecordJson(v) == CanonicalRecordJson(w) <==> Same(v, w, false, true))
  {
    hide TreeOf, Encode, Encodable, Print, ReadText, Same, PythonValue;
    if CanonicalRecordJson(v).Ok? && CanonicalRecordJson(w).Ok? {
      AcceptedRecord(v);
      AcceptedRecord(w);
      TreeDecides(v, w, false, true);
    }
  }

  // ----- encoding an emitted text again

  predicate IntegerLiteral(text: string) {
    var t := X.Scan(text);
    t.Some? && t.value.fraction == "" && t.value.exponent.NoExponent?
  }

  /** Number texts that survive being parsed and encoded again. */
  predicate SettledText(text: string, valueNumbers: bool) {
    Normalized(text) == Ok(text) || (!valueNumbers && IntegerLiteral(text) && text != "-0")
  }

  lemma IntegerLiteralText(text: string)
    requires IntegerLiteral(text)
    ensures ParseNumber(text).Int?
    ensures D.IntText(ParseNumber(text).i) == if text == "-0" then "0" else text
    ensures text == "-0" ==> Normalized(text) == Ok("0")
  {
    X.ScanSound(text);
    var t := X.Scan(text).value;
    D.CanonicalIsText(t.integer);
    AppendNothing(t.integer);
    assert text == X.SignText(t.negative) + t.integer;
    if D.Val(t.integer) == 0 {
      D.CanonicalBounds(t.integer);
      NegativeZero(text, t);
    }
  }

  lemma NegativeZero(text: string, t: X.Token)
    requires X.Scan(text) == Some(t) && X.ValidToken(t)
    requires t.integer == "0" && t.fraction == "" && t.exponent.NoExponent?
    ensures text == "-0" ==> Normalized(text) == Ok("0")
  {
    if text == "-0" {
      ZeroToken();
      assert IsAscii(text);
      AsciiLength(text);
      assert X.TokenValue(t).mantissa == 0 by { AppendNothing("0"); D.ValSingle('0'); }
      ZeroSpelling(X.TokenValue(t));
    }
  }

  lemma LeafSettles(text: string, valueNumbers: bool)
    requires X.Scan(text).Some?
    ensures EncodeNumber(ParseNumber(text), valueNumbers) == Ok(text) <==> SettledText(text, valueNumbers)
  {
    hide X.Scan, Normalized, D.IntText;
    if IntegerLiteral(text) {
      IntegerLiteralText(text);
      NormalizedTwice(text);
      assert |"0"| != |"-0"|;
    } else {
      assert ParseNumber(text) == Dec(true, text);
    }
  }

  /**
   Numbers of a record that survive being encoded, parsed and encoded again. Outside the value roots these are
   the integers and what is already spelled canonically; a canonical spelling has to be within the size bound,
   or to be that of an integer where integers are left alone.
   */
  predicate SettledNumber(n: Number, valueNumbers: bool) {
    (n.Int? && !valueNumbers) ||
    (&& X.Scan(NativeText(n)).Some?
     && (valueNumbers || CanonicallySpelled(n))
     && var spelling := Spelling(Denoted(n));
        |spelling| <= MAX_CANONICAL_VALUE_BYTES || (!valueNumbers && IntegerLiteral(spelling)))
  }

  /** The condition on a number of the record is the one on the text that is emitted for it. */
  lemma SettledNumberText(n: Number, valueNumbers: bool)
    requires PythonNumber(n) && EncodeNumber(n, valueNumbers).Ok?
    ensures SettledText(NumberText(n, valueNumbers), valueNumbers) <==> SettledNumber(n, valueNumbers)
  {
    hide Spelling, X.Scan, X.TokenText, Normalized, Denoted, D.IntText;
    AcceptedScans(n, valueNumbers);
    if n.Int? && !valueNumbers {
      IntScans(n.i);
      IntTextNonzero(n.i);
    } else if valueNumbers || n.Dec? {
      RespelledSettles(n, valueNumbers);
    } else {
      FloatSettles(n);
    }
  }

  lemma RespelledSettles(n: Number, valueNumbers: bool)
    requires EncodeNumber(n, valueNumbers).Ok? && (valueNumbers || n.Dec?) && X.Scan(NativeText(n)).Some?
    requires EncodeNumber(n, valueNumbers).value == Spelling(Denoted(n))
    ensures SettledText(Spelling(Denoted(n)), valueNumbers) <==> SettledNumber(n, valueNumbers)
  {
    hide Spelling, X.Scan, X.TokenText, Normalized, Denoted, D.IntText;
    var spelling := Spelling(Denoted(n));
    NormalizedTwice(NativeText(n));
    if spelling == "-0" && IntegerLiteral(spelling) {
      IntegerLiteralText(spelling);
    }
  }

  lemma FloatSettles(n: Number)
    requires n.Float? && FloatText(n.text)
    ensures SettledText(n.text, false) <==> SettledNumber(n, false)
  {
    hide Spelling, X.TokenText, X.Scan;
    AcceptsExactly(n.text);
    X.ScanDecides(n.text);
  }

  /** Every number below is settled. */
  predicate Settled(v: Value, valueNumbers: bool, root: bool) {
    match v
    case Num(n) => SettledNumber(n, valueNumbers)
    case Object(members) =>
      forall i | 0 <= i < |members| ::
        Settled(members[i].value, ChildFlag(valueNumbers, root, KeyChars(members[i].key)), false)
    case Array(items) => forall i | 0 <= i < |items| :: Settled(items[i], valueNumbers, false)
    case _ => true
  }

  predicate SettledJson(j: Json, valueNumbers: bool, root: bool) {
    match j
    case JNum(text) => SettledText(text, valueNumbers)
    case JObj(members) =>
      forall i | 0 <= i < |members| :: SettledJson(members[i].value, ChildFlag(valueNumbers, root, members[i].key),
          false)
    case JArr(items) => forall i | 0 <= i < |items| :: SettledJson(items[i], valueNumbers, false)
    case _ => true
  }

  function JKeys(members: seq<JMember>): seq<string> {
    seq(|members|, i requires 0 <= i < |members| => members[i].key)
  }

  /** Objects carry strictly ascending keys, at every depth. */
  predicate KeysAscend(j: Json) {
    match j
    case JObj(members) => Ascending(JKeys(members)) && forall i | 0 <= i < |members| :: KeysAscend(members[i].value)
    case JArr(items) => forall i | 0 <= i < |items| :: KeysAscend(items[i])
    case _ => true
  }

  lemma {:induction false} TreeSettled(v: Value, valueNumbers: bool, root: bool)
    requires PythonValue(v) && Encodable(v, valueNumbers, root)
    ensures KeysAscend(TreeOf(v, valueNumbers, root))
    ensures SettledJson(TreeOf(v, valueNumbers, root), valueNumbers, root) <==> Settled(v, valueNumbers, root)
    decreases v
  {
    hide EncodeNumber, SettledText, SettledNumber, SortBy, DistinctKeys, TextLeq;
    match v
    case Num(n) => SettledNumberText(n, valueNumbers);
    case Array(items) =>
      forall i | 0 <= i < |items|
        ensures KeysAscend(TreeOf(items[i], valueNumbers, false))
        ensures SettledJson(TreeOf(items[i], valueNumbers, false), valueNumbers, false) <==>
                Settled(items[i], valueNumbers, false)
      {
        TreeSettled(items[i], valueNumbers, false);
      }
      assert TreeOf(v, valueNumbers, root).items == TreeItems(items, valueNumbers);
      assert forall i | 0 <= i < |items| :: TreeItems(items, valueNumbers)[i] == TreeOf(items[i], valueNumbers, false);
    case Object(members) =>
      forall m | m in members
        ensures KeysAscend(TreeMember(m, valueNumbers, root).value)
        ensures SettledMember(m, valueNumbers, root) <==>
                SettledJson(TreeMember(m, valueNumbers, root).value, ChildFlag(valueNumbers, root, KeyChars(m.key)),
                    false)
      {
        TreeSettled(m.value, ChildFlag(valueNumbers, root, KeyChars(m.key)), false);
      }
      ObjectSettled(v, valueNumbers, root);
    case _ =>
  }

  predicate SettledMember(m: Member, valueNumbers: bool, root: bool) {
    Settled(m.value, ChildFlag(valueNumbers, root, KeyChars(m.key)), false)
  }

  lemma ObjectSettled(v: Value, valueNumbers: bool, root: bool)
    requires v.Object? && PlainKeys(v.members) && DistinctKeys(v.members)
    requires forall m | m in v.members ::
               && KeysAscend(TreeMember(m, valueNumbers, root).value)
               && (SettledMember(m, valueNumbers, root) <==>
                   SettledJson(TreeMember(m, valueNumbers, root).value, ChildFlag(valueNumbers, root, KeyChars(m.key)),
                       false))
    ensures KeysAscend(TreeOf(v, valueNumbers, root))
    ensures SettledJson(TreeOf(v, valueNumbers, root), valueNumbers, root) <==> Settled(v, valueNumbers, root)
  {
    hide Settled, SettledText, SettledNumber, SortBy, TextLeq, DistinctKeys;
    SortedKeysAscend(v.members);
    TreeSize(v, valueNumbers, root);
    var s, t := Sorted(v.members), TreeOf(v, valueNumbers, root).members;
    forall i | 0 <= i < |s| ensures t[i] == TreeMember(s[i], valueNumbers, root) && s[i] in v.members {
      TreeKeys(v, valueNumbers, root, i);
    }
    assert JKeys(t) == Keys(s);
    SettledByMember(v, valueNumbers, root);
    assert SettledJson(TreeOf(v, valueNumbers, root), valueNumbers, root) <==>
           forall i | 0 <= i < |s| :: SettledMember(s[i], valueNumbers, root);
    if forall i | 0 <= i < |s| :: SettledMember(s[i], valueNumbers, root) {
      forall m | m in v.members ensures SettledMember(m, valueNumbers, root) {
        assert m in s;
      }
    }
  }

  lemma SettledByMember(v: Value, valueNumbers: bool, root: bool)
    requires v.Object?
    ensures Settled(v, valueNumbers, root) <==> forall m | m in v.members :: SettledMember(m, valueNumbers, root)
  {
    if Settled(v, valueNumbers, root) {
      forall m | m in v.members ensures SettledMember(m, valueNumbers, root) {
        var i :| 0 <= i < |v.members| && v.members[i] == m;
        assert Settled(v.members[i].value, ChildFlag(valueNumbers, root, KeyChars(v.members[i].key)), false);
      }
    } else {
      var i :| 0 <= i < |v.members| &&
        !Settled(v.members[i].value, ChildFlag(valueNumbers, root, KeyChars(v.members[i].key)), false);
      assert !SettledMember(v.members[i], valueNumbers, root);
    }
  }

  function FromMembers(members: seq<JMember>): seq<Member> {
    seq(|members|, i requires 0 <= i < |members| =>
      Member(TextKey(Scalars(members[i].key)), FromJson(members[i].value)))
  }

  /** Members already in order stay where they are. */
  lemma AscendingStays(members: seq<JMember>)
    requires Ascending(JKeys(members))
    ensures Sorted(FromMembers(members)) == FromMembers(members)
  {
    hide Utf8, BytesLeq, TextLeq, SortBy, FromJson;
    var ms := FromMembers(members);
    var keys := JKeys(members);
    MemberOrder();
    SortBySorted(ms, MemberLeq);
    forall i, j | 0 <= i < j < |ms| ensures MemberLeq(ms[i], ms[j]) {
      assert TextLeq(keys[i], keys[j]);
      Utf8KeepsOrder(keys[i], keys[j]);
    }
    SameElements(Sorted(ms), ms);
    forall a, b | a in Sorted(ms) && b in Sorted(ms) && MemberLeq(a, b) && MemberLeq(b, a) ensures a == b {
      assert a in ms && b in ms;
      var i :| 0 <= i < |ms| && ms[i] == a;
      var j :| 0 <= j < |ms| && ms[j] == b;
      Utf8KeepsOrder(keys[i], keys[j]);
      Utf8KeepsOrder(keys[j], keys[i]);
      TextLeqTotal(keys[i], keys[j]);
      assert keys[i] == keys[j];
    }
    SortedUnique(Sorted(ms), ms, MemberLeq);
  }

  /** Encoding what was read gives back the structure exactly when its numbers are settled. */
  lemma {:induction false} Refix(j: Json, valueNumbers: bool, root: bool)
    requires NumbersScan(j) && KeysAscend(j)
    ensures TreeOf(FromJson(j), valueNumbers, root) == j <==> SettledJson(j, valueNumbers, root)
    ensures SettledJson(j, valueNumbers, root) ==> Encodable(FromJson(j), valueNumbers, root)
    ensures PythonValue(FromJson(j))
    decreases j
  {
    hide EncodeNumber, SettledText, ParseNumber, SortBy, X.Scan, TextLeq;
    match j
    case JNum(text) =>
      LeafSettles(text, valueNumbers);
      ParsedIsPython(text);
      assert text != "" by { NumberChars(text); }
    case JArr(items) =>
      forall i | 0 <= i < |items|
        ensures TreeOf(FromJson(items[i]), valueNumbers, false) == items[i] <==>
                  SettledJson(items[i], valueNumbers, false)
        ensures SettledJson(items[i], valueNumbers, false) ==> Encodable(FromJson(items[i]), valueNumbers, false)
        ensures PythonValue(FromJson(items[i]))
      {
        Refix(items[i], valueNumbers, false);
      }
      RefixItems(items, valueNumbers, root);
    case JObj(members) =>
      forall i | 0 <= i < |members|
        ensures RefixMember(members[i], valueNumbers, root)
      {
        Refix(members[i].value, ChildFlag(valueNumbers, root, members[i].key), false);
      }
      RefixMembers(members, valueNumbers, root);
    case _ =>
  }

  lemma ParsedIsPython(text: string)
    requires X.Scan(text).Some?
    ensures PythonValue(Num(ParseNumber(text)))
  {
  }

  lemma RefixItems(items: seq<Json>, valueNumbers: bool, root: bool)
    requires forall i | 0 <= i < |items| ::
               && (TreeOf(FromJson(items[i]), valueNumbers, false) == items[i] <==>
                 SettledJson(items[i], valueNumbers, false))
               && (SettledJson(items[i], valueNumbers, false) ==> Encodable(FromJson(items[i]), valueNumbers, false))
               && PythonValue(FromJson(items[i]))
    ensures TreeOf(FromJson(JArr(items)), valueNumbers, root) == JArr(items) <==>
              SettledJson(JArr(items), valueNumbers, root)
    ensures SettledJson(JArr(items), valueNumbers, root) ==> Encodable(FromJson(JArr(items)), valueNumbers, root)
    ensures PythonValue(FromJson(JArr(items)))
  {
    hide SettledText, EncodeNumber;
    var tree := TreeOf(FromJson(JArr(items)), valueNumbers, root);
    assert tree.JArr? && |tree.items| == |items|;
    assert forall i | 0 <= i < |items| :: tree.items[i] == TreeOf(FromJson(items[i]), valueNumbers, false);
    if SettledJson(JArr(items), valueNumbers, root) {
      assert tree.items == items;
    }
  }

  ghost predicate RefixMember(m: JMember, valueNumbers: bool, root: bool) {
    var flag := ChildFlag(valueNumbers, root, m.key);
    && (TreeOf(FromJson(m.value), flag, false) == m.value <==> SettledJson(m.value, flag, false))
    && (SettledJson(m.value, flag, false) ==> Encodable(FromJson(m.value), flag, false))
    && PythonValue(FromJson(m.value))
  }

  lemma RefixMembers(members: seq<JMember>, valueNumbers: bool, root: bool)
    requires Ascending(JKeys(members))
    requires forall i | 0 <= i < |members| :: RefixMember(members[i], valueNumbers, root)
    ensures TreeOf(FromJson(JObj(members)), valueNumbers, root) == JObj(members) <==>
            SettledJson(JObj(members), valueNumbers, root)
    ensures SettledJson(JObj(members), valueNumbers, root) ==> Encodable(FromJson(JObj(members)), valueNumbers, root)
    ensures PythonValue(FromJson(JObj(members)))
  {
    hide SettledText, EncodeNumber, SortBy, TextLeq;
    var ms := FromMembers(members);
    var v := FromJson(JObj(members));
    assert v == Object(ms);
    AscendingStays(members);
    DistinctFromMembers(members);
    TreeSize(v, valueNumbers, root);
    var tree := TreeOf(v, valueNumbers, root);
    forall i | 0 <= i < |members|
      ensures tree.members[i] == JMember(members[i].key,
                TreeOf(FromJson(members[i].value), ChildFlag(valueNumbers, root, members[i].key), false))
    {
      TreeKeys(v, valueNumbers, root, i);
      assert tree.members[i] == TreeMember(ms[i], valueNumbers, root);
    }
    if SettledJson(JObj(members), valueNumbers, root) {
      forall i | 0 <= i < |members| ensures tree.members[i] == members[i] {
        assert RefixMember(members[i], valueNumbers, root);
      }
      assert tree.members == members;
    }
    if tree == JObj(members) {
      forall i | 0 <= i < |members|
        ensures SettledJson(members[i].value, ChildFlag(valueNumbers, root, members[i].key), false)
      {
        assert RefixMember(members[i], valueNumbers, root);
        assert tree.members[i] == members[i];
      }
    }
    forall i | 0 <= i < |members| ensures PythonValue(ms[i].value) {
      assert RefixMember(members[i], valueNumbers, root);
    }
  }

  lemma DistinctFromMembers(members: seq<JMember>)
    requires Ascending(JKeys(members))
    ensures DistinctKeys(FromMembers(members)) && PlainKeys(FromMembers(members))
  {
    var ms, keys := FromMembers(members), JKeys(members);
    forall i, j | 0 <= i < j < |ms| ensures ms[i].key != ms[j].key {
      assert keys[i] != keys[j];
    }
  }

  /**
   Parse then print: encoding an emitted text again gives the same text exactly when every number of the
   record is settled.
   */
  lemma ReencodingSettles(v: Value)
    requires PythonValue(v)
    ensures CanonicalRecordJson(v).Ok? ==>
              (CanonicalizeRecordJsonText(CanonicalRecordJson(v).value) == CanonicalRecordJson(v) <==>
                  Settled(v, false, true))
  {
    hide TreeOf, Encode, Encodable, Print, ReadText, PythonValue, SettledJson, Settled, KeysAscend, NumbersScan,
        FromJson;
    if CanonicalRecordJson(v).Ok? {
      AcceptedRecord(v);
      TreeSettled(v, false, true);
      var j := TreeOf(v, false, true);
      Refix(j, false, true);
      var again := FromJson(j);
      assert again.Object? by { ObjectTree(v); }
      EncodeAccepts(again, false, true);
      if CanonicalRecordJson(again).Ok? {
        AcceptedRecord(again);
      }
    }
  }

  /** `{"x": 1.0}`, with a float outside the value roots. */
  function FloatRecord(): Value {
    Object([Member(TextKey(Scalars("x")), Num(Float(true, "1.0")))])
  }

  /** A float is emitted as Python spells it, but read again as a decimal and then respelled. */
  lemma FloatDoesNotSettle()
    ensures PythonValue(FloatRecord()) && CanonicalRecordJson(FloatRecord()) == Ok("{\"x\":1.0}")
    ensures CanonicalizeRecordJsonText("{\"x\":1.0}") == Ok("{\"x\":1}")
  {
    OneScans();
    FloatRecordTree();
    assert EncodeNumber(Float(true, "1.0"), false) == Ok("1.0") && EncodeNumber(Dec(true, "1.0"), false) == Ok("1");
    assert !ChildFlag(false, true, "x");
    assert PythonValue(FloatRecord());
    hide EncodeNumber, FloatText, X.Scan, Normalized, Quoted, ChildFlag, Encode, TreeOf, Print, ReadText, FromJson,
        PythonValue;
    SingleMember("x", Float(true, "1.0"), "1.0");
    SingleMember("x", Dec(true, "1.0"), "1");
    AcceptedRecord(FloatRecord());
    OneMemberText();
  }

  lemma FloatRecordTree()
    ensures FromJson(TreeOf(FloatRecord(), false, true)) ==
              Object([Member(TextKey(Scalars("x")), Num(Dec(true, "1.0")))])
  {
    hide TreeOf, X.Scan, EncodeNumber, FloatText, Normalized, FromJson;
    FloatLeaf();
    SingleTree("x", Float(true, "1.0"));
    SingleFromJson("x", "1.0");
  }

  lemma FloatLeaf()
    ensures NumberText(Float(true, "1.0"), ChildFlag(false, true, "x")) == "1.0" &&
              ParseNumber("1.0") == Dec(true, "1.0")
  {
    OneScans();
    hide X.Scan, Normalized, FloatText;
  }

  lemma SingleSorted(m: Member)
    ensures Sorted([m]) == [m]
  {
    assert [m][..0] == [];
  }

  lemma SingleTree(key: string, n: Number)
    ensures TreeOf(Object([Member(TextKey(Scalars(key)), Num(n))]), false, true) ==
            JObj([JMember(key, JNum(NumberText(n, ChildFlag(false, true, key))))])
  {
    hide NumberText, SortBy;
    var m := Member(TextKey(Scalars(key)), Num(n));
    SingleSorted(m);
    var leaf := JNum(NumberText(n, ChildFlag(false, true, key)));
    assert TreeOf(m.value, ChildFlag(false, true, key), false) == leaf;
    assert TreeMember(m, false, true) == JMember(key, leaf);
    assert TreeOf(Object([m]), false, true).members == [JMember(key, leaf)];
  }

  lemma SingleFromJson(key: string, text: string)
    ensures FromJson(JObj([JMember(key, JNum(text))])) ==
              Object([Member(TextKey(Scalars(key)), Num(ParseNumber(text)))])
  {
    hide ParseNumber;
  }

  lemma OneMemberText()
    ensures "{" + Quoted("x") + ":" + "1.0" + "}" == "{\"x\":1.0}"
    ensures "{" + Quoted("x") + ":" + "1" + "}" == "{\"x\":1}"
  {
    PlainQuoted();
    hide Quoted;
  }

  lemma OneScans()
    ensures FloatText("1.0") && X.Scan("1.0") == Some(X.Token(false, "1", "0", X.NoExponent))
    ensures Normalized("1.0") == Ok("1")
  {
    var t, one := X.Token(false, "1", "0", X.NoExponent), X.Token(false, "1", "", X.NoExponent);
    X.ScanComplete(t);
    assert X.TokenText(t) == "1.0" && X.TokenText(one) == "1";
    AcceptsExactly("1.0");
    OneIsShort(X.TokenValue(t));
  }

  lemma OneIsShort(d: X.Decimal)
    requires d == X.TokenValue(X.Token(false, "1", "0", X.NoExponent))
    ensures Spelling(d) == "1"
  {
    assert "10"[..1] == "1" && "1"[..0] == "";
    assert D.Val("1") == 1 && D.Val("10") == 10;
    D.CanonicalIsText("1");
    var one := X.Decimal(false, 1, 0);
    assert X.Reduced(d) == one;
    assert "1" + D.Zeros(0) == "1";
    assert PlainToken(false, "1", 1) == Some(X.Token(false, "1", "", X.NoExponent));
  }

  lemma SingleMember(key: string, n: Number, text: string)
    requires EncodeNumber(n, ChildFlag(false, true, key)) == Ok(text)
    ensures CanonicalRecordJson(Object([Member(TextKey(Scalars(key)), Num(n))])) ==
              Ok("{" + Quoted(key) + ":" + text + "}")
  {
    hide EncodeNumber, Quoted, SortBy;
    var m := Member(TextKey(Scalars(key)), Num(n));
    var v := Object([m]);
    SingleSorted(m);
    assert Encode(m.value, ChildFlag(false, true, key), false) == Ok(text);
    assert EncodeMembers(v, [m], false, true) == Ok(Quoted(key) + ":" + text);
    assert "{" + (Quoted(key) + ":" + text) + "}" == "{" + Quoted(key) + ":" + text + "}";
  }

  lemma PlainQuoted()
    ensures Quoted("x") == "\"x\""
  {
    assert "x"[1..] == "";
  }

  lemma ObjectTree(v: Value)
    requires v.Object?
    ensures FromJson(TreeOf(v, false, true)).Object?
  {
  }

  /** Integers everywhere, floats only as payload numbers, with a `repr` well below the size bound. */
  predicate NativeRecord(v: Value, valueNumbers: bool, root: bool) {
    match v
    case Num(n) => n.Int? || (valueNumbers && n.Float? && 2 * |n.text| + 6 <= MAX_CANONICAL_VALUE_BYTES)
    case Object(members) =>
      forall i | 0 <= i < |members| ::
        NativeRecord(members[i].value, ChildFlag(valueNumbers, root, KeyChars(members[i].key)), false)
    case Array(items) => forall i | 0 <= i < |items| :: NativeRecord(items[i], valueNumbers, false)
    case _ => true
  }

  lemma NativeNumberSettles(n: Number, valueNumbers: bool)
    requires PythonNumber(n) && EncodeNumber(n, valueNumbers).Ok?
    requires NativeRecord(Num(n), valueNumbers, false)
    ensures SettledNumber(n, valueNumbers)
  {
    hide X.Scan, Normalized, FloatText, Spelling, X.TokenText;
    if !n.Int? || valueNumbers {
      AcceptedScans(n, valueNumbers);
      AcceptsExactly(NativeText(n));
      ShortStaysShort(NativeText(n));
      if n.Int? {
        IntStaysShort(n.i);
      }
    }
  }

  lemma IntTextNonzero(i: int)
    ensures D.IntText(i) != "-0"
  {
    if i < 0 {
      D.TextCanonical(-i);
      D.ValSingle('0');
      assert D.IntText(i)[1..] == D.Text(-i) && "-0"[1..] == "0";
    } else {
      D.TextCanonical(i);
      assert D.IsDigit(D.IntText(i)[0]);
    }
  }

  lemma IntStaysShort(i: int)
    requires Normalized(D.IntText(i)).Ok?
    ensures |Normalized(D.IntText(i)).value| <= |D.IntText(i)|
  {
    hide Spelling, X.TokenText, X.Scan;
    var text := D.IntText(i);
    IntScans(i);
    X.ScanSound(text);
    AcceptsExactly(text);
    var t := X.Scan(text).value;
    X.SameValueIffReduced(X.TokenValue(t), X.TokenValue(t));
    ShortestSpelling(X.TokenValue(t), t);
  }

  lemma {:induction false} NativeSettles(v: Value, valueNumbers: bool, root: bool)
    requires PythonValue(v) && Encodable(v, valueNumbers, root) && NativeRecord(v, valueNumbers, root)
    ensures Settled(v, valueNumbers, root)
    decreases v
  {
    hide SettledNumber, EncodeNumber, FloatText;
    match v
    case Num(n) => NativeNumberSettles(n, valueNumbers);
    case Array(items) =>
      forall i | 0 <= i < |items| ensures Settled(items[i], valueNumbers, false) {
        NativeSettles(items[i], valueNumbers, false);
      }
    case Object(members) =>
      forall i | 0 <= i < |members|
        ensures Settled(members[i].value, ChildFlag(valueNumbers, root, KeyChars(members[i].key)), false)
      {
        NativeSettles(members[i].value, ChildFlag(valueNumbers, root, KeyChars(members[i].key)), false);
      }
    case _ =>
  }

  /** A record of native numbers with integers outside the value roots is a fixed point of parse then print. */
  lemma NativeFixedPoint(v: Value)
    requires PythonValue(v) && NativeRecord(v, false, true)
    ensures CanonicalRecordJson(v).Ok? ==>
              CanonicalizeRecordJsonText(CanonicalRecordJson(v).value) == CanonicalRecordJson(v)
  {
    hide Encode, Encodable, PythonValue, Settled, NativeRecord, ReadText, FromJson;
    if CanonicalRecordJson(v).Ok? {
      EncodeAccepts(v, false, true);
      NativeSettles(v, false, true);
      ReencodingSettles(v);
    }
  }
}
