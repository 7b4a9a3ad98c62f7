/**
 scripts/telemetry_canonical_record.py `_encode` and `canonical_record_json`: the deterministic
 encoder of telemetry records, with the JSON texts it emits read back.
 */
module CanonicalRecord {
  import opened Outcomes
  import opened Sorting
  import D = Digits
  import X = ExactDecimal
  import opened JsonText
  import opened CanonicalNumber

  // ----- Python values

  /** A Python string: a sequence of Unicode scalar values, or one with a surrogate in it. */
  datatype PyText = Scalars(chars: string) | HasSurrogate

  /** A number leaf; floats and decimals carry Python's `repr` and `str` of them. */
  datatype Number = Int(i: int) | Float(finite: bool, text: string) | Dec(finite: bool, text: string)

  datatype Key = TextKey(text: PyText) | OtherKey

  datatype Member = Member(key: Key, value: Value)

  /** Members are in insertion order. */
  datatype Value =
    | Null | Bool(b: bool) | Str(text: PyText) | Num(number: Number)
    | Object(members: seq<Member>) | Array(items: seq<Value>) | Unsupported

  datatype EncodeError =
    | LoneSurrogate | NotFinite | BadNumber(error: NumberError) | NonStringKey | UnsupportedValue
    | NotAnObject | InvalidText

  // ----- UTF-8 and the order of keys

  /** The UTF-8 bytes of a scalar value. */
  function Utf8Char(c: char): (bytes: seq<int>)
    ensures 1 <= |bytes| <= 4
  {
    Utf8Bytes(c as int)
  }

  function Utf8Bytes(n: nat): (bytes: seq<int>)
    ensures 1 <= |bytes| <= 4
  {
    if n < 0x80 then [n]
    else if n < 0x800 then [0xC0 + n / 64, 0x80 + n % 64]
    else if n < 0x10000 then [0xE0 + n / 64 / 64, 0x80 + n / 64 % 64, 0x80 + n % 64]
    else [0xF0 + n / 64 / 64 / 64, 0x80 + n / 64 / 64 % 64, 0x80 + n / 64 % 64, 0x80 + n % 64]
  }

  function Utf8(s: string): seq<int> {
    if s == "" then [] else Utf8Char(s[0]) + Utf8(s[1..])
  }

  /** Python's order of byte strings. */
  predicate BytesLeq(a: seq<int>, b: seq<int>) {
    a == [] || (b != [] && (a[0] < b[0] || (a[0] == b[0] && BytesLeq(a[1..], b[1..]))))
  }

  lemma {:induction false} BytesSamePrefix(p: seq<int>, a: seq<int>, b: seq<int>)
    ensures BytesLeq(p + a, p + b) <==> BytesLeq(a, b)
  {
    if p == [] {
      assert p + a == a && p + b == b;
    } else {
      assert (p + a)[1..] == p[1..] + a && (p + b)[1..] == p[1..] + b;
      BytesSamePrefix(p[1..], a, b);
    }
  }

  ghost predicate DifferAt(a: seq<int>, b: seq<int>, k: nat) {
    k < |a| && k < |b| && a[..k] == b[..k] && a[k] < b[k]
  }

  lemma Split64(m: nat, n: nat)
    requires m < n
    ensures m / 64 < n / 64 || (m / 64 == n / 64 && m % 64 < n % 64)
  {
  }

  lemma LongOrder(m: nat, n: nat) returns (k: nat)
    requires 0x10000 <= m < n < 0x110000
    ensures DifferAt(Utf8Bytes(m), Utf8Bytes(n), k)
  {
    var p, q := m / 64, n / 64;
    Split64(m, n);
    k := 3;
    if p < q {
      Split64(p, q);
      k := 2;
      if p / 64 < q / 64 {
        Split64(p / 64, q / 64);
        k := if p / 64 / 64 < q / 64 / 64 then 0 else 1;
      }
    }
  }

  lemma ThreeByteOrder(m: nat, n: nat) returns (k: nat)
    requires 0x800 <= m < n < 0x10000
    ensures DifferAt(Utf8Bytes(m), Utf8Bytes(n), k)
  {
    var p, q := m / 64, n / 64;
    Split64(m, n);
    k := 2;
    if p < q {
      Split64(p, q);
      k := if p / 64 < q / 64 then 0 else 1;
    }
  }

  /** Where two encodings first differ, the smaller character has the smaller byte. */
  lemma Utf8CharOrder(c: char, d: char) returns (k: nat)
    requires c < d
    ensures DifferAt(Utf8Char(c), Utf8Char(d), k)
  {
    var m, n := c as int, d as int;
    if m >= 0x10000 {
      k := LongOrder(m, n);
    } else if 0x800 <= m && n < 0x10000 {
      k := ThreeByteOrder(m, n);
    } else {
      Split64(m, n);
      k := if 0x80 <= m && n < 0x800 && m / 64 == n / 64 then 1 else 0;
    }
  }

  lemma {:induction false} BytesDiffer(a: seq<int>, b: seq<int>, k: nat)
    requires DifferAt(a, b, k)
    ensures BytesLeq(a, b) && !BytesLeq(b, a)
  {
    if k > 0 {
      assert a[0] == a[..k][0] && b[0] == b[..k][0];
      assert a[1..][..k - 1] == a[..k][1..] && b[1..][..k - 1] == b[..k][1..];
      BytesDiffer(a[1..], b[1..], k - 1);
    }
  }

  /** Sorting keys by their UTF-8 bytes sorts them by code points. */
  lemma {:induction false} Utf8KeepsOrder(a: string, b: string)
    ensures BytesLeq(Utf8(a), Utf8(b)) <==> TextLeq(a, b)
  {
    if a != "" && b != "" {
      var x, y := Utf8(a), Utf8(b);
      if a[0] == b[0] {
        BytesSamePrefix(Utf8Char(a[0]), Utf8(a[1..]), Utf8(b[1..]));
        Utf8KeepsOrder(a[1..], b[1..]);
      } else if a[0] < b[0] {
        var k := Utf8CharOrder(a[0], b[0]);
        assert x[..k] == Utf8Char(a[0])[..k] && y[..k] == Utf8Char(b[0])[..k];
        BytesDiffer(x, y, k);
      } else {
        var k := Utf8CharOrder(b[0], a[0]);
        assert x[..k] == Utf8Char(a[0])[..k] && y[..k] == Utf8Char(b[0])[..k];
        BytesDiffer(y, x, k);
      }
    }
  }

  // ----- the encoder

  function KeyChars(k: Key): string {
    if k.TextKey? && k.text.Scalars? then k.text.chars else ""
  }

  /** `sorted(keys, key=lambda item: item.encode("utf-8"))`, with the values carried along. */
  predicate MemberLeq(a: Member, b: Member) {
    BytesLeq(Utf8(KeyChars(a.key)), Utf8(KeyChars(b.key)))
  }

  function Sorted(members: seq<Member>): seq<Member> {
    SortBy(members, MemberLeq)
  }

  predicate IsValueRoot(key: string) {
    key == "body" || key == "instrument_data"
  }

  /** Whether numbers below this key are payload numbers. */
  function ChildFlag(valueNumbers: bool, root: bool, key: string): bool {
    valueNumbers || (root && IsValueRoot(key))
  }

  function NativeText(n: Number): string {
    match n
    case Int(i) => D.IntText(i)
    case Float(_, text) => text
    case Dec(_, text) => text
  }

  predicate IsFinite(n: Number) {
    n.Int? || n.finite
  }

  function EncodeNumber(n: Number, valueNumbers: bool): Result<string, EncodeError> {
    if !IsFinite(n) then Err(NotFinite)
    else if valueNumbers || n.Dec? then
      match Normalized(NativeText(n))
      case Ok(text) => Ok(text)
      case Err(e) => Err(BadNumber(e))
    else Ok(NativeText(n))
  }

  predicate PlainKeys(members: seq<Member>) {
    forall m | m in members :: m.key.TextKey? && m.key.text.Scalars?
  }

  function Encode(v: Value, valueNumbers: bool, root: bool): Result<string, EncodeError>
    decreases v, 1, 0
  {
    match v
    case Null => Ok("null")
    case Bool(b) => Ok(if b then "true" else "false")
    case Str(text) => if text.HasSurrogate? then Err(LoneSurrogate) else Ok(Quoted(text.chars))
    case Num(n) => EncodeNumber(n, valueNumbers)
    case Object(members) =>
      if exists m :: m in members && m.key.OtherKey? then Err(NonStringKey)
      else if !PlainKeys(members) then Err(LoneSurrogate)
      else
        SameElements(Sorted(members), members);
        var body := EncodeMembers(v, Sorted(members), valueNumbers, root);
        if body.Ok? then Ok("{" + body.value + "}") else body
    case Array(items) =>
      var body := EncodeItems(items, valueNumbers);
      if body.Ok? then Ok("[" + body.value + "]") else body
    case Unsupported => Err(UnsupportedValue)
  }

  function EncodeItems(items: seq<Value>, valueNumbers: bool): Result<string, EncodeError>
    decreases items, 0, 0
  {
    if items == [] then Ok("")
    else
      var first := Encode(items[0], valueNumbers, false);
      if first.Err? || |items| == 1 then first
      else
        var others := EncodeItems(items[1..], valueNumbers);
        if others.Err? then others else Ok(first.value + "," + others.value)
  }

  function EncodeMembers(parent: Value, members: seq<Member>, valueNumbers: bool,
                         root: bool): Result<string, EncodeError>
    requires parent.Object? && forall m | m in members :: m in parent.members
    decreases parent, 0, |members|
  {
    if members == [] then Ok("")
    else
      assert members[0] in parent.members;
      var key := KeyChars(members[0].key);
      var value := Encode(members[0].value, ChildFlag(valueNumbers, root, key), false);
      if value.Err? then value
      else
        var first := Quoted(key) + ":" + value.value;
        if |members| == 1 then Ok(first)
        else
          var others := EncodeMembers(parent, members[1..], valueNumbers, root);
          if others.Err? then others else Ok(first + "," + others.value)
  }

  /** scripts/telemetry_canonical_record.py `canonical_record_json`. */
  function CanonicalRecordJson(v: Value): Result<string, EncodeError> {
    if v.Object? then Encode(v, false, true) else Err(NotAnObject)
  }

  // ----- the structure of the encoding

  function NumberText(n: Number, valueNumbers: bool): string {
    var r := EncodeNumber(n, valueNumbers);
    if r.Ok? then r.value else ""
  }

  /** The JSON structure whose printed form the encoder emits. */
  function TreeOf(v: Value, valueNumbers: bool, root: bool): Json
    decreases v, 1, 0
  {
    match v
    case Null => JNull
    case Bool(b) => JBool(b)
    case Str(text) => JStr(if text.Scalars? then text.chars else "")
    case Num(n) => JNum(NumberText(n, valueNumbers))
    case Object(members) =>
      SameElements(Sorted(members), members);
      JObj(TreeMembers(v, Sorted(members), valueNumbers, root))
    case Array(items) => JArr(seq(|items|, i requires 0 <= i < |items| => TreeOf(items[i], valueNumbers, false)))
    case Unsupported => JNull
  }

  function TreeMember(m: Member, valueNumbers: bool, root: bool): JMember
    decreases m, 1, 0
  {
    var key := KeyChars(m.key);
    JMember(key, TreeOf(m.value, ChildFlag(valueNumbers, root, key), false))
  }

  function TreeMembers(parent: Value, members: seq<Member>, valueNumbers: bool, root: bool): (r: seq<JMember>)
    requires parent.Object? && forall m | m in members :: m in parent.members
    decreases parent, 0, 0
  {
    seq(|members|, i requires 0 <= i < |members| =>
      assert members[i] in parent.members; TreeMember(members[i], valueNumbers, root))
  }

  // ----- reading a record back

  /** What `json.loads` makes of a number: an int without fraction and exponent, a decimal otherwise. */
  function ParseNumber(text: string): Number {
    match X.Scan(text)
    case None => Dec(false, "")
    case Some(t) =>
      X.ScanSound(text);
      if t.fraction == "" && t.exponent.NoExponent?
      then Int(if t.negative then -(D.Val(t.integer) as int) else D.Val(t.integer))
      else Dec(true, text)
  }

  function FromJson(j: Json): Value {
    match j
    case JNull => Null
    case JBool(b) => Bool(b)
    case JStr(s) => Str(Scalars(s))
    case JNum(text) => Num(ParseNumber(text))
    case JArr(items) => Array(seq(|items|, i requires 0 <= i < |items| => FromJson(items[i])))
    case JObj(members) =>
      Object(seq(|members|, i requires 0 <= i < |members| =>
        Member(TextKey(Scalars(members[i].key)), FromJson(members[i].value))))
  }

  /** scripts/telemetry_canonical_record.py `canonicalize_record_json_text`, on emitted texts. */
  function CanonicalizeRecordJsonText(text: string): Result<string, EncodeError> {
    match ReadText(text)
    case None => Err(InvalidText)
    case Some(j) => CanonicalRecordJson(FromJson(j))
  }
}
