/**
 The JSON texts the encoder of scripts/telemetry_canonical_record.py emits, without optional
 whitespace, and the reader that recovers their structure.
 */
module JsonText {
  import opened Outcomes
  import X = ExactDecimal
  import D = Digits

  datatype JMember = JMember(key: string, value: Json)

  /** A JSON text's structure; numbers keep their spelling. */
  datatype Json =
    | JNull | JBool(b: bool) | JStr(s: string) | JNum(text: string)
    | JArr(items: seq<Json>) | JObj(members: seq<JMember>)

  // ----- string literals

  function Hex(n: nat): char
    requires n < 16
  {
    "0123456789abcdef"[n]
  }

  /** The JSON escape of one character; everything outside ASCII controls, quote and backslash stays. */
  function Escape(c: char): string {
    if c == '\"' then "\\\""
    else if c == '\\' then "\\\\"
    else if c == '\n' then "\\n"
    else if c == '\r' then "\\r"
    else if c == '\t' then "\\t"
    else if c as int == 12 then "\\f"
    else if c as int == 8 then "\\b"
    else if c as int < 0x20 then "\\u00" + [Hex(c as int / 16), Hex(c as int % 16)]
    else [c]
  }

  function Escaped(s: string): string {
    if s == "" then "" else Escape(s[0]) + Escaped(s[1..])
  }

  function Quoted(s: string): string {
    "\"" + Escaped(s) + "\""
  }

  // ----- printing

  function Print(j: Json): string
    decreases j, 1
  {
    match j
    case JNull => "null"
    case JBool(b) => if b then "true" else "false"
    case JStr(s) => Quoted(s)
    case JNum(text) => text
    case JArr(items) => "[" + PrintItems(items) + "]"
    case JObj(members) => "{" + PrintMembers(members) + "}"
  }

  function PrintItems(items: seq<Json>): string
    decreases items, 0
  {
    if items == [] then ""
    else if |items| == 1 then Print(items[0])
    else Print(items[0]) + "," + PrintItems(items[1..])
  }

  function PrintMember(m: JMember): string
    decreases m, 2
  {
    Quoted(m.key) + ":" + Print(m.value)
  }

  function PrintMembers(members: seq<JMember>): string
    decreases members, 0
  {
    if members == [] then ""
    else if |members| == 1 then PrintMember(members[0])
    else PrintMember(members[0]) + "," + PrintMembers(members[1..])
  }

  /** Every number leaf is a JSON number. */
  predicate NumbersScan(j: Json)
  {
    match j
    case JNum(text) => X.Scan(text).Some?
    case JArr(items) => forall i | 0 <= i < |items| :: NumbersScan(items[i])
    case JObj(members) => forall i | 0 <= i < |members| :: NumbersScan(members[i].value)
    case _ => true
  }

  // ----- reading

  /** A value read from the front of a text and what follows it. */
  datatype Read<+T> = Read(value: T, rest: string)

  function UnHex(c: char): Option<nat> {
    if '0' <= c <= '9' then Some(c as int - '0' as int)
    else if 'a' <= c <= 'f' then Some(c as int - 'a' as int + 10)
    else None
  }

  /** What a backslash introduces; four-digit escapes are read below 0x100 only. */
  function ReadEscape(s: string): (r: Option<Read<char>>)
    ensures r.Some? ==> |r.value.rest| < |s|
  {
    if s == "" then None
    else if s[0] in {'\"', '\\'} then Some(Read(s[0], s[1..]))
    else if s[0] == 'n' then Some(Read('\n', s[1..]))
    else if s[0] == 'r' then Some(Read('\r', s[1..]))
    else if s[0] == 't' then Some(Read('\t', s[1..]))
    else if s[0] == 'f' then Some(Read(12 as char, s[1..]))
    else if s[0] == 'b' then Some(Read(8 as char, s[1..]))
    else if |s| >= 5 && s[..3] == "u00" && UnHex(s[3]).Some? && UnHex(s[4]).Some? then
      Some(Read((UnHex(s[3]).value * 16 + UnHex(s[4]).value) as char, s[5..]))
    else None
  }

  /** The characters up to the closing quote. */
  function ReadString(s: string): (r: Option<Read<string>>)
    ensures r.Some? ==> |r.value.rest| < |s|
    decreases |s|
  {
    if s == "" then None
    else if s[0] == '\"' then Some(Read("", s[1..]))
    else if s[0] == '\\' then
      var c := ReadEscape(s[1..]);
      if c.None? then None
      else
        var tail := ReadString(c.value.rest);
        if tail.None? then None else Some(Read([c.value.value] + tail.value.value, tail.value.rest))
    else if s[0] as int < 0x20 then None
    else
      var tail := ReadString(s[1..]);
      if tail.None? then None else Some(Read([s[0]] + tail.value.value, tail.value.rest))
  }

  predicate NumberChar(c: char) {
    '0' <= c <= '9' || c in {'+', '-', '.', 'e', 'E'}
  }

  /** Length of the longest prefix of number characters. */
  function NumberRun(s: string): (n: nat)
    ensures n <= |s|
  {
    if s != "" && NumberChar(s[0]) then 1 + NumberRun(s[1..]) else 0
  }

  predicate StartsWith(s: string, prefix: string) {
    |prefix| <= |s| && s[..|prefix|] == prefix
  }

  function ReadValue(s: string): (r: Option<Read<Json>>)
    ensures r.Some? ==> |r.value.rest| < |s|
    decreases |s|, 0
  {
    if s == "" then None
    else if s[0] == 'n' then if StartsWith(s, "null") then Some(Read(JNull, s[4..])) else None
    else if s[0] == 't' then if StartsWith(s, "true") then Some(Read(JBool(true), s[4..])) else None
    else if s[0] == 'f' then if StartsWith(s, "false") then Some(Read(JBool(false), s[5..])) else None
    else if s[0] == '\"' then
      var text := ReadString(s[1..]);
      if text.None? then None else Some(Read(JStr(text.value.value), text.value.rest))
    else if s[0] == '[' then
      if |s| > 1 && s[1] == ']' then Some(Read(JArr([]), s[2..]))
      else
        var items := ReadItems(s[1..]);
        if items.None? then None else Some(Read(JArr(items.value.value), items.value.rest))
    else if s[0] == '{' then
      if |s| > 1 && s[1] == '}' then Some(Read(JObj([]), s[2..]))
      else
        var members := ReadMembers(s[1..]);
        if members.None? then None else Some(Read(JObj(members.value.value), members.value.rest))
    else
      var n := NumberRun(s);
      if n > 0 && X.Scan(s[..n]).Some? then Some(Read(JNum(s[..n]), s[n..])) else None
  }

  /** A nonempty list of values up to and including the closing bracket. */
  function ReadItems(s: string): (r: Option<Read<seq<Json>>>)
    ensures r.Some? ==> |r.value.rest| < |s|
    decreases |s|, 1
  {
    var first := ReadValue(s);
    if first.None? || first.value.rest == "" then None
    else if first.value.rest[0] == ']' then Some(Read([first.value.value], first.value.rest[1..]))
    else if first.value.rest[0] == ',' then
      var others := ReadItems(first.value.rest[1..]);
      if others.None? then None else Some(Read([first.value.value] + others.value.value, others.value.rest))
    else None
  }

  function ReadMember(s: string): (r: Option<Read<JMember>>)
    ensures r.Some? ==> |r.value.rest| < |s|
    decreases |s|, 1
  {
    if s == "" || s[0] != '\"' then None
    else
      var key := ReadString(s[1..]);
      if key.None? || key.value.rest == "" || key.value.rest[0] != ':' then None
      else
        var value := ReadValue(key.value.rest[1..]);
        if value.None? then None else Some(Read(JMember(key.value.value, value.value.value), value.value.rest))
  }

  function ReadMembers(s: string): (r: Option<Read<seq<JMember>>>)
    ensures r.Some? ==> |r.value.rest| < |s|
    decreases |s|, 2
  {
    var first := ReadMember(s);
    if first.None? || first.value.rest == "" then None
    else if first.value.rest[0] == '}' then Some(Read([first.value.value], first.value.rest[1..]))
    else if first.value.rest[0] == ',' then
      var others := ReadMembers(first.value.rest[1..]);
      if others.None? then None else Some(Read([first.value.value] + others.value.value, others.value.rest))
    else None
  }

  /** The structure of a complete text. */
  function ReadText(s: string): Option<Json> {
    var r := ReadValue(s);
    if r.Some? && r.value.rest == "" then Some(r.value.value) else None
  }

  // ----- what is printed is read back

  lemma HexRoundTrip(n: nat)
    requires n < 16
    ensures UnHex(Hex(n)) == Some(n)
  {
  }

  lemma EscapeRoundTrip(c: char, rest: string)
    ensures var s := Escape(c) + rest;
            if Escape(c)[0] == '\\' then ReadEscape(s[1..]) == Some(Read(c, rest))
            else Escape(c) == [c] && c != '\"' && c as int >= 0x20 && s[1..] == rest
  {
    var s := Escape(c) + rest;
    if |Escape(c)| == 6 {
      HexRoundTrip(c as int / 16);
      HexRoundTrip(c as int % 16);
      assert s[1..][..3] == "u00";
      assert s[1..][5..] == rest;
    } else if |Escape(c)| == 2 {
      assert s[1..][1..] == rest;
    } else {
      assert s[1..] == rest;
    }
  }

  lemma {:induction false} StringRoundTrip(s: string, rest: string)
    ensures ReadString(Escaped(s) + "\"" + rest) == Some(Read(s, rest))
  {
    var text := Escaped(s) + "\"" + rest;
    if s == "" {
      assert text[1..] == rest;
    } else {
      var tail := Escaped(s[1..]) + "\"" + rest;
      assert text == Escape(s[0]) + tail;
      EscapeRoundTrip(s[0], tail);
      StringRoundTrip(s[1..], rest);
      assert [s[0]] + s[1..] == s;
    }
  }

  /** A number ends where its text ends, before a delimiter or the end of the input. */
  predicate Delimited(rest: string) {
    rest != "" ==> rest[0] in {',', ']', '}'}
  }

  lemma {:induction false} NumberRunExact(s: string, rest: string)
    requires AllNumberChars(s) && Delimited(rest)
    ensures NumberRun(s + rest) == |s|
  {
    if s != "" {
      assert (s + rest)[1..] == s[1..] + rest;
      NumberRunExact(s[1..], rest);
    } else {
      assert s + rest == rest;
    }
  }

  predicate AllNumberChars(s: string) {
    forall i | 0 <= i < |s| :: NumberChar(s[i])
  }

  lemma JoinNumberChars(a: string, b: string)
    requires AllNumberChars(a) && AllNumberChars(b)
    ensures AllNumberChars(a + b)
  {
  }

  lemma NumberChars(text: string)
    requires X.Scan(text).Some?
    ensures text != "" && (text[0] == '-' || D.IsDigit(text[0]))
    ensures AllNumberChars(text)
  {
    hide X.Scan;
    X.ScanSound(text);
    TokenNumberChars(X.Scan(text).value);
  }

  lemma TokenNumberChars(t: X.Token)
    requires X.ValidToken(t)
    ensures var text := X.TokenText(t);
            AllNumberChars(text) && text != "" && (text[0] == '-' || D.IsDigit(text[0]))
  {
    var fraction, exponent := X.FractionText(t.fraction), X.ExponentText(t.exponent);
    assert AllNumberChars(fraction) && AllNumberChars(exponent) && AllNumberChars(t.integer);
    JoinNumberChars(fraction, exponent);
    JoinNumberChars(t.integer, fraction + exponent);
    JoinNumberChars(X.SignText(t.negative), X.UnsignedText(t));
    assert X.UnsignedText(t)[0] == t.integer[0] && D.IsDigit(t.integer[0]);
  }

  lemma NumberRoundTrip(text: string, rest: string)
    requires X.Scan(text).Some? && Delimited(rest)
    ensures ReadValue(text + rest) == Some(Read(JNum(text), rest))
  {
    hide X.Scan;
    NumberChars(text);
    NumberRunExact(text, rest);
    var s := text + rest;
    assert s[0] == text[0];
    assert s[..|text|] == text && s[|text|..] == rest;
  }

  lemma QuotedRoundTrip(s: string, rest: string)
    ensures ReadValue(Quoted(s) + rest) == Some(Read(JStr(s), rest))
    ensures (Quoted(s) + rest)[1..] == Escaped(s) + "\"" + rest
  {
    hide ReadString, Escaped;
    var text := Quoted(s) + rest;
    assert text[1..] == Escaped(s) + "\"" + rest;
    StringRoundTrip(s, rest);
  }

  /** No printed value starts like a closing bracket. */
  lemma PrintStart(j: Json)
    requires NumbersScan(j)
    ensures Print(j) != "" && Print(j)[0] !in {']', '}', ','}
  {
    if j.JNum? {
      NumberChars(j.text);
    }
  }

  lemma {:induction false} ValueRoundTrip(j: Json, rest: string)
    requires NumbersScan(j) && Delimited(rest)
    ensures ReadValue(Print(j) + rest) == Some(Read(j, rest))
    decreases j, 1
  {
    hide ReadItems, ReadMembers, PrintItems, PrintMembers, X.Scan, ReadString, Quoted, Delimited;
    var s := Print(j) + rest;
    match j
    case JNull => assert s[..4] == "null" && s[4..] == rest;
    case JBool(b) =>
      if b {
        assert s[..4] == "true" && s[4..] == rest;
      } else {
        assert s[..5] == "false" && s[5..] == rest;
      }
    case JStr(text) => QuotedRoundTrip(text, rest);
    case JNum(text) => NumberRoundTrip(text, rest);
    case JArr(items) =>
      if items == [] {
        PrintEmpty();
        assert s == "[]" + rest && s[2..] == rest;
      } else {
        assert s[1..] == PrintItems(items) + "]" + rest;
        ItemsStart(items);
        assert s[1] == PrintItems(items)[0];
        ItemsRoundTrip(items, rest);
      }
    case JObj(members) =>
      if members == [] {
        PrintEmpty();
        assert s == "{}" + rest && s[2..] == rest;
      } else {
        assert s[1..] == PrintMembers(members) + "}" + rest;
        MembersStart(members);
        assert s[1] == PrintMembers(members)[0];
        MembersRoundTrip(members, rest);
      }
  }

  lemma PrintEmpty()
    ensures PrintItems([]) == "" && PrintMembers([]) == ""
  {
  }

  lemma ItemsStart(items: seq<Json>)
    requires items != [] && NumbersScan(items[0])
    ensures PrintItems(items) != "" && PrintItems(items)[0] != ']'
  {
    PrintStart(items[0]);
  }

  lemma MembersStart(members: seq<JMember>)
    requires members != []
    ensures PrintMembers(members) != "" && PrintMembers(members)[0] == '\"'
  {
    assert PrintMember(members[0])[0] == '\"';
  }

  lemma {:induction false} ItemsRoundTrip(items: seq<Json>, rest: string)
    requires items != [] && forall i | 0 <= i < |items| :: NumbersScan(items[i])
    ensures ReadItems(PrintItems(items) + "]" + rest) == Some(Read(items, rest))
    decreases items, 0
  {
    hide ReadValue, Print, NumbersScan;
    var s := PrintItems(items) + "]" + rest;
    if |items| == 1 {
      assert s == Print(items[0]) + ("]" + rest);
      ValueRoundTrip(items[0], "]" + rest);
      assert ("]" + rest)[1..] == rest;
      assert [items[0]] == items;
    } else {
      var tail := PrintItems(items[1..]) + "]" + rest;
      assert s == Print(items[0]) + ("," + tail);
      ValueRoundTrip(items[0], "," + tail);
      assert ("," + tail)[1..] == tail;
      ItemsRoundTrip(items[1..], rest);
      assert [items[0]] + items[1..] == items;
    }
  }

  lemma {:induction false} MemberRoundTrip(m: JMember, rest: string)
    requires NumbersScan(m.value) && Delimited(rest)
    ensures ReadMember(PrintMember(m) + rest) == Some(Read(m, rest))
    decreases m, 2
  {
    hide ReadString, Escaped, ReadValue, Print, NumbersScan;
    var after := ":" + Print(m.value) + rest;
    assert PrintMember(m) + rest == Quoted(m.key) + after;
    QuotedRoundTrip(m.key, after);
    StringRoundTrip(m.key, after);
    assert after[1..] == Print(m.value) + rest;
    ValueRoundTrip(m.value, rest);
  }

  lemma {:induction false} MembersRoundTrip(members: seq<JMember>, rest: string)
    requires members != [] && forall i | 0 <= i < |members| :: NumbersScan(members[i].value)
    ensures ReadMembers(PrintMembers(members) + "}" + rest) == Some(Read(members, rest))
    decreases members, 0
  {
    hide ReadMember, PrintMember, NumbersScan;
    var s := PrintMembers(members) + "}" + rest;
    if |members| == 1 {
      assert s == PrintMember(members[0]) + ("}" + rest);
      MemberRoundTrip(members[0], "}" + rest);
      assert ("}" + rest)[1..] == rest;
      assert [members[0]] == members;
    } else {
      var tail := PrintMembers(members[1..]) + "}" + rest;
      assert s == PrintMember(members[0]) + ("," + tail);
      MemberRoundTrip(members[0], "," + tail);
      assert ("," + tail)[1..] == tail;
      MembersRoundTrip(members[1..], rest);
      assert [members[0]] + members[1..] == members;
    }
  }

  /** Printer and reader: the emitted text determines the structure. */
  lemma PrintThenRead(j: Json)
    requires NumbersScan(j)
    ensures ReadText(Print(j)) == Some(j)
  {
    ValueRoundTrip(j, "");
    assert Print(j) + "" == Print(j);
  }

  // ----- how a string is written

  /** Written between quotes, the text is read as the string. */
  predicate ReadsAs(text: string, s: string) {
    ReadString(text + "\"") == Some(Read(s, ""))
  }

  lemma EscapeIsLeast(t: string)
    requires ReadEscape(t).Some?
    ensures var c := ReadEscape(t).value;
            || (Escape(c.value) == "\\" + t[..1] && c.rest == t[1..])
            || (|t| >= 5 && UnHex(t[4]).Some? && c.rest == t[5..]
                && |Escape(c.value)| <= 6 && (|Escape(c.value)| == 6 ==> Escape(c.value) == "\\" + t[..5]))
  {
    if |t| >= 5 && t[0] == 'u' {
      assert t[..3] == "u00" ==> t[..5] == "u00" + [t[3], t[4]];
    }
  }

  lemma ReadClosing(full: string, s: string)
    requires full != "" && full[0] == '\"' && ReadString(full) == Some(Read(s, ""))
    ensures s == "" && |full| == 1
  {
  }

  lemma ReadPlain(full: string, s: string)
    requires full != "" && full[0] != '\"' && full[0] != '\\' && ReadString(full) == Some(Read(s, ""))
    ensures s != "" && full[0] == s[0] && full[0] as int >= 0x20 && ReadString(full[1..]) == Some(Read(s[1..], ""))
  {
    var tail := ReadString(full[1..]).value;
    assert s == [full[0]] + tail.value;
    assert s[1..] == tail.value;
  }

  lemma ReadEscaped(full: string, s: string)
    requires full != "" && full[0] == '\\' && ReadString(full) == Some(Read(s, ""))
    ensures s != "" && ReadEscape(full[1..]).Some? && ReadEscape(full[1..]).value.value == s[0]
    ensures ReadString(ReadEscape(full[1..]).value.rest) == Some(Read(s[1..], ""))
  {
    hide ReadEscape;
    var c := ReadEscape(full[1..]).value;
    var tail := ReadString(c.rest).value;
    assert s == [c.value] + tail.value;
    assert s[1..] == tail.value;
  }

  lemma ReadStep(text: string, s: string)
    requires ReadsAs(text, s) && text != ""
    ensures s != "" && text[0] != '\"'
    ensures text[0] != '\\' ==> text[0] == s[0] && text[0] as int >= 0x20 && ReadsAs(text[1..], s[1..])
    ensures text[0] == '\\' ==>
              var t := text[1..] + "\"";
              && ReadEscape(t).Some? && ReadEscape(t).value.value == s[0]
              && ReadString(ReadEscape(t).value.rest) == Some(Read(s[1..], ""))
  {
    hide ReadString, ReadEscape;
    var full := text + "\"";
    assert full[0] == text[0] && full[1..] == text[1..] + "\"" && |full| > 1;
    if text[0] == '\"' {
      ReadClosing(full, s);
    } else if text[0] == '\\' {
      ReadEscaped(full, s);
    } else {
      ReadPlain(full, s);
    }
  }

  /** Between quotes a string is written with the one shortest text that is read as it. */
  lemma {:induction false} EscapedIsShortest(s: string, text: string)
    requires ReadsAs(text, s)
    ensures |Escaped(s)| <= |text|
    ensures |Escaped(s)| == |text| ==> text == Escaped(s)
    decreases |text|
  {
    if text != "" {
      hide ReadString, ReadEscape, Escaped, Escape;
      ReadStep(text, s);
      var k := FirstRead(text, s);
      EscapedIsShortest(s[1..], text[k..]);
      OneMoreIsShortest(s, text, k);
    } else {
      assert s == "";
      NothingEscaped();
    }
  }

  lemma NothingEscaped()
    ensures Escaped("") == ""
  {
  }

  /** The text of the first character that is read. */
  lemma FirstRead(text: string, s: string) returns (k: nat)
    requires ReadsAs(text, s) && text != "" && s != ""
    ensures 0 < k <= |text| && ReadsAs(text[k..], s[1..])
    ensures |Escape(s[0])| <= k && (|Escape(s[0])| == k ==> Escape(s[0]) == text[..k])
  {
    hide ReadString;
    ReadStep(text, s);
    var t := text[1..] + "\"";
    k := 1;
    if text[0] == '\\' {
      EscapeIsLeast(t);
      var rest := ReadEscape(t).value.rest;
      k := if rest == t[1..] then 2 else 6;
      ShorterText(text, t, k, rest, s[1..]);
    }
    hide ReadEscape;
  }

  lemma OneMoreIsShortest(s: string, text: string, k: nat)
    requires s != "" && k <= |text|
    requires |Escape(s[0])| <= k && (|Escape(s[0])| == k ==> Escape(s[0]) == text[..k])
    requires |Escaped(s[1..])| <= |text[k..]| && (|Escaped(s[1..])| == |text[k..]| ==> text[k..] == Escaped(s[1..]))
    ensures |Escaped(s)| <= |text| && (|Escaped(s)| == |text| ==> text == Escaped(s))
  {
    hide Escape;
    assert text == text[..k] + text[k..];
  }

  lemma ShorterText(text: string, t: string, k: nat, rest: string, s: string)
    requires text != "" && t == text[1..] + "\"" && ReadString(rest) == Some(Read(s, ""))
    requires 2 <= k && k - 1 <= |t| && rest == t[k - 1..] && (k > 2 ==> t[k - 2] != '\"')
    ensures k <= |text| && ReadsAs(text[k..], s)
    ensures text[..k] == [text[0]] + t[..k - 1]
  {
    assert |t| == |text| && |rest| == |text| - (k - 1);
    assert rest != "";
    assert rest == text[k..] + "\"";
  }

  lemma {:induction false} EscapedJoin(a: string, b: string)
    ensures Escaped(a + b) == Escaped(a) + Escaped(b)
  {
    if a == "" {
      assert a + b == b;
    } else {
      assert (a + b)[1..] == a[1..] + b;
      EscapedJoin(a[1..], b);
    }
  }

  /** Wherever it stands, a character that needs no escape stands for itself. */
  lemma PlainStandsForItself(before: string, c: char, after: string)
    requires c as int >= 0x20 && c as int != 0x22 && c as int != 0x5C
    ensures Escaped(before + [c] + after) == Escaped(before) + [c] + Escaped(after)
  {
    EscapedJoin(before + [c], after);
    EscapedJoin(before, [c]);
    EscapedOne(c);
    hide Escaped;
  }

  /** The named escapes by code point, and a control character without a name. */
  lemma NamedEscapes()
    ensures Escaped([0x22 as char]) == "\\\"" && Escaped([0x5C as char]) == "\\\\"
    ensures Escaped([8 as char]) == "\\b" && Escaped([9 as char]) == "\\t" && Escaped([10 as char]) == "\\n"
    ensures Escaped([12 as char]) == "\\f" && Escaped([13 as char]) == "\\r"
    ensures Escaped([0x1F as char]) == "\\u001f" && Escaped([0 as char]) == "\\u0000"
  {
    EscapedOne(0x22 as char);
    EscapedOne(0x5C as char);
    EscapedOne(8 as char);
    EscapedOne(9 as char);
    EscapedOne(10 as char);
    EscapedOne(12 as char);
    EscapedOne(13 as char);
    EscapedOne(0x1F as char);
    EscapedOne(0 as char);
  }

  lemma EscapedOne(c: char)
    ensures Escaped([c]) == Escape(c)
  {
    assert [c][1..] == "";
  }

  /** What is written between quotes is read as the string, so the shortest text exists. */
  lemma EscapedReadsAs(s: string)
    ensures ReadsAs(Escaped(s), s)
  {
    StringRoundTrip(s, "");
    assert Escaped(s) + "\"" + "" == Escaped(s) + "\"";
  }
}
