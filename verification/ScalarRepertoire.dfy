/**
 scripts/generate_unicode13_repertoire.py: the compacted ranges are the only such list for their scalars,
 survive the hexadecimal manifest, count their scalars, and are searched by bisection.
 */
module ScalarRepertoire {
  import opened Outcomes
  import opened Sorting
  import opened ScalarRanges

  // ----- the ranges a parse yields

  /** A parse denotes the admitted code points without the surrogates; a reversed line admits nothing. */
  lemma ParsedDenotes(entries: seq<Entry>, ranges: seq<Range>)
    ensures (forall x :: In(ranges, x) <==> In(Admitted(entries), x)) ==>
              && (forall x :: In(ranges, x) <==> InAdmitted(entries, x) && !IsSurrogate(x))
              && NoSurrogates(ranges)
  {
    if forall x :: In(ranges, x) <==> In(Admitted(entries), x) {
      hide Admitted, InAdmitted;
      forall x ensures In(ranges, x) <==> InAdmitted(entries, x) && !IsSurrogate(x) {
        AdmittedDenote(entries, x);
      }
    }
  }

  /** The scalars of a parse, one by one: each is held by an entry admitted at an age of at most 13.0. */
  lemma ParsedScalars(entries: seq<Entry>, ranges: seq<Range>, x: int)
    requires forall y :: In(ranges, y) <==> In(Admitted(entries), y)
    ensures (exists r | r in ranges :: r.first <= x <= r.last) <==> exists i: nat :: Admits(entries, i, x)
  {
    AdmitsIs(entries, x);
    hide Admitted, Admits;
    assert In(ranges, x) <==> exists r | r in ranges :: r.first <= x <= r.last;
  }

  lemma CompactHead(ranges: seq<Range>, x: int)
    requires Compact(ranges) && ranges != []
    ensures In(ranges, x) ==> ranges[0].first <= x
    ensures In(ranges[1..], x) <==> In(ranges, x) && x > ranges[0].last
    ensures In(ranges[1..], x) ==> x > ranges[0].last + 1
    ensures In(ranges, x) <==> Has(ranges[0], x) || In(ranges[1..], x)
    ensures Compact(ranges[1..])
  {
    InHeadOrRest(ranges, x);
    RestIsCompact(ranges);
    if In(ranges[1..], x) {
      RestIsLater(ranges, x);
    }
    hide In, Compact;
  }

  lemma InHeadOrRest(ranges: seq<Range>, x: int)
    requires ranges != []
    ensures In(ranges, x) <==> Has(ranges[0], x) || In(ranges[1..], x)
  {
    assert forall r :: r in ranges <==> r == ranges[0] || r in ranges[1..];
    hide Has;
  }

  lemma RestIsCompact(ranges: seq<Range>)
    requires Compact(ranges) && ranges != []
    ensures Compact(ranges[1..]) && ranges[0].first <= ranges[0].last
  {
  }

  lemma RestIsLater(ranges: seq<Range>, x: int)
    requires Compact(ranges) && ranges != [] && In(ranges[1..], x)
    ensures x > ranges[0].last + 1
  {
    var r :| r in ranges[1..] && Has(r, x);
    var i :| 0 <= i < |ranges[1..]| && ranges[1..][i] == r;
    assert ranges[i + 1] == r;
    hide In;
  }

  lemma SameHead(a: seq<Range>, b: seq<Range>)
    requires Compact(a) && Compact(b) && a != [] && b != []
    requires forall x :: In(a, x) <==> In(b, x)
    ensures a[0] == b[0]
  {
    assert In(a, a[0].first) by { CompactHead(a, a[0].first); }
    assert In(b, b[0].first) by { CompactHead(b, b[0].first); }
    CompactHead(a, b[0].first);
    CompactHead(b, a[0].first);
    var shorter := if a[0].last < b[0].last then a[0].last else b[0].last;
    CompactHead(a, shorter + 1);
    CompactHead(b, shorter + 1);
  }

  /** A compact list is determined by the scalars it holds. */
  lemma {:induction false} CompactUnique(a: seq<Range>, b: seq<Range>)
    requires Compact(a) && Compact(b) && forall x :: In(a, x) <==> In(b, x)
    ensures a == b
  {
    if a != [] {
      assert In(a, a[0].first) by { CompactHead(a, a[0].first); }
      SameHead(a, b);
      forall x ensures In(a[1..], x) <==> In(b[1..], x) {
        CompactHead(a, x);
        CompactHead(b, x);
      }
      CompactHead(a, 0);
      CompactHead(b, 0);
      CompactUnique(a[1..], b[1..]);
    } else if b != [] {
      CompactHead(b, b[0].first);
      assert false;
    }
  }

  // ----- counting

  /** `sum(last - first + 1)`. */
  function ScalarCount(ranges: seq<Range>): int {
    if ranges == [] then 0
    else
      var n := |ranges| - 1;
      ScalarCount(ranges[..n]) + (ranges[n].last - ranges[n].first + 1)
  }

  ghost function Scalars(ranges: seq<Range>): set<int> {
    set x | 0 <= x <= MAX_SCALAR && In(ranges, x)
  }

  function Interval(first: int, last: int): (s: set<int>)
    ensures forall x :: x in s <==> first <= x <= last
    decreases last - first + 1
  {
    if first > last then {} else Interval(first, last - 1) + {last}
  }

  lemma {:induction false} IntervalSize(first: int, last: int)
    requires first <= last + 1
    ensures |Interval(first, last)| == last - first + 1
    decreases last - first + 1
  {
    if first <= last {
      IntervalSize(first, last - 1);
    }
  }

  /** The recorded scalar count is the number of scalars in the repertoire. */
  lemma {:induction false} CountIsSize(ranges: seq<Range>)
    requires Compact(ranges)
    ensures ScalarCount(ranges) == |Scalars(ranges)|
  {
    if ranges == [] {
      assert Scalars(ranges) == {};
    } else {
      var n := |ranges| - 1;
      var front, r := ranges[..n], ranges[n];
      assert ranges == front + [r];
      assert Compact(front) && InBounds(r);
      hide Scalars, Interval, Compact;
      CountIsSize(front);
      IntervalSize(r.first, r.last);
      ScalarsMore(front, r);
      DisjointSizes(Scalars(front), Interval(r.first, r.last));
    }
  }

  lemma DisjointSizes(a: set<int>, b: set<int>)
    requires a * b == {}
    ensures |a + b| == |a| + |b|
  {
  }

  lemma ScalarsMore(front: seq<Range>, r: Range)
    requires Compact(front + [r])
    ensures Scalars(front + [r]) == Scalars(front) + Interval(r.first, r.last)
    ensures Scalars(front) * Interval(r.first, r.last) == {}
  {
    forall x ensures In(front + [r], x) <==> In(front, x) || Has(r, x) {
      InMore(front, r, x);
    }
    assert (front + [r])[|front|] == r;
    forall s | s in front ensures s.last < r.first {
      var i :| 0 <= i < |front| && front[i] == s;
      assert (front + [r])[i] == s;
    }
  }

  // ----- the manifest

  predicate IsHex(c: char) {
    '0' <= c <= '9' || 'A' <= c <= 'F'
  }

  function HexDigit(d: nat): (c: char)
    requires d < 16
    ensures IsHex(c) && HexValue(c) == d
  {
    if d < 10 then ('0' as int + d) as char else ('A' as int + d - 10) as char
  }

  function HexValue(c: char): (d: nat)
    requires IsHex(c)
    ensures d < 16
  {
    if c <= '9' then c as int - '0' as int else c as int - 'A' as int + 10
  }

  predicate AllHex(s: string) {
    forall i | 0 <= i < |s| :: IsHex(s[i])
  }

  /** `int(s, 16)`. */
  function ParseHex(s: string): nat
    requires AllHex(s)
  {
    if s == "" then 0 else 16 * ParseHex(s[..|s| - 1]) + HexValue(s[|s| - 1])
  }

  /** At least `width` upper-case hexadecimal digits, for a number that fits in them. */
  function Hex(n: nat, width: nat): (s: string)
    ensures |s| == width && AllHex(s)
  {
    if width == 0 then "" else Hex(n / 16, width - 1) + [HexDigit(n % 16)]
  }

  function Pow16(k: nat): (p: nat)
    ensures p > 0
  {
    if k == 0 then 1 else 16 * Pow16(k - 1)
  }

  lemma DivBelow(n: nat, p: nat)
    requires n < 16 * p
    ensures n / 16 < p && 16 * (n / 16) + n % 16 == n
  {
  }

  lemma DigitBack(v: nat, d: nat)
    requires d < 16
    ensures (16 * v + d) / 16 == v && (16 * v + d) % 16 == d
  {
  }

  lemma {:induction false} HexBack(n: nat, width: nat)
    requires n < Pow16(width)
    ensures ParseHex(Hex(n, width)) == n
  {
    if width > 0 {
      assert Pow16(width) == 16 * Pow16(width - 1);
      hide Pow16, HexDigit, HexValue;
      DivBelow(n, Pow16(width - 1));
      HexBack(n / 16, width - 1);
      assert Hex(n, width)[..width - 1] == Hex(n / 16, width - 1);
    }
  }

  lemma {:induction false} HexForth(s: string)
    requires AllHex(s)
    ensures Hex(ParseHex(s), |s|) == s
  {
    if s != "" {
      var front, c := s[..|s| - 1], s[|s| - 1];
      HexForth(front);
      DigitBack(ParseHex(front), HexValue(c));
      assert s == front + [c];
    }
  }

  function EncodedRange(r: Range): string
    requires InBounds(r)
  {
    Hex(r.first, 6) + "-" + Hex(r.last, 6)
  }

  /** scripts/generate_unicode13_repertoire.py `_encoded_ranges`. */
  function EncodedRanges(ranges: seq<Range>): seq<string>
    requires forall i | 0 <= i < |ranges| :: InBounds(ranges[i])
  {
    seq(|ranges|, i requires 0 <= i < |ranges| => EncodedRange(ranges[i]))
  }

  predicate WellFormed(s: string) {
    |s| == 13 && s[6] == '-' && AllHex(s[..6] + s[7..])
  }

  function DecodedRange(s: string): Range
    requires WellFormed(s)
  {
    HalvesAreHex(s);
    Range(ParseHex(s[..6]), ParseHex(s[7..]))
  }

  lemma HalvesAreHex(s: string)
    requires WellFormed(s)
    ensures AllHex(s[..6]) && AllHex(s[7..])
  {
    assert forall i | 0 <= i < 6 :: (s[..6] + s[7..])[i] == s[..6][i];
    assert forall i | 0 <= i < 6 :: (s[..6] + s[7..])[6 + i] == s[7..][i];
  }

  lemma EncodeThenDecode(r: Range)
    requires InBounds(r)
    ensures WellFormed(EncodedRange(r)) && DecodedRange(EncodedRange(r)) == r
  {
    var s := EncodedRange(r);
    assert s[..6] == Hex(r.first, 6) && s[7..] == Hex(r.last, 6);
    assert Pow16(6) == 0x1000000;
    HexBack(r.first, 6);
    HexBack(r.last, 6);
  }

  lemma DecodeThenEncode(s: string)
    requires WellFormed(s) && InBounds(DecodedRange(s))
    ensures EncodedRange(DecodedRange(s)) == s
  {
    HalvesAreHex(s);
    HexForth(s[..6]);
    HexForth(s[7..]);
    assert s == s[..6] + [s[6]] + s[7..];
  }

  datatype ManifestError = EmptyList | NotCanonical | OutOfBounds | HasSurrogate | NotCompact

  /** A range list that may stand in a manifest. */
  ghost predicate Publishable(ranges: seq<Range>) {
    ranges != [] && Compact(ranges) && forall i | 0 <= i < |ranges| :: NoSurrogate(ranges[i])
  }

  predicate NoSurrogate(r: Range) {
    r.first > SURROGATE_LAST || r.last < SURROGATE_FIRST
  }

  /** A range list may stand in a manifest when it is not empty, holds scalars only and has gaps between ranges. */
  lemma PublishableIff(ranges: seq<Range>)
    ensures Publishable(ranges) <==>
              && ranges != []
              && (forall r | r in ranges :: 0 <= r.first <= r.last <= 0xD7FF || 0xE000 <= r.first <= r.last <= 0x10FFFF)
              && forall i | 0 < i < |ranges| :: ranges[i].first - ranges[i - 1].last >= 2
  {
    assert forall i | 0 <= i < |ranges| :: ranges[i] in ranges;
    if forall i | 0 < i < |ranges| :: ranges[i].first - ranges[i - 1].last >= 2 {
      if forall r | r in ranges :: r.first <= r.last {
        forall i, j | 0 <= i < j < |ranges| ensures ranges[i].last + 1 < ranges[j].first {
          GapsAdd(ranges, i, j);
        }
      }
    }
  }

  lemma {:induction false} GapsAdd(ranges: seq<Range>, i: nat, j: nat)
    requires i < j < |ranges| && forall k | 0 < k < |ranges| :: ranges[k].first - ranges[k - 1].last >= 2
    requires forall r | r in ranges :: r.first <= r.last
    ensures ranges[i].last + 1 < ranges[j].first
  {
    if i < j - 1 {
      GapsAdd(ranges, i, j - 1);
      assert ranges[j - 1] in ranges;
    }
  }

  /** What an encoded range looks like. */
  lemma EncodedLooks()
    ensures EncodedRange(Range(0x1234, 0x5678)) == "001234-005678"
    ensures EncodedRange(Range(0x9ABC, 0xDEF00)) == "009ABC-0DEF00"
  {
    hide Hex;
    LowDigits();
    HighDigits();
    assert "001234" + "-" + "005678" == "001234-005678";
    assert "009ABC" + "-" + "0DEF00" == "009ABC-0DEF00";
  }

  lemma LowDigits()
    ensures Hex(0x1234, 6) == "001234" && Hex(0x5678, 6) == "005678"
  {
    hide Hex;
    SixDigits(0x1234, 0, 0, 1, 2, 3, 4);
    SixDigits(0x5678, 0, 0, 5, 6, 7, 8);
  }

  lemma HighDigits()
    ensures Hex(0x9ABC, 6) == "009ABC" && Hex(0xDEF00, 6) == "0DEF00"
  {
    hide Hex;
    SixDigits(0x9ABC, 0, 0, 9, 10, 11, 12);
    SixDigits(0xDEF00, 0, 13, 14, 15, 0, 0);
  }

  lemma SixDigits(n: nat, a: nat, b: nat, c: nat, d: nat, e: nat, f: nat)
    requires a < 16 && b < 16 && c < 16 && d < 16 && e < 16 && f < 16
    requires n == 4096 * (256 * a + 16 * b + c) + 256 * d + 16 * e + f
    ensures Hex(n, 6) == [HexDigit(a), HexDigit(b), HexDigit(c), HexDigit(d), HexDigit(e), HexDigit(f)]
  {
    assert Hex(0, 0) == "";
    hide Hex, HexDigit;
    ThreeDigits(0, 0, a, b, c);
    ThreeDigits(256 * a + 16 * b + c, 3, d, e, f);
  }

  lemma ThreeDigits(n: nat, width: nat, a: nat, b: nat, c: nat)
    requires a < 16 && b < 16 && c < 16
    ensures Hex(4096 * n + 256 * a + 16 * b + c, width + 3) == Hex(n, width) + [HexDigit(a), HexDigit(b), HexDigit(c)]
  {
    hide Hex, HexDigit;
    HexStep(n, a, width);
    HexStep(16 * n + a, b, width + 1);
    HexStep(256 * n + 16 * a + b, c, width + 2);
  }

  lemma HexStep(n: nat, d: nat, width: nat)
    requires d < 16
    ensures Hex(16 * n + d, width + 1) == Hex(n, width) + [HexDigit(d)]
  {
    DigitBack(n, d);
    hide HexDigit;
  }

  /** Every non-empty list that a parse can give may stand in a manifest, and so is read back from it. */
  lemma ParsedIsPublishable(entries: seq<Entry>, ranges: seq<Range>)
    ensures ranges != [] && Compact(ranges) && (forall x :: In(ranges, x) <==> In(Admitted(entries), x)) ==>
              Publishable(ranges)
  {
    if ranges != [] && Compact(ranges) && (forall x :: In(ranges, x) <==> In(Admitted(entries), x)) {
      ParsedDenotes(entries, ranges);
      CompactIsPublishable(ranges);
    }
  }

  lemma CompactIsPublishable(ranges: seq<Range>)
    requires ranges != [] && Compact(ranges) && NoSurrogates(ranges)
    ensures Publishable(ranges)
  {
    forall i | 0 <= i < |ranges| ensures NoSurrogate(ranges[i]) {
      var r := ranges[i];
      assert r in ranges;
      var x := if r.first < SURROGATE_FIRST then SURROGATE_FIRST else r.first;
      assert Has(r, x) ==> In(ranges, x);
      assert IsSurrogate(x) ==> !In(ranges, x);
    }
  }

  /** The strings decode to the ranges of a compact, surrogate-free prefix. */
  ghost predicate Decoded(encoded: seq<string>, ranges: seq<Range>) {
    && Compact(ranges) && (forall i | 0 <= i < |ranges| :: NoSurrogate(ranges[i]))
    && EncodedRanges(ranges) == encoded
  }

  /** scripts/generate_unicode13_repertoire.py `_ranges_from_manifest`, on the list of ranges. */
  method RangesFromManifest(encoded: seq<string>) returns (r: Result<seq<Range>, ManifestError>)
    ensures r.Ok? ==> Publishable(r.value) && EncodedRanges(r.value) == encoded
    ensures forall ranges | Publishable(ranges) && EncodedRanges(ranges) == encoded :: r == Ok(ranges)
  {
    if encoded == [] {
      return Err(EmptyList);
    }
    var ranges: seq<Range> := [];
    assert Decoded([], ranges);
    assert encoded[..0] == [];
    for i := 0 to |encoded|
      invariant Decoded(encoded[..i], ranges)
    {
      DecodedOnly(encoded, i, ranges);
      if !WellFormed(encoded[i]) {
        return Err(NotCanonical);
      }
      var range := DecodedRange(encoded[i]);
      if !(0 <= range.first <= range.last <= MAX_SCALAR) {
        return Err(OutOfBounds);
      }
      if range.first <= SURROGATE_LAST && range.last >= SURROGATE_FIRST {
        return Err(HasSurrogate);
      }
      if ranges != [] && range.first <= ranges[|ranges| - 1].last + 1 {
        return Err(NotCompact);
      }
      DecodedMore(encoded, i, ranges, range);
      ranges := ranges + [range];
    }
    assert encoded[..|encoded|] == encoded;
    EncodingInjective(ranges);
    return Ok(ranges);
  }

  lemma DecodedMore(encoded: seq<string>, i: nat, ranges: seq<Range>, range: Range)
    requires i < |encoded| && Decoded(encoded[..i], ranges) && WellFormed(encoded[i]) &&
              range == DecodedRange(encoded[i])
    requires InBounds(range) && NoSurrogate(range) && (ranges != [] ==> ranges[|ranges| - 1].last + 1 < range.first)
    ensures Decoded(encoded[..i + 1], ranges + [range])
  {
    DecodeThenEncode(encoded[i]);
    hide EncodedRange, DecodedRange, WellFormed;
    var more := ranges + [range];
    forall j, k | 0 <= j < k < |more| ensures more[j].last + 1 < more[k].first {
      if k == |ranges| && j < |ranges| - 1 {
        assert ranges[j].last + 1 < ranges[|ranges| - 1].first;
      }
    }
    assert EncodedRanges(more) == encoded[..i + 1];
  }

  /** Whatever list encodes to `encoded` begins with the ranges decoded so far, and its next range passes the checks. */
  lemma DecodedOnly(encoded: seq<string>, i: nat, ranges: seq<Range>)
    requires i < |encoded| && Decoded(encoded[..i], ranges)
    ensures forall others | Publishable(others) && EncodedRanges(others) == encoded ::
              && WellFormed(encoded[i]) && InBounds(DecodedRange(encoded[i])) && NoSurrogate(DecodedRange(encoded[i]))
              && (ranges != [] ==> ranges[|ranges| - 1].last + 1 < DecodedRange(encoded[i]).first)
  {
    forall others | Publishable(others) && EncodedRanges(others) == encoded
      ensures WellFormed(encoded[i]) && DecodedRange(encoded[i]) == others[i]
      ensures ranges != [] ==> ranges[|ranges| - 1] == others[i - 1]
    {
      hide EncodedRange, DecodedRange, WellFormed;
      assert encoded[i] == EncodedRange(others[i]);
      EncodeThenDecode(others[i]);
      if ranges != [] {
        assert |ranges| == i && encoded[..i][i - 1] == encoded[i - 1];
        assert EncodedRanges(ranges)[i - 1] == EncodedRange(ranges[i - 1]);
        assert EncodedRanges(others)[i - 1] == EncodedRange(others[i - 1]);
        EncodeThenDecode(others[i - 1]);
        EncodeThenDecode(ranges[i - 1]);
      }
    }
  }

  lemma EncodingInjective(ranges: seq<Range>)
    requires forall i | 0 <= i < |ranges| :: InBounds(ranges[i])
    ensures forall others | Publishable(others) && EncodedRanges(others) == EncodedRanges(ranges) :: others == ranges
  {
    forall others | Publishable(others) && EncodedRanges(others) == EncodedRanges(ranges) ensures others == ranges {
      assert |others| == |EncodedRanges(others)| == |ranges|;
      forall i | 0 <= i < |ranges| ensures others[i] == ranges[i] {
        assert EncodedRanges(others)[i] == EncodedRanges(ranges)[i];
        EncodeThenDecode(others[i]);
        EncodeThenDecode(ranges[i]);
      }
    }
  }

  // ----- the generated membership tests

  lemma FoundByBisection(ranges: seq<Range>, low: nat, scalar: int)
    requires Compact(ranges) && low <= |ranges|
    requires (forall i | 0 <= i < low :: ranges[i].last < scalar) &&
              (forall i | low <= i < |ranges| :: ranges[i].last >= scalar)
    ensures In(ranges, scalar) <==> low < |ranges| && ranges[low].first <= scalar
  {
    if low < |ranges| && ranges[low].first <= scalar {
      assert Has(ranges[low], scalar) && ranges[low] in ranges;
    }
    if In(ranges, scalar) {
      var r :| r in ranges && Has(r, scalar);
      var i :| 0 <= i < |ranges| && ranges[i] == r;
      assert i >= low;
      assert i > low ==> ranges[low].last + 1 < ranges[i].first;
    }
  }

  lemma LastsAscend(ranges: seq<Range>)
    requires Compact(ranges)
    ensures forall i, j | 0 <= i < j < |ranges| :: ranges[i].last < ranges[j].last
  {
  }

  /** The generated Python function: its own bisection. */
  method IsRepertoirePython(ranges: seq<Range>, value: seq<int>) returns (r: bool)
    requires Compact(ranges)
    ensures r <==> forall scalar | scalar in value :: In(ranges, scalar)
  {
    LastsAscend(ranges);
    for i := 0 to |value|
      invariant forall j | 0 <= j < i :: In(ranges, value[j])
    {
      var scalar := value[i];
      var low, high := 0, |ranges|;
      while low < high
        invariant 0 <= low <= high <= |ranges|
        invariant forall k | 0 <= k < low :: ranges[k].last < scalar
        invariant forall k | high <= k < |ranges| :: ranges[k].last >= scalar
      {
        var middle := (low + high) / 2;
        if ranges[middle].last < scalar {
          low := middle + 1;
        } else {
          high := middle;
        }
      }
      FoundByBisection(ranges, low, scalar);
      if low == |ranges| || ranges[low].first > scalar {
        assert value[i] in value;
        return false;
      }
    }
    return true;
  }

  /** Go's `sort.Search`: the least index at which `holds` is true, when it stays true from there. */
  method SortSearch(n: nat, holds: int -> bool) returns (index: nat)
    requires forall i, j | 0 <= i < j < n && holds(i) :: holds(j)
    ensures index <= n
    ensures forall i | 0 <= i < index :: !holds(i)
    ensures forall i | index <= i < n :: holds(i)
  {
    var i, j := 0, n;
    while i < j
      invariant 0 <= i <= j <= n
      invariant forall k | 0 <= k < i :: !holds(k)
      invariant forall k | j <= k < n :: holds(k)
    {
      var h := (i + j) / 2;
      if !holds(h) {
        i := h + 1;
      } else {
        j := h;
      }
    }
    return i;
  }

  /** The generated Go function: `sort.Search` on the ends of the ranges. */
  method IsRepertoireGo(ranges: seq<Range>, value: seq<int>) returns (r: bool)
    requires Compact(ranges)
    ensures r <==> forall scalar | scalar in value :: In(ranges, scalar)
  {
    LastsAscend(ranges);
    for i := 0 to |value|
      invariant forall j | 0 <= j < i :: In(ranges, value[j])
    {
      var scalar := value[i];
      var reaches := (index: int) => 0 <= index < |ranges| && ranges[index].last >= scalar;
      var index := SortSearch(|ranges|, reaches);
      forall k | 0 <= k < index ensures ranges[k].last < scalar {
        assert !reaches(k);
      }
      forall k | index <= k < |ranges| ensures ranges[k].last >= scalar {
        assert reaches(k);
      }
      FoundByBisection(ranges, index, scalar);
      if index == |ranges| || ranges[index].first > scalar {
        assert value[i] in value;
        return false;
      }
    }
    return true;
  }
}
