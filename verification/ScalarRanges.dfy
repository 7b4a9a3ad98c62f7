/**
 scripts/generate_unicode13_repertoire.py: the compacted list of scalar ranges of a Unicode version, its
 manifest encoding, and the membership tests generated from it.
 */
module ScalarRanges {
  import opened Outcomes
  import opened Sorting

  datatype Range = Range(first: int, last: int)

  /** A code point range with its age, a version of any length. */
  datatype Entry = Entry(age: seq<int>, range: Range)

  datatype RangeError = InvalidRange | Overlapping

  const SURROGATE_FIRST := 0xD800
  const SURROGATE_LAST := 0xDFFF
  const MAX_SCALAR := 0x10FFFF
  const NEWEST := [13, 0]

  predicate IsSurrogate(x: int) {
    SURROGATE_FIRST <= x <= SURROGATE_LAST
  }

  predicate Has(r: Range, x: int) {
    r.first <= x <= r.last
  }

  /** The code point is in one of the ranges. */
  ghost predicate In(ranges: seq<Range>, x: int) {
    exists r | r in ranges :: Has(r, x)
  }

  /** Python's order of tuples. */
  predicate Later(a: seq<int>, b: seq<int>) {
    a != [] && (b == [] || a[0] > b[0] || (a[0] == b[0] && Later(a[1..], b[1..])))
  }

  predicate RangeLeq(a: Range, b: Range) {
    a.first < b.first || (a.first == b.first && a.last <= b.last)
  }

  /** The scalar parts of a code point range. */
  function Pieces(r: Range): seq<Range> {
    (if r.first < SURROGATE_FIRST
     then [Range(r.first, if r.last < SURROGATE_FIRST - 1 then r.last else SURROGATE_FIRST - 1)] else [])
    + (if r.last > SURROGATE_LAST
       then [Range(if r.first > SURROGATE_LAST + 1 then r.first else SURROGATE_LAST + 1, r.last)] else [])
  }

  /** The pieces of the admitted entries. */
  function Admitted(entries: seq<Entry>): seq<Range> {
    if entries == [] then []
    else
      var n := |entries| - 1;
      Admitted(entries[..n]) + if Later(entries[n].age, NEWEST) then [] else Pieces(entries[n].range)
  }

  predicate InBounds(r: Range) {
    0 <= r.first <= r.last <= MAX_SCALAR
  }

  predicate Apart(a: Range, b: Range) {
    a.last < b.first || b.last < a.first
  }

  /** Valid ranges that do not overlap. */
  ghost predicate Disjoint(ranges: seq<Range>) {
    && (forall r | r in ranges :: InBounds(r))
    && Distinct(ranges)
    && forall a, b | a in ranges && b in ranges && a != b :: Apart(a, b)
  }

  /** In order, and with a gap between neighbours. */
  ghost predicate Compact(ranges: seq<Range>) {
    && (forall i | 0 <= i < |ranges| :: InBounds(ranges[i]))
    && forall i, j | 0 <= i < j < |ranges| :: ranges[i].last + 1 < ranges[j].first
  }

  ghost predicate NoSurrogates(ranges: seq<Range>) {
    forall x | IsSurrogate(x) :: !In(ranges, x)
  }

  // ----- merging

  lemma InMore(ranges: seq<Range>, r: Range, x: int)
    ensures In(ranges + [r], x) <==> In(ranges, x) || Has(r, x)
  {
    assert forall s :: s in ranges + [r] <==> s in ranges || s == r;
  }

  lemma RangeOrder()
    ensures TotalPreorder(RangeLeq)
  {
  }

  /** The state of the merge after the sorted pieces `done`. */
  ghost predicate Merging(done: seq<Range>, merged: seq<Range>) {
    && Compact(merged)
    && (forall x :: In(merged, x) <==> In(done, x))
    && (done == [] <==> merged == [])
    && (done != [] ==> merged[|merged| - 1].last == done[|done| - 1].last)
  }

  lemma MergeApart(done: seq<Range>, merged: seq<Range>, r: Range)
    requires Merging(done, merged) && InBounds(r) && (merged != [] ==> merged[|merged| - 1].last + 1 < r.first)
    ensures Merging(done + [r], merged + [r])
  {
    forall x ensures In(merged + [r], x) <==> In(done + [r], x) {
      InMore(done, r, x);
      InMore(merged, r, x);
    }
    hide In;
    forall i, j | 0 <= i < j < |merged| + 1 ensures (merged + [r])[i].last + 1 < (merged + [r])[j].first {
      if j == |merged| && i < |merged| - 1 {
        assert merged[i].last + 1 < merged[|merged| - 1].first;
      }
    }
  }

  lemma MergeAdjacent(done: seq<Range>, merged: seq<Range>, r: Range)
    requires Merging(done, merged) && InBounds(r) && merged != [] && merged[|merged| - 1].last + 1 == r.first
    ensures var joined := Range(merged[|merged| - 1].first, r.last);
            Merging(done + [r], merged[..|merged| - 1] + [joined])
  {
    var front, tail := merged[..|merged| - 1], merged[|merged| - 1];
    var joined := Range(tail.first, r.last);
    assert merged == front + [tail];
    forall x ensures In(front + [joined], x) <==> In(done + [r], x) {
      InMore(done, r, x);
      InMore(front, tail, x);
      InMore(front, joined, x);
    }
    hide In;
    assert Compact(front + [joined]);
  }

  lemma AdmittedMore(entries: seq<Entry>, i: nat)
    requires i < |entries|
    ensures Admitted(entries[..i + 1]) ==
            Admitted(entries[..i]) + if Later(entries[i].age, NEWEST) then [] else Pieces(entries[i].range)
  {
    assert entries[..i + 1][..i] == entries[..i];
  }

  /** scripts/generate_unicode13_repertoire.py `_parse_ranges`. */
  method ParseRanges(entries: seq<Entry>) returns (r: Result<seq<Range>, RangeError>)
    ensures r.Ok? <==> Disjoint(Admitted(entries))
    ensures r.Ok? ==> Compact(r.value) && forall x :: In(r.value, x) <==> In(Admitted(entries), x)
  {
    var ranges: seq<Range> := [];
    assert entries[..0] == [];
    assert Admitted([]) == [];
    hide Admitted, Disjoint, Compact, In, InTurn, SortBy, RangeLeq;
    for i := 0 to |entries|
      invariant ranges == Admitted(entries[..i])
    {
      AdmittedMore(entries, i);
      if !Later(entries[i].age, NEWEST) {
        var range := entries[i].range;
        var pieces: seq<Range> := [];
        if range.first < SURROGATE_FIRST {
          pieces := pieces + [Range(range.first,
              if range.last < SURROGATE_FIRST - 1 then range.last else SURROGATE_FIRST - 1)];
        }
        if range.last > SURROGATE_LAST {
          pieces := pieces + [Range(if range.first > SURROGATE_LAST + 1 then range.first else SURROGATE_LAST + 1,
              range.last)];
        }
        assert pieces == Pieces(range);
        ranges := ranges + pieces;
      }
    }
    assert entries[..|entries|] == entries;
    SortedDisjoint(ranges);
    r := Merge(SortBy(ranges, RangeLeq));
  }

  method Merge(ranges: seq<Range>) returns (r: Result<seq<Range>, RangeError>)
    requires SortedBy(ranges, RangeLeq)
    ensures r.Ok? <==> InTurn(ranges)
    ensures r.Ok? ==> Compact(r.value) && forall x :: In(r.value, x) <==> In(ranges, x)
  {
    var merged: seq<Range> := [];
    assert Merging([], merged);
    assert ranges[..0] == [];
    for i := 0 to |ranges|
      invariant Merging(ranges[..i], merged) && InTurn(ranges[..i])
    {
      var range := ranges[i];
      assert ranges[..i + 1] == ranges[..i] + [range];
      if !(0 <= range.first <= range.last <= MAX_SCALAR) {
        return Err(InvalidRange);
      }
      if merged != [] && range.first <= merged[|merged| - 1].last {
        return Err(Overlapping);
      }
      if merged != [] && range.first == merged[|merged| - 1].last + 1 {
        MergeAdjacent(ranges[..i], merged, range);
        merged := merged[..|merged| - 1] + [Range(merged[|merged| - 1].first, range.last)];
      } else {
        MergeApart(ranges[..i], merged, range);
        merged := merged + [range];
      }
    }
    assert ranges[..|ranges|] == ranges;
    return Ok(merged);
  }

  /** Each range is valid and begins after the one before it ends. */
  ghost predicate InTurn(ranges: seq<Range>) {
    && (forall i | 0 <= i < |ranges| :: InBounds(ranges[i]))
    && forall i | 0 <= i < |ranges| - 1 :: ranges[i].last < ranges[i + 1].first
  }

  lemma {:induction false} InTurnFar(ranges: seq<Range>, i: nat, j: nat)
    requires InTurn(ranges) && i < j < |ranges|
    ensures ranges[i].last < ranges[j].first
  {
    if i < j - 1 {
      InTurnFar(ranges, i, j - 1);
    }
  }

  lemma InTurnDisjoint(ranges: seq<Range>)
    requires InTurn(ranges)
    ensures Disjoint(ranges)
  {
    forall i, j | 0 <= i < j < |ranges| ensures ranges[i].last < ranges[j].first && ranges[i] != ranges[j] {
      InTurnFar(ranges, i, j);
    }
    forall a, b | a in ranges && b in ranges && a != b ensures Apart(a, b) {
      var i :| 0 <= i < |ranges| && ranges[i] == a;
      var j :| 0 <= j < |ranges| && ranges[j] == b;
    }
  }

  lemma DisjointInTurn(ranges: seq<Range>)
    requires Disjoint(ranges) && SortedBy(ranges, RangeLeq)
    ensures InTurn(ranges)
  {
    forall i | 0 <= i < |ranges| ensures InBounds(ranges[i]) {
      assert ranges[i] in ranges;
    }
    forall i | 0 <= i < |ranges| - 1 ensures ranges[i].last < ranges[i + 1].first {
      var a, b := ranges[i], ranges[i + 1];
      assert a in ranges && b in ranges && a != b && RangeLeq(a, b);
      assert Apart(a, b) && InBounds(a) && InBounds(b);
    }
  }

  lemma SameMembers(xs: seq<Range>, ys: seq<Range>)
    requires forall r :: r in xs <==> r in ys
    ensures forall x :: In(xs, x) <==> In(ys, x)
  {
  }

  lemma PermutedDisjoint(xs: seq<Range>, ys: seq<Range>)
    requires multiset(xs) == multiset(ys) && (forall r :: r in xs <==> r in ys) && Disjoint(xs)
    ensures Disjoint(ys)
  {
    PermutationDistinct(xs, ys);
  }

  lemma SortedDisjoint(ranges: seq<Range>)
    ensures var sorted := SortBy(ranges, RangeLeq);
            && SortedBy(sorted, RangeLeq)
            && (InTurn(sorted) <==> Disjoint(ranges))
            && forall x :: In(sorted, x) <==> In(ranges, x)
  {
    RangeOrder();
    SortBySorted(ranges, RangeLeq);
    var sorted := SortBy(ranges, RangeLeq);
    SameElements(sorted, ranges);
    hide SortBy, In, Disjoint, InTurn, SortedBy, RangeLeq;
    SameMembers(sorted, ranges);
    if InTurn(sorted) {
      InTurnDisjoint(sorted);
      PermutedDisjoint(sorted, ranges);
    }
    if Disjoint(ranges) {
      PermutedDisjoint(ranges, sorted);
      DisjointInTurn(sorted);
    }
  }

  // ----- what the ranges denote

  lemma PiecesDenote(r: Range, x: int)
    ensures In(Pieces(r), x) <==> Has(r, x) && !IsSurrogate(x)
  {
    if Has(r, x) && x < SURROGATE_FIRST {
      assert Has(Pieces(r)[0], x);
    }
    if Has(r, x) && x > SURROGATE_LAST {
      assert Has(Pieces(r)[|Pieces(r)| - 1], x);
    }
  }

  /** The code point is in an entry of an admitted age. */
  ghost predicate InAdmitted(entries: seq<Entry>, x: int) {
    exists e | e in entries :: !Later(e.age, NEWEST) && Has(e.range, x)
  }

  lemma InJoined(a: seq<Range>, b: seq<Range>, x: int)
    ensures In(a + b, x) <==> In(a, x) || In(b, x)
  {
    assert forall r :: r in a + b <==> r in a || r in b;
  }

  /** The pieces hold exactly the admitted scalar values. */
  lemma {:induction false} AdmittedDenote(entries: seq<Entry>, x: int)
    ensures In(Admitted(entries), x) <==> InAdmitted(entries, x) && !IsSurrogate(x)
  {
    if entries != [] {
      var n := |entries| - 1;
      var front, e := entries[..n], entries[n];
      assert entries == front + [e];
      assert forall f :: f in entries <==> f in front || f == e;
      AdmittedDenote(front, x);
      PiecesDenote(e.range, x);
      InJoined(Admitted(front), Pieces(e.range), x);
      assert Admitted(front) + [] == Admitted(front);
    }
  }

  // ----- when a parse succeeds, on the entries themselves

  /** The range holds scalars only, or only surrogates, or both; if it holds a scalar it is not reversed. */
  predicate Proper(r: Range) {
    (r.first >= 0xD800 && r.last <= 0xDFFF) || 0 <= r.first <= r.last <= 0x10FFFF
  }

  /** An age of at most 13.0. */
  predicate AtMost13(age: seq<int>) {
    || age == [] || age[0] < 13
    || (age[0] == 13 && (|age| == 1 || age[1] < 0 || (age[1] == 0 && |age| == 2)))
  }

  lemma AtMost13Iff(age: seq<int>)
    ensures AtMost13(age) <==> !Later(age, NEWEST)
  {
    if age != [] {
      assert Later(age, NEWEST) <==> age[0] > 13 || (age[0] == 13 && Later(age[1..], [0]));
      if |age| > 1 {
        assert Later(age[1..], [0]) <==> age[1] > 0 || (age[1] == 0 && Later(age[1..][1..], []));
      }
    }
  }

  /** Entry `i` is admitted and holds the scalar `x`. */
  predicate Admits(entries: seq<Entry>, i: nat, x: int) {
    && i < |entries| && AtMost13(entries[i].age)
    && entries[i].range.first <= x <= entries[i].range.last && !(0xD800 <= x <= 0xDFFF)
  }

  ghost predicate NoOverlap(entries: seq<Entry>) {
    forall i: nat, j: nat, x | i < j && Admits(entries, i, x) :: !Admits(entries, j, x)
  }

  ghost predicate AllProper(entries: seq<Entry>) {
    forall e | e in entries && AtMost13(e.age) :: Proper(e.range)
  }

  ghost predicate AllApart(a: seq<Range>, b: seq<Range>) {
    forall r, s | r in a && s in b :: Apart(r, s)
  }

  lemma DisjointJoined(a: seq<Range>, b: seq<Range>)
    ensures Disjoint(a + b) <==> Disjoint(a) && Disjoint(b) && AllApart(a, b)
  {
    assert forall r :: r in a + b <==> r in a || r in b;
    DistinctJoined(a, b);
    hide Distinct;
    if Disjoint(a + b) {
      forall r, s | r in a && s in b ensures Apart(r, s) {
        assert r != s;
      }
    }
    assert forall r | InBounds(r) :: !Apart(r, r);
  }

  lemma DistinctJoined(a: seq<Range>, b: seq<Range>)
    ensures Distinct(a + b) <==> Distinct(a) && Distinct(b) && forall r | r in a :: r !in b
  {
    var all := a + b;
    assert forall i | 0 <= i < |a| :: all[i] == a[i];
    assert forall j | |a| <= j < |all| :: all[j] == b[j - |a|];
    assert forall i | 0 <= i < |a| :: all[i] in a;
    assert forall j | |a| <= j < |all| :: all[j] in b;
    if Distinct(all) {
      forall i, j | 0 <= i < |a| && 0 <= j < |b| ensures a[i] != b[j] {
        assert all[|a| + j] == b[j];
      }
      forall i, j | 0 <= i < j < |b| ensures b[i] != b[j] {
        assert all[|a| + i] == b[i] && all[|a| + j] == b[j];
      }
    } else if forall r | r in a :: r !in b {
      var i, j :| 0 <= i < j < |all| && all[i] == all[j];
    }
  }

  lemma PiecesProper(r: Range)
    ensures Disjoint(Pieces(r)) <==> Proper(r)
  {
    var below := Range(r.first, if r.last < SURROGATE_FIRST - 1 then r.last else SURROGATE_FIRST - 1);
    var above := Range(if r.first > SURROGATE_LAST + 1 then r.first else SURROGATE_LAST + 1, r.last);
    OneDisjoint(below);
    OneDisjoint(above);
    var a, b := if r.first < SURROGATE_FIRST then [below] else [], if r.last > SURROGATE_LAST then [above] else [];
    assert Pieces(r) == a + b;
    assert Disjoint([]);
    DisjointJoined(a, b);
    hide Disjoint, Pieces;
  }

  lemma OneDisjoint(r: Range)
    ensures Disjoint([r]) <==> InBounds(r)
  {
    assert r in [r];
  }

  lemma ApartIff(a: seq<Range>, b: seq<Range>)
    requires (forall r | r in a :: InBounds(r)) && forall r | r in b :: InBounds(r)
    ensures AllApart(a, b) <==> forall x :: !In(a, x) || !In(b, x)
  {
    if forall x :: !In(a, x) || !In(b, x) {
      forall r, s | r in a && s in b ensures Apart(r, s) {
        var x := if r.first < s.first then s.first else r.first;
        assert !In(a, x) || !In(b, x);
      }
    }
  }

  lemma AdmitsIs(entries: seq<Entry>, x: int)
    ensures In(Admitted(entries), x) <==> exists i: nat :: Admits(entries, i, x)
  {
    AdmittedDenote(entries, x);
    forall age ensures AtMost13(age) <==> !Later(age, NEWEST) {
      AtMost13Iff(age);
    }
    hide In, Admitted, AtMost13, Later;
    if InAdmitted(entries, x) && !IsSurrogate(x) {
      var e :| e in entries && !Later(e.age, NEWEST) && Has(e.range, x);
      var i :| 0 <= i < |entries| && entries[i] == e;
      assert Admits(entries, i, x);
    }
    forall i: nat | Admits(entries, i, x) ensures InAdmitted(entries, x) && !IsSurrogate(x) {
      assert entries[i] in entries;
    }
  }

  lemma OverlapMore(front: seq<Entry>, e: Entry)
    ensures NoOverlap(front + [e]) <==>
              NoOverlap(front) && forall x, i: nat | Admits([e], 0, x) :: !Admits(front, i, x)
  {
    var all := front + [e];
    forall i: nat, x ensures Admits(all, i, x) <==> if i == |front| then Admits([e], 0, x) else Admits(front, i, x) {
    }
    assert forall i: nat, x | Admits(front, i, x) :: i < |front|;
    assert forall i: nat, x | Admits(all, i, x) :: i <= |front|;
    hide Admits;
    if NoOverlap(all) {
      forall i: nat, j: nat, x | i < j && Admits(front, i, x) ensures !Admits(front, j, x) {
        assert Admits(all, i, x) ==> !Admits(all, j, x);
      }
      forall x, i: nat | Admits([e], 0, x) ensures !Admits(front, i, x) {
        assert Admits(all, |front|, x);
        assert Admits(front, i, x) ==> Admits(all, i, x);
      }
    }
  }

  /** A parse succeeds exactly when the admitted ranges are proper and no scalar is in two of them. */
  lemma {:induction false} ParseIff(entries: seq<Entry>)
    ensures Disjoint(Admitted(entries)) <==> AllProper(entries) && NoOverlap(entries)
  {
    if entries != [] {
      var front, e := entries[..|entries| - 1], entries[|entries| - 1];
      assert entries == front + [e];
      ParseIff(front);
      AtMost13Iff(e.age);
      ProperMore(front, e);
      OverlapMore(front, e);
      PiecesProper(e.range);
      var pieces := if AtMost13(e.age) then Pieces(e.range) else [];
      assert Admitted(entries) == Admitted(front) + pieces;
      DisjointJoined(Admitted(front), pieces);
      assert Disjoint([]);
      hide *;
      if Disjoint(Admitted(front)) && Disjoint(pieces) {
        CrossIff(front, e, pieces);
      }
    }
  }

  lemma ProperMore(front: seq<Entry>, e: Entry)
    ensures AllProper(front + [e]) <==> AllProper(front) && (AtMost13(e.age) ==> Proper(e.range))
  {
    assert forall f :: f in front + [e] <==> f in front || f == e;
  }

  lemma CrossIff(front: seq<Entry>, e: Entry, pieces: seq<Range>)
    requires pieces == if AtMost13(e.age) then Pieces(e.range) else []
    requires Disjoint(Admitted(front)) && Disjoint(pieces)
    ensures AllApart(Admitted(front), pieces) <==> forall x, i: nat | Admits([e], 0, x) :: !Admits(front, i, x)
  {
    ApartIff(Admitted(front), pieces);
    forall x ensures In(pieces, x) <==> Admits([e], 0, x) {
      PiecesDenote(e.range, x);
      hide Pieces;
    }
    forall x ensures In(Admitted(front), x) <==> exists i: nat :: Admits(front, i, x) {
      AdmitsIs(front, x);
    }
    hide In, Admits, Admitted, Pieces, Disjoint, AllApart;
  }
}
