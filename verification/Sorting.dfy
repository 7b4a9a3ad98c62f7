/**
 Python's `sorted` as a function (a stable insertion sort), the facts about it the models need, and
 the code-point order of strings.
 */
module Sorting {

  ghost predicate TotalPreorder<T(!new)>(leq: (T, T) -> bool) {
    && (forall x, y :: leq(x, y) || leq(y, x))
    && (forall x, y, z :: leq(x, y) && leq(y, z) ==> leq(x, z))
  }

  ghost predicate SortedBy<T>(xs: seq<T>, leq: (T, T) -> bool) {
    forall i, j | 0 <= i < j < |xs| :: leq(xs[i], xs[j])
  }

  /** Inserts `x` before the first element that is strictly greater. */
  function Insert<T>(x: T, xs: seq<T>, leq: (T, T) -> bool): (r: seq<T>)
    ensures |r| == |xs| + 1
    ensures multiset(r) == multiset(xs) + multiset{x}
  {
    if xs == [] then [x]
    else if leq(xs[0], x) then
      assert xs == [xs[0]] + xs[1..];
      [xs[0]] + Insert(x, xs[1..], leq)
    else [x] + xs
  }

  /** The stable ascending order of `xs`. */
  function SortBy<T>(xs: seq<T>, leq: (T, T) -> bool): (r: seq<T>)
    ensures |r| == |xs|
    ensures multiset(r) == multiset(xs)
  {
    if xs == [] then []
    else
      assert xs == xs[..|xs| - 1] + [xs[|xs| - 1]];
      Insert(xs[|xs| - 1], SortBy(xs[..|xs| - 1], leq), leq)
  }

  lemma SameElements<T>(xs: seq<T>, ys: seq<T>)
    requires multiset(xs) == multiset(ys)
    ensures |xs| == |ys|
    ensures forall x :: x in xs <==> x in ys
  {
    assert |multiset(xs)| == |multiset(ys)|;
    forall x ensures x in xs <==> x in ys {
      assert x in multiset(xs) <==> x in multiset(ys);
    }
  }

  lemma {:induction false} InsertSorted<T(!new)>(x: T, xs: seq<T>, leq: (T, T) -> bool)
    requires TotalPreorder(leq) && SortedBy(xs, leq)
    ensures SortedBy(Insert(x, xs, leq), leq)
  {
    if xs != [] && leq(xs[0], x) {
      InsertSorted(x, xs[1..], leq);
      var tail := Insert(x, xs[1..], leq);
      forall k | 0 <= k < |tail| ensures leq(xs[0], tail[k]) {
        assert tail[k] in multiset(tail);
        assert tail[k] in multiset(xs[1..]) + multiset{x};
      }
    } else if xs != [] {
      assert leq(x, xs[0]);
    }
  }

  lemma {:induction false} SortBySorted<T(!new)>(xs: seq<T>, leq: (T, T) -> bool)
    requires TotalPreorder(leq)
    ensures SortedBy(SortBy(xs, leq), leq)
  {
    if xs != [] {
      SortBySorted(xs[..|xs| - 1], leq);
      InsertSorted(xs[|xs| - 1], SortBy(xs[..|xs| - 1], leq), leq);
    }
  }

  lemma SortedHead<T>(xs: seq<T>, ys: seq<T>, leq: (T, T) -> bool)
    requires SortedBy(xs, leq) && xs != [] && ys != [] && ys[0] in xs && leq(ys[0], ys[0])
    ensures leq(xs[0], ys[0])
  {
    var j :| 0 <= j < |xs| && xs[j] == ys[0];
  }

  /** A sorted list is determined by its elements when equivalent elements are equal. */
  lemma {:induction false} SortedUnique<T>(xs: seq<T>, ys: seq<T>, leq: (T, T) -> bool)
    requires SortedBy(xs, leq) && SortedBy(ys, leq)
    requires multiset(xs) == multiset(ys)
    requires forall x | x in xs :: leq(x, x)
    requires forall x, y | x in xs && y in xs && leq(x, y) && leq(y, x) :: x == y
    ensures xs == ys
  {
    SameElements(xs, ys);
    if xs != [] {
      assert xs[0] in ys && ys[0] in xs;
      SortedHead(xs, ys, leq);
      SortedHead(ys, xs, leq);
      SortedTail(xs, leq);
      SortedTail(ys, leq);
      SortedUnique(xs[1..], ys[1..], leq);
    }
  }

  lemma SortedTail<T>(xs: seq<T>, leq: (T, T) -> bool)
    requires SortedBy(xs, leq) && xs != []
    ensures SortedBy(xs[1..], leq)
    ensures xs == [xs[0]] + xs[1..]
    ensures multiset(xs[1..]) == multiset(xs) - multiset{xs[0]}
    ensures forall x | x in xs[1..] :: x in xs
  {
    assert xs == [xs[0]] + xs[1..];
  }

  /** The order of two lists with the same elements does not show in the sorted list. */
  lemma SortIgnoresOrder<T(!new)>(xs: seq<T>, ys: seq<T>, leq: (T, T) -> bool)
    requires TotalPreorder(leq)
    requires multiset(xs) == multiset(ys)
    requires forall x, y :: x in xs && y in xs && leq(x, y) && leq(y, x) ==> x == y
    ensures SortBy(xs, leq) == SortBy(ys, leq)
  {
    SortBySorted(xs, leq);
    SortBySorted(ys, leq);
    SameElements(SortBy(xs, leq), xs);
    SortedUnique(SortBy(xs, leq), SortBy(ys, leq), leq);
  }

  /** Code-point order of strings. */
  predicate TextLeq(a: string, b: string) {
    a == "" || (b != "" && (a[0] < b[0] || (a[0] == b[0] && TextLeq(a[1..], b[1..]))))
  }

  lemma {:induction false} TextLeqTotal(a: string, b: string)
    ensures TextLeq(a, b) || TextLeq(b, a)
    ensures TextLeq(a, b) && TextLeq(b, a) ==> a == b
  {
    if a != "" && b != "" && a[0] == b[0] {
      TextLeqTotal(a[1..], b[1..]);
      assert a == [a[0]] + a[1..] && b == [b[0]] + b[1..];
    }
  }

  lemma {:induction false} TextLeqTransitive(a: string, b: string, c: string)
    requires TextLeq(a, b) && TextLeq(b, c)
    ensures TextLeq(a, c)
  {
    if a != "" && a[0] == b[0] && b[0] == c[0] {
      TextLeqTransitive(a[1..], b[1..], c[1..]);
    }
  }

  /** Position `k` is the first at which the texts differ, and `a` has the smaller character there. */
  ghost predicate SmallerAt(a: string, b: string, k: nat) {
    k < |a| && k < |b| && a[..k] == b[..k] && a[k] < b[k]
  }

  lemma StartsNoLarger(a: string, b: string, k: nat)
    requires SmallerAt(a, b, k)
    ensures a[0] <= b[0]
  {
    if k > 0 {
      assert a[0] == a[..k][0] && b[0] == b[..k][0];
    }
  }

  /** Texts are compared by their first different characters, and a text comes after its beginnings. */
  lemma {:induction false} TextLeqMeans(a: string, b: string)
    ensures TextLeq(a, b) <==> a <= b || exists k: nat :: SmallerAt(a, b, k)
  {
    forall k: nat | SmallerAt(a, b, k) ensures a[0] <= b[0] {
      StartsNoLarger(a, b, k);
    }
    if a != "" && b != "" {
      if a[0] < b[0] {
        assert SmallerAt(a, b, 0);
      } else if a[0] == b[0] {
        var x, y := a[1..], b[1..];
        TextLeqMeans(x, y);
        assert a == [a[0]] + x && b == [b[0]] + y;
        if exists k: nat :: SmallerAt(x, y, k) {
          var k: nat :| SmallerAt(x, y, k);
          assert a[..k + 1] == [a[0]] + x[..k] && b[..k + 1] == [b[0]] + y[..k];
          assert SmallerAt(a, b, k + 1);
        }
        forall k: nat | SmallerAt(a, b, k) ensures exists j: nat :: SmallerAt(x, y, j) {
          assert x[..k - 1] == a[..k][1..] && y[..k - 1] == b[..k][1..];
          assert SmallerAt(x, y, k - 1);
        }
      }
    }
  }

  lemma TextLeqIsOrder()
    ensures TotalPreorder(TextLeq)
    ensures forall a, b :: TextLeq(a, b) && TextLeq(b, a) ==> a == b
  {
    forall a, b ensures TextLeq(a, b) || TextLeq(b, a) { TextLeqTotal(a, b); }
    forall a, b, c | TextLeq(a, b) && TextLeq(b, c) ensures TextLeq(a, c) {
      TextLeqTransitive(a, b, c);
    }
    forall a, b | TextLeq(a, b) && TextLeq(b, a) ensures a == b { TextLeqTotal(a, b); }
  }

  // ----- lists without repetition

  predicate Distinct<T(==)>(xs: seq<T>) {
    forall i, j | 0 <= i < j < |xs| :: xs[i] != xs[j]
  }

  lemma {:induction false} DistinctCount<T>(xs: seq<T>, x: T)
    requires Distinct(xs)
    ensures multiset(xs)[x] == if x in xs then 1 else 0
  {
    if xs != [] {
      var init, last := xs[..|xs| - 1], xs[|xs| - 1];
      assert xs == init + [last];
      DistinctCount(init, x);
    }
  }

  lemma RepeatedCount<T>(xs: seq<T>, i: nat, j: nat)
    requires i < j < |xs| && xs[i] == xs[j]
    ensures multiset(xs)[xs[i]] >= 2
  {
    assert xs == xs[..j] + [xs[j]] + xs[j + 1..];
    assert xs[i] in xs[..j] by { assert xs[..j][i] == xs[i]; }
  }

  /** A permutation of a list without repetition has none. */
  lemma PermutationDistinct<T>(xs: seq<T>, ys: seq<T>)
    requires multiset(xs) == multiset(ys) && Distinct(xs)
    ensures Distinct(ys)
  {
    forall i, j | 0 <= i < j < |ys| ensures ys[i] != ys[j] {
      if ys[i] == ys[j] {
        RepeatedCount(ys, i, j);
        DistinctCount(xs, ys[i]);
        assert false;
      }
    }
  }

  predicate Ascending(xs: seq<string>) {
    forall i, j | 0 <= i < j < |xs| :: TextLeq(xs[i], xs[j]) && xs[i] != xs[j]
  }

  lemma NonemptyTogether(xs: seq<string>, ys: seq<string>)
    requires forall x :: x in xs <==> x in ys
    ensures xs == [] <==> ys == []
  {
    var some := if xs != [] then xs[0] else if ys != [] then ys[0] else "";
    assert xs != [] ==> some in xs;
    assert xs == [] && ys != [] ==> some in ys;
  }

  /** A strictly ascending list of strings is determined by which strings are in it. */
  lemma {:induction false} AscendingUnique(xs: seq<string>, ys: seq<string>)
    requires Ascending(xs) && Ascending(ys)
    requires forall x :: x in xs <==> x in ys
    ensures xs == ys
  {
    NonemptyTogether(xs, ys);
    if xs != [] {
      assert xs[0] in ys;
      assert ys[0] in xs;
      var i :| 0 <= i < |ys| && ys[i] == xs[0];
      var j :| 0 <= j < |xs| && xs[j] == ys[0];
      TextLeqTotal(xs[0], ys[0]);
      assert xs[0] == ys[0];
      forall x ensures x in xs[1..] <==> x in ys[1..] {
        assert x in xs <==> x == xs[0] || x in xs[1..];
        assert x in ys <==> x == ys[0] || x in ys[1..];
        assert xs[0] !in xs[1..] && ys[0] !in ys[1..];
      }
      AscendingUnique(xs[1..], ys[1..]);
    }
  }

  // ----- sets of strings in order

  predicate IsLeast(s: set<string>, x: string) {
    x in s && forall y | y in s :: TextLeq(x, y)
  }

  lemma {:induction false} LeastExists(s: set<string>)
    requires s != {}
    ensures exists x :: IsLeast(s, x)
  {
    hide IsLeast;
    var z :| z in s;
    var others := s - {z};
    if others == {} {
      LeastOfOne(s, z);
    } else {
      LeastExists(others);
      var x :| IsLeast(others, x);
      LeastOfMore(s, z, x);
    }
  }

  lemma LeastOfOne(s: set<string>, z: string)
    requires z in s && s - {z} == {}
    ensures IsLeast(s, z)
  {
    TextLeqTotal(z, z);
    assert forall y | y in s :: y !in s - {z};
    hide TextLeq;
  }

  lemma LeastOfMore(s: set<string>, z: string, x: string)
    requires z in s && IsLeast(s - {z}, x)
    ensures IsLeast(s, if TextLeq(z, x) then z else x)
  {
    TextLeqTotal(z, x);
    TextLeqTotal(z, z);
    hide TextLeq;
    var least := if TextLeq(z, x) then z else x;
    forall y | y in s ensures TextLeq(least, y) {
      if y != z {
        assert y in s - {z};
        if TextLeq(z, x) {
          TextLeqTransitive(z, x, y);
        }
      }
    }
  }

  function Least(s: set<string>): (x: string)
    requires s != {}
    ensures IsLeast(s, x)
  {
    LeastExists(s);
    TextLeqIsOrder();
    var x :| IsLeast(s, x);
    x
  }

  /** Python's `sorted` of a set of strings. */
  function SortedSet(s: set<string>): (r: seq<string>)
    ensures Ascending(r)
    ensures forall x :: x in r <==> x in s
  {
    if s == {} then []
    else
      var x := Least(s);
      var others := SortedSet(s - {x});
      assert others != [] ==> others[0] in others;
      assert forall i | 0 <= i < |others| :: others[i] in others;
      [x] + others
  }

  lemma {:induction false} SortedSetSize(s: set<string>)
    ensures |SortedSet(s)| == |s|
  {
    if s != {} {
      SortedSetSize(s - {Least(s)});
    }
  }

  /** A list without repetition is as long as its set. */
  lemma {:induction false} DistinctSize<T>(xs: seq<T>, s: set<T>)
    requires Distinct(xs) && forall x :: x in xs <==> x in s
    ensures |xs| == |s|
  {
    if xs == [] {
      assert s == {};
    } else {
      var front, last := xs[..|xs| - 1], xs[|xs| - 1];
      assert xs == front + [last];
      assert last !in front;
      DistinctSize(front, s - {last});
    }
  }
}
