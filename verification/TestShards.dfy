/**
 scripts/python_test_shards.py and scripts/go_test_shards.py: deterministic, balanced shards of test
 files, longest file first.
 */
module TestShards {
  import opened Outcomes
  import opened Sorting
  import opened Balance

  /** A test module and its size in bytes. */
  datatype File = File(path: string, size: nat)

  datatype Shard = Shard(files: seq<File>, weight: nat)

  datatype ShardError = NotPositive | TooManyShards

  /** The key `(-size, path)`. */
  predicate LargestFirst(a: File, b: File) {
    a.size > b.size || (a.size == b.size && TextLeq(a.path, b.path))
  }

  predicate ByPath(a: File, b: File) {
    TextLeq(a.path, b.path)
  }

  function Sizes(files: seq<File>): seq<nat> {
    seq(|files|, i requires 0 <= i < |files| => files[i].size)
  }

  /** The files a placement puts on machine `i`, in order. */
  function Bucket<T>(a: Placement, items: seq<T>, i: nat): seq<T>
    requires |a| == |items|
  {
    if items == [] then []
    else
      var n := |items| - 1;
      Bucket(a[..n], items[..n], i) + if a[n] == i then [items[n]] else []
  }

  function Buckets<T>(a: Placement, items: seq<T>, m: nat): seq<seq<T>>
    requires |a| == |items|
  {
    seq(m, i requires 0 <= i < m => Bucket(a, items, i))
  }

  function Concat<T>(xss: seq<seq<T>>): seq<T> {
    if xss == [] then [] else Concat(xss[..|xss| - 1]) + xss[|xss| - 1]
  }

  function TotalSize(files: seq<File>): nat {
    if files == [] then 0 else TotalSize(files[..|files| - 1]) + files[|files| - 1].size
  }

  function Weighted(files: seq<File>): seq<File> {
    SortBy(files, LargestFirst)
  }

  /** The placement of the sorted files. */
  function PlacementOf(files: seq<File>, m: nat): (a: Placement)
    requires m > 0
    ensures Places(a, |files|, m)
  {
    Greedy(Sizes(Weighted(files)), m)
  }

  function ShardsOf(files: seq<File>, m: nat): (shards: seq<Shard>)
    requires m > 0
    ensures |shards| == m
  {
    var sorted, a := Weighted(files), PlacementOf(files, m);
    Finished(Buckets(a, sorted, m), Loads(a, Sizes(sorted), m))
  }

  function Finished(buckets: seq<seq<File>>, weights: seq<nat>): seq<Shard>
    requires |buckets| == |weights|
  {
    seq(|buckets|, i requires 0 <= i < |buckets| => Shard(SortBy(buckets[i], ByPath), weights[i]))
  }

  function ShardFiles(shards: seq<Shard>): seq<seq<File>> {
    seq(|shards|, i requires 0 <= i < |shards| => shards[i].files)
  }

  /** scripts/python_test_shards.py `partition_test_files`. */
  method PartitionTestFiles(files: seq<File>, shardCount: int) returns (r: Result<seq<Shard>, ShardError>)
    ensures r == if shardCount < 1 then Err(NotPositive)
                 else if |files| < shardCount then Err(TooManyShards)
                 else Ok(ShardsOf(files, shardCount))
  {
    if shardCount < 1 {
      return Err(NotPositive);
    }
    if |files| < shardCount {
      return Err(TooManyShards);
    }
    hide *;
    var buckets: seq<seq<File>> := seq(shardCount, _ => []);
    var weights: seq<nat> := seq(shardCount, _ => 0);
    var weightedFiles := Weighted(files);
    StartEmpty(weightedFiles, shardCount, buckets, weights);
    for k := 0 to |weightedFiles|
      invariant weights == LoadsAfter(weightedFiles, shardCount, k)
      invariant buckets == BucketsAfter(weightedFiles, shardCount, k)
    {
      var path := weightedFiles[k];
      var shardIndex := ArgMin(weights);
      PlaceOne(weightedFiles, shardCount, k);
      buckets := buckets[shardIndex := buckets[shardIndex] + [path]];
      weights := weights[shardIndex := weights[shardIndex] + path.size];
    }
    AllPlaced(files, shardCount);
    return Ok(Finished(buckets, weights));
  }

  /** The loads and the buckets once the first `k` files of the sorted list are placed. */
  function LoadsAfter(files: seq<File>, m: nat, k: nat): (loads: seq<nat>)
    requires m > 0 && k <= |files|
    ensures |loads| == m
  {
    Loads(Greedy(Sizes(files)[..k], m), Sizes(files)[..k], m)
  }

  function BucketsAfter(files: seq<File>, m: nat, k: nat): (buckets: seq<seq<File>>)
    requires m > 0 && k <= |files|
    ensures |buckets| == m
  {
    Buckets(Greedy(Sizes(files)[..k], m), files[..k], m)
  }

  lemma WholeTaken<T>(xs: seq<T>)
    ensures xs[..|xs|] == xs
  {
  }

  lemma StartEmpty(files: seq<File>, m: nat, buckets: seq<seq<File>>, weights: seq<nat>)
    requires m > 0 && |buckets| == |weights| == m
    requires forall i | 0 <= i < m :: buckets[i] == [] && weights[i] == 0
    ensures weights == LoadsAfter(files, m, 0) && buckets == BucketsAfter(files, m, 0)
  {
  }

  lemma AllPlaced(files: seq<File>, m: nat)
    requires m > 0
    ensures var sorted := Weighted(files);
            Finished(BucketsAfter(sorted, m, |sorted|), LoadsAfter(sorted, m, |sorted|)) == ShardsOf(files, m)
  {
    hide Greedy, Buckets, Loads, Sizes, Weighted, Finished;
    WholeTaken(Weighted(files));
    WholeTaken(Sizes(Weighted(files)));
    SizesLength(Weighted(files));
  }

  lemma SizesLength(files: seq<File>)
    ensures |Sizes(files)| == |files|
  {
  }

  lemma LoadAppend(a: Placement, w: seq<nat>, machine: nat, job: nat, i: nat)
    requires |a| == |w|
    ensures Load(a + [machine], w + [job], i) == Load(a, w, i) + if machine == i then job else 0
  {
    assert (a + [machine])[..|a|] == a && (w + [job])[..|w|] == w;
  }

  lemma BucketAppend<T>(a: Placement, items: seq<T>, machine: nat, item: T, i: nat)
    requires |a| == |items|
    ensures Bucket(a + [machine], items + [item], i) ==
            if machine == i then Bucket(a, items, i) + [item] else Bucket(a, items, i)
  {
    assert (a + [machine])[..|a|] == a && (items + [item])[..|items|] == items;
  }

  /** One round of the loop on the specification's side. */
  lemma PlaceOne(files: seq<File>, m: nat, k: nat)
    requires m > 0 && k < |files|
    ensures var loads, buckets := LoadsAfter(files, m, k), BucketsAfter(files, m, k);
            var i := ArgMin(loads);
            && LoadsAfter(files, m, k + 1) == loads[i := loads[i] + files[k].size]
            && BucketsAfter(files, m, k + 1) == buckets[i := buckets[i] + [files[k]]]
  {
    hide ArgMin, Load, Bucket;
    var w := Sizes(files);
    var before, after := Greedy(w[..k], m), Greedy(w[..k + 1], m);
    var i := ArgMin(Loads(before, w[..k], m));
    var x := files[k];
    OneMore(files, m, k);
    forall j | 0 <= j < m
      ensures Load(after, w[..k + 1], j) == Load(before, w[..k], j) + if j == i then x.size else 0
      ensures Bucket(after, files[..k + 1], j) ==
              if j == i then Bucket(before, files[..k], j) + [x] else Bucket(before, files[..k], j)
    {
      LoadAppend(before, w[..k], i, x.size, j);
      BucketAppend(before, files[..k], i, x, j);
    }
  }

  lemma OneMore(files: seq<File>, m: nat, k: nat)
    requires m > 0 && k < |files|
    ensures var w := Sizes(files);
            && w[..k + 1] == w[..k] + [files[k].size]
            && files[..k + 1] == files[..k] + [files[k]]
            && Greedy(w[..k + 1], m) == Greedy(w[..k], m) + [ArgMin(Loads(Greedy(w[..k], m), w[..k], m))]
  {
    hide ArgMin, Loads;
    var w := Sizes(files);
    assert w[..k + 1][..k] == w[..k];
  }

  // ----- every file once

  lemma {:induction false} BucketsStep<T>(a: Placement, items: seq<T>, machine: nat, item: T, m: nat)
    requires |a| == |items|
    ensures multiset(Concat(Buckets(a + [machine], items + [item], m))) ==
            multiset(Concat(Buckets(a, items, m))) + if machine < m then multiset{item} else multiset{}
  {
    hide Bucket;
    var x, y := Buckets(a + [machine], items + [item], m), Buckets(a, items, m);
    if m > 0 {
      BucketsStep(a, items, machine, item, m - 1);
      assert x[..m - 1] == Buckets(a + [machine], items + [item], m - 1);
      assert y[..m - 1] == Buckets(a, items, m - 1);
      BucketAppend(a, items, machine, item, m - 1);
      if machine == m - 1 {
        assert multiset(x[m - 1]) == multiset(y[m - 1]) + multiset{item};
      } else {
        assert x[m - 1] == y[m - 1];
      }
    }
  }

  lemma {:induction false} BucketsKeepItems<T>(a: Placement, items: seq<T>, m: nat)
    requires Places(a, |items|, m)
    ensures multiset(Concat(Buckets(a, items, m))) == multiset(items)
  {
    if items == [] {
      NothingPlaced(a, items, m);
    } else {
      var n := |items| - 1;
      assert items == items[..n] + [items[n]] && a == a[..n] + [a[n]];
      BucketsStep(a[..n], items[..n], a[n], items[n], m);
      BucketsKeepItems(a[..n], items[..n], m);
    }
  }

  lemma {:induction false} NothingPlaced<T>(a: Placement, items: seq<T>, m: nat)
    requires |a| == |items| == 0
    ensures multiset(Concat(Buckets(a, items, m))) == multiset{}
  {
    if m > 0 {
      NothingPlaced(a, items, m - 1);
      assert Buckets(a, items, m)[..m - 1] == Buckets(a, items, m - 1);
    }
  }

  lemma {:induction false} SameParts<T>(xss: seq<seq<T>>, yss: seq<seq<T>>)
    requires |xss| == |yss| && forall i | 0 <= i < |xss| :: multiset(xss[i]) == multiset(yss[i])
    ensures multiset(Concat(xss)) == multiset(Concat(yss))
  {
    if xss != [] {
      SameParts(xss[..|xss| - 1], yss[..|yss| - 1]);
    }
  }

  lemma {:induction false} WeightIsTotal(a: Placement, files: seq<File>, i: nat)
    requires |a| == |files|
    ensures Load(a, Sizes(files), i) == TotalSize(Bucket(a, files, i))
  {
    if files != [] {
      var n := |files| - 1;
      assert Sizes(files)[..n] == Sizes(files[..n]);
      WeightIsTotal(a[..n], files[..n], i);
      BucketWeight(Bucket(a[..n], files[..n], i), files[n]);
    }
  }

  lemma BucketWeight(bucket: seq<File>, x: File)
    ensures TotalSize(bucket + [x]) == TotalSize(bucket) + x.size
    ensures bucket + [] == bucket
  {
    assert (bucket + [x])[..|bucket|] == bucket;
  }

  lemma {:induction false} TotalSizeAppend(a: seq<File>, b: seq<File>)
    ensures TotalSize(a + b) == TotalSize(a) + TotalSize(b)
  {
    if b == [] {
      assert a + b == a;
    } else {
      TotalSizeAppend(a, b[..|b| - 1]);
      assert (a + b)[..|a + b| - 1] == a + b[..|b| - 1];
    }
  }

  lemma {:induction false} TotalSizePermuted(a: seq<File>, b: seq<File>)
    requires multiset(a) == multiset(b)
    ensures TotalSize(a) == TotalSize(b)
  {
    SameElements(a, b);
    if a != [] {
      var n := |a| - 1;
      var x := a[n];
      assert x in b;
      var p :| 0 <= p < |b| && b[p] == x;
      var rest := b[..p] + b[p + 1..];
      assert a == a[..n] + [x];
      RemoveMiddle(b, p);
      TotalSizePermuted(a[..n], rest);
      TakeOut(b, p);
    }
  }

  lemma RemoveMiddle<T>(xs: seq<T>, p: nat)
    requires p < |xs|
    ensures multiset(xs[..p] + xs[p + 1..]) == multiset(xs) - multiset{xs[p]}
    ensures xs[p] in multiset(xs)
  {
    assert xs == xs[..p] + [xs[p]] + xs[p + 1..];
  }

  lemma TotalSizeMiddle(a: seq<File>, x: File, b: seq<File>)
    ensures TotalSize(a + [x] + b) == TotalSize(a + b) + x.size
  {
    TotalSizeAppend(a + [x], b);
    TotalSizeAppend(a, b);
    assert (a + [x])[..|a|] == a;
  }

  lemma TakeOut(files: seq<File>, p: nat)
    requires p < |files|
    ensures TotalSize(files) == TotalSize(files[..p] + files[p + 1..]) + files[p].size
  {
    hide TotalSize;
    assert files == files[..p] + [files[p]] + files[p + 1..];
    TotalSizeMiddle(files[..p], files[p], files[p + 1..]);
  }

  /** A partition: every file is in exactly one shard, exactly as often as it was given. */
  lemma EveryFileOnce(files: seq<File>, m: nat)
    requires m > 0
    ensures multiset(Concat(ShardFiles(ShardsOf(files, m)))) == multiset(files)
  {
    var sorted, a := Weighted(files), PlacementOf(files, m);
    BucketsKeepItems(a, sorted, m);
    SameParts(ShardFiles(ShardsOf(files, m)), Buckets(a, sorted, m));
  }

  /** Each weight is the total size of its shard, whose files are in path order. */
  lemma WeightsAreSizes(files: seq<File>, m: nat, i: nat)
    requires m > 0 && i < m
    ensures var shard := ShardsOf(files, m)[i];
            shard.weight == TotalSize(shard.files) && SortedBy(shard.files, ByPath)
  {
    var sorted, a := Weighted(files), PlacementOf(files, m);
    var bucket := Bucket(a, sorted, i);
    WeightIsTotal(a, sorted, i);
    TotalSizePermuted(SortBy(bucket, ByPath), bucket);
    PathOrder();
    SortBySorted(bucket, ByPath);
  }

  lemma PathOrder()
    ensures TotalPreorder(ByPath)
  {
    TextLeqIsOrder();
  }

  lemma SizeOrder()
    ensures TotalPreorder(LargestFirst)
  {
    TextLeqIsOrder();
  }

  lemma SizesDescend(files: seq<File>)
    ensures Descending(Sizes(Weighted(files)))
    ensures multiset(Weighted(files)) == multiset(files) && |Weighted(files)| == |files|
  {
    SizeOrder();
    SortBySorted(files, LargestFirst);
    var s := Weighted(files);
    forall i, j | 0 <= i < j < |s| ensures Sizes(s)[i] >= Sizes(s)[j] {
      assert LargestFirst(s[i], s[j]);
    }
  }

  // ----- balance

  /** After every placement the loads differ by at most the largest file placed so far. */
  lemma BalancedAllAlong(files: seq<File>, m: nat, k: nat, i: nat, j: nat)
    requires m > 0 && 0 < k <= |files| && i < m && j < m
    ensures var sizes := Sizes(Weighted(files));
            var a := PlacementOf(files, m);
            Load(a[..k], sizes[..k], i) <= Load(a[..k], sizes[..k], j) + sizes[0]
  {
    SizesDescend(files);
    var sizes := Sizes(Weighted(files));
    GreedyPrefix(sizes, m, k);
    GreedyBalanced(sizes[..k], m, sizes[0], i, j);
  }

  /** How many files are not empty. */
  function Positive(files: seq<File>): nat {
    if files == [] then 0
    else Positive(files[..|files| - 1]) + if files[|files| - 1].size > 0 then 1 else 0
  }

  lemma {:induction false} PositiveAppend(a: seq<File>, b: seq<File>)
    ensures Positive(a + b) == Positive(a) + Positive(b)
  {
    if b == [] {
      assert a + b == a;
    } else {
      var n := |b| - 1;
      assert (a + b)[..|a + b| - 1] == a + b[..n];
      PositiveAppend(a, b[..n]);
    }
  }

  lemma {:induction false} PositivePermuted(a: seq<File>, b: seq<File>)
    requires multiset(a) == multiset(b)
    ensures Positive(a) == Positive(b)
  {
    SameElements(a, b);
    if a != [] {
      var n := |a| - 1;
      assert a[n] in b;
      var p :| 0 <= p < |b| && b[p] == a[n];
      var rest := b[..p] + b[p + 1..];
      assert a == a[..n] + [a[n]];
      RemoveMiddle(b, p);
      PositivePermuted(a[..n], rest);
      PositiveMiddle(b, p);
    }
  }

  lemma PositiveMiddle(b: seq<File>, p: nat)
    requires p < |b|
    ensures Positive(b) == Positive(b[..p] + b[p + 1..]) + if b[p].size > 0 then 1 else 0
  {
    assert b == b[..p + 1] + b[p + 1..] && b[..p + 1][..p] == b[..p];
    PositiveAppend(b[..p + 1], b[p + 1..]);
    PositiveAppend(b[..p], b[p + 1..]);
  }

  /** In descending order the files that are not empty come first. */
  lemma {:induction false} PositiveFirst(files: seq<File>, k: nat)
    requires Descending(Sizes(files)) && k < |files|
    ensures Positive(files) <= |files|
    ensures files[k].size > 0 <==> k < Positive(files)
  {
    var n := |files| - 1;
    assert Sizes(files)[k] >= Sizes(files)[n];
    assert Sizes(files[..n]) == Sizes(files)[..n];
    if k < n {
      PositiveFirst(files[..n], k);
    } else if n > 0 {
      PositiveFirst(files[..n], n - 1);
      assert Sizes(files)[n - 1] >= Sizes(files)[n];
    }
  }

  /** With enough files, no shard is empty exactly when at most one shard has to do with files of size zero. */
  lemma NoShardEmpty(files: seq<File>, m: nat)
    requires 0 < m <= |files|
    ensures (forall i | 0 <= i < m :: ShardsOf(files, m)[i].files != []) <==> Positive(files) >= m - 1
  {
    var sorted, a := Weighted(files), PlacementOf(files, m);
    assert a == Greedy(Sizes(sorted), m);
    hide *;
    SizesDescend(files);
    PositivePermuted(sorted, files);
    UsedIff(sorted, a, m);
    forall i | 0 <= i < m ensures ShardsOf(files, m)[i].files != [] <==> i in a {
      ShardSome(files, m, i);
    }
  }

  lemma ShardSome(files: seq<File>, m: nat, i: nat)
    requires i < m
    ensures ShardsOf(files, m)[i].files != [] <==> i in PlacementOf(files, m)
  {
    hide Bucket, Greedy, Loads, Weighted;
    var sorted, a := Weighted(files), PlacementOf(files, m);
    BucketSome(a, sorted, i);
    assert ShardsOf(files, m)[i].files == SortBy(Bucket(a, sorted, i), ByPath);
    hide SortBy;
  }

  /** Every machine gets a file exactly when all but one can get one that is not empty. */
  lemma UsedIff(sorted: seq<File>, a: Placement, m: nat)
    requires 0 < m <= |sorted| && Descending(Sizes(sorted)) && a == Greedy(Sizes(sorted), m)
    ensures (forall i | 0 <= i < m :: i in a) <==> Positive(sorted) >= m - 1
  {
    hide Greedy;
    var w, p := Sizes(sorted), Positive(sorted);
    forall k | 0 <= k < |sorted| ensures w[k] > 0 <==> k < p {
      PositiveFirst(sorted, k);
    }
    PositiveFirst(sorted, 0);
    if p >= m - 1 {
      forall i | 0 <= i < m ensures i in a {
        GreedySpreads(w, m, i);
      }
    } else {
      var free := ZerosLeaveFree(w, m, p);
    }
  }

  lemma {:induction false} BucketSome<T>(a: Placement, items: seq<T>, i: nat)
    requires |a| == |items|
    ensures Bucket(a, items, i) != [] <==> i in a
  {
    if items != [] {
      var n := |items| - 1;
      assert a == a[..n] + [a[n]];
      BucketSome(a[..n], items[..n], i);
    }
  }

  lemma {:induction false} BucketHas<T>(a: Placement, items: seq<T>, i: nat, k: nat)
    requires |a| == |items| && k < |items| && a[k] == i
    ensures items[k] in Bucket(a, items, i)
  {
    var n := |items| - 1;
    if k < n {
      BucketHas(a[..n], items[..n], i, k);
    }
  }

  /** The shards do not depend on the order in which the files were found. */
  lemma OrderDoesNotShow(files: seq<File>, others: seq<File>, m: nat)
    requires m > 0 && multiset(files) == multiset(others)
    ensures ShardsOf(files, m) == ShardsOf(others, m)
  {
    SizeOrder();
    forall x, y | LargestFirst(x, y) && LargestFirst(y, x) ensures x == y {
      TextLeqTotal(x.path, y.path);
    }
    SortIgnoresOrder(files, others, LargestFirst);
  }

  // ----- dealing the files out in turn

  /** Larger files come first, and files of the same size in the order of their paths. */
  ghost predicate LargestThenPath(order: seq<File>) {
    forall i, j | 0 <= i < j < |order| ::
      order[i].size > order[j].size || (order[i].size == order[j].size && TextLeq(order[i].path, order[j].path))
  }

  /** What shard `i` weighs once the first `k` files are dealt out. */
  function WeightSoFar(order: seq<File>, at: seq<nat>, k: nat, i: nat): nat
    requires k <= |order| == |at|
  {
    if k == 0 then 0 else WeightSoFar(order, at, k - 1, i) + if at[k - 1] == i then order[k - 1].size else 0
  }

  /** Each file goes to the lightest shard, and to the first of them when several are lightest. */
  ghost predicate DealtInTurn(order: seq<File>, at: seq<nat>, m: nat) {
    && |at| == |order|
    && forall k | 0 <= k < |order| :: at[k] < m && LightestBefore(order, at, m, k)
  }

  ghost predicate LightestBefore(order: seq<File>, at: seq<nat>, m: nat, k: nat)
    requires k < |order| == |at|
  {
    forall i: nat | i < m && i != at[k] ::
      var own, other := WeightSoFar(order, at, k, at[k]), WeightSoFar(order, at, k, i);
      own < other || (own == other && at[k] < i)
  }

  /** The items dealt to shard `i`. */
  function DealtTo<T>(order: seq<T>, at: seq<nat>, i: nat): seq<T>
    requires |order| == |at|
    decreases |order|
  {
    if order == [] then []
    else DealtTo(order[..|order| - 1], at[..|at| - 1], i) + if at[|at| - 1] == i then [order[|order| - 1]] else []
  }

  lemma {:induction false} BucketIsDealt<T>(order: seq<T>, at: seq<nat>, i: nat)
    requires |order| == |at|
    ensures DealtTo(order, at, i) == Bucket(at, order, i)
  {
    if order != [] {
      BucketIsDealt(order[..|order| - 1], at[..|at| - 1], i);
    }
  }

  lemma {:induction false} LoadSoFar(order: seq<File>, at: seq<nat>, k: nat, i: nat)
    requires k <= |order| == |at|
    ensures WeightSoFar(order, at, k, i) == Load(at[..k], Sizes(order)[..k], i)
  {
    if k > 0 {
      LoadSoFar(order, at, k - 1, i);
      assert at[..k][..k - 1] == at[..k - 1] && Sizes(order)[..k][..k - 1] == Sizes(order)[..k - 1];
    }
  }

  lemma GreedyDeals(order: seq<File>, m: nat)
    requires m > 0
    ensures DealtInTurn(order, Greedy(Sizes(order), m), m)
  {
    var w := Sizes(order);
    var at := Greedy(w, m);
    forall k | 0 <= k < |order| ensures at[k] < m && LightestBefore(order, at, m, k) {
      GreedyPrefix(w, m, k + 1);
      GreedyPrefix(w, m, k);
      assert w[..k + 1][..k] == w[..k];
      var before := Greedy(w[..k], m);
      assert at[k] == at[..k + 1][k] == ArgMin(Loads(before, w[..k], m));
      hide Greedy;
      forall i: nat | i < m ensures Loads(before, w[..k], m)[i] == WeightSoFar(order, at, k, i) {
        LoadSoFar(order, at, k, i);
        LoadOfMachine(before, w[..k], m, i);
      }
      hide Loads;
    }
  }

  /**
   The shards are what dealing out the files in turn gives, larger ones first and equal ones by path: each shard
   has the files dealt to it in the order of their paths, and their total as its weight.
   */
  lemma ShardsAreDealt(files: seq<File>, m: nat) returns (order: seq<File>, at: seq<nat>)
    requires m > 0
    ensures multiset(order) == multiset(files) && LargestThenPath(order) && DealtInTurn(order, at, m)
    ensures forall i: nat | i < m ::
              var shard := ShardsOf(files, m)[i];
              && multiset(shard.files) == multiset(DealtTo(order, at, i)) && SortedBy(shard.files, ByPath)
              && shard.weight == WeightSoFar(order, at, |order|, i)
  {
    order, at := Weighted(files), PlacementOf(files, m);
    OrderIsLargestFirst(files);
    GreedyDeals(order, m);
    hide Greedy, Weighted, DealtTo, Bucket, Load, SortBy;
    forall i: nat | i < m
      ensures multiset(ShardsOf(files, m)[i].files) == multiset(DealtTo(order, at, i))
      ensures ShardsOf(files, m)[i].weight == WeightSoFar(order, at, |order|, i)
      ensures SortedBy(ShardsOf(files, m)[i].files, ByPath)
    {
      BucketIsDealt(order, at, i);
      LoadSoFar(order, at, |order|, i);
      assert at[..|order|] == at && Sizes(order)[..|order|] == Sizes(order);
      WeightsAreSizes(files, m, i);
    }
  }

  lemma OrderIsLargestFirst(files: seq<File>)
    ensures multiset(Weighted(files)) == multiset(files) && LargestThenPath(Weighted(files))
  {
    SizeOrder();
    SortBySorted(files, LargestFirst);
    var s := Weighted(files);
    hide SortBy;
    forall i, j | 0 <= i < j < |s|
      ensures s[i].size > s[j].size || (s[i].size == s[j].size && TextLeq(s[i].path, s[j].path))
    {
      assert LargestFirst(s[i], s[j]);
    }
  }

  // ----- against any other partition

  lemma {:induction false} ConcatHas<T>(xss: seq<seq<T>>, x: T) returns (i: nat, p: nat)
    requires x in Concat(xss)
    ensures i < |xss| && p < |xss[i]| && xss[i][p] == x
  {
    var n := |xss| - 1;
    if x in xss[n] {
      i := n;
      p :| 0 <= p < |xss[n]| && xss[n][p] == x;
    } else {
      i, p := ConcatHas(xss[..n], x);
    }
  }

  lemma {:induction false} ConcatRemove<T>(xss: seq<seq<T>>, i: nat, p: nat)
    requires i < |xss| && p < |xss[i]|
    ensures multiset(Concat(xss[i := xss[i][..p] + xss[i][p + 1..]])) == multiset(Concat(xss)) - multiset{xss[i][p]}
  {
    hide Concat;
    var n := |xss| - 1;
    var shorter := xss[i][..p] + xss[i][p + 1..];
    var yss := xss[i := shorter];
    ConcatLast(xss);
    ConcatLast(yss);
    if i == n {
      assert yss[..n] == xss[..n];
      RemoveMiddle(xss[i], p);
      RemoveFromSum(multiset(Concat(xss[..n])), multiset(xss[n]), xss[i][p]);
    } else {
      ConcatRemove(xss[..n], i, p);
      assert yss[..n] == xss[..n][i := shorter];
      ConcatGet(xss[..n], i, p);
      RemoveFromSum(multiset(xss[n]), multiset(Concat(xss[..n])), xss[i][p]);
    }
  }

  lemma ConcatLast<T>(xss: seq<seq<T>>)
    requires xss != []
    ensures multiset(Concat(xss)) == multiset(Concat(xss[..|xss| - 1])) + multiset(xss[|xss| - 1])
  {
  }

  lemma RemoveFromSum<T>(a: multiset<T>, b: multiset<T>, x: T)
    requires x in b
    ensures a + (b - multiset{x}) == a + b - multiset{x}
  {
  }

  lemma {:induction false} ConcatGet<T>(xss: seq<seq<T>>, i: nat, p: nat)
    requires i < |xss| && p < |xss[i]|
    ensures xss[i][p] in multiset(Concat(xss))
  {
    var n := |xss| - 1;
    if i < n {
      ConcatGet(xss[..n], i, p);
    }
  }

  lemma {:induction false} ConcatEmpty<T>(xss: seq<seq<T>>)
    requires multiset(Concat(xss)) == multiset{}
    ensures forall i | 0 <= i < |xss| :: xss[i] == []
  {
    forall i | 0 <= i < |xss| ensures xss[i] == [] {
      if xss[i] != [] {
        ConcatGet(xss, i, 0);
        assert false;
      }
    }
  }

  /** Any partition of the listed files is a placement of the list with the same loads. */
  lemma {:induction false} PartitionIsPlacement(files: seq<File>, parts: seq<seq<File>>) returns (a: Placement)
    requires multiset(Concat(parts)) == multiset(files)
    ensures Places(a, |files|, |parts|)
    ensures forall i | 0 <= i < |parts| :: Load(a, Sizes(files), i) == TotalSize(parts[i])
    decreases |files|
  {
    hide Concat;
    if files == [] {
      a := [];
      ConcatEmpty(parts);
    } else {
      hide TotalSize, Load;
      var n := |files| - 1;
      var x := files[n];
      assert files == files[..n] + [x];
      assert x in multiset(Concat(parts));
      var j, p := ConcatHas(parts, x);
      var rest := parts[j := parts[j][..p] + parts[j][p + 1..]];
      ConcatRemove(parts, j, p);
      var before := PartitionIsPlacement(files[..n], rest);
      a := before + [j];
      TakeOut(parts[j], p);
      PlacementStep(before, files, j);
    }
  }

  lemma PlacementStep(before: Placement, files: seq<File>, j: nat)
    requires files != [] && |before| == |files| - 1
    ensures var n := |files| - 1;
            forall i: nat :: Load(before + [j], Sizes(files), i) ==
              Load(before, Sizes(files[..n]), i) + if i == j then files[n].size else 0
  {
    var n := |files| - 1;
    assert (before + [j])[..n] == before;
    assert Sizes(files)[..n] == Sizes(files[..n]);
  }

  ghost predicate IsPartition(parts: seq<seq<File>>, files: seq<File>, m: nat) {
    |parts| == m && multiset(Concat(parts)) == multiset(files)
  }

  /**
   Graham's bound: when some partition of the files into `m` parts keeps every part within `cap`, no
   shard weighs more than `(4m - 1) / 3m` times `cap`.
   */
  lemma ShardsNearOptimal(files: seq<File>, m: nat, parts: seq<seq<File>>, cap: nat, i: nat)
    requires i < m && IsPartition(parts, files, m)
    requires forall j | 0 <= j < m :: TotalSize(parts[j]) <= cap
    ensures 3 * m * ShardsOf(files, m)[i].weight <= (4 * m - 1) * cap
  {
    SizesDescend(files);
    var sorted := Weighted(files);
    var other := PartitionIsPlacement(sorted, parts);
    GrahamBound(Sizes(sorted), m, other, cap, i);
  }

  lemma {:induction false} TotalOfSizes(files: seq<File>)
    ensures Total(Sizes(files)) == TotalSize(files)
  {
    if files != [] {
      assert Sizes(files)[..|files| - 1] == Sizes(files[..|files| - 1]);
      TotalOfSizes(files[..|files| - 1]);
    }
  }

  /** A shard weighs at most the average plus `(m - 1) / m` of the largest file. */
  lemma ShardsNearAverage(files: seq<File>, m: nat, largest: nat, i: nat)
    requires i < m && forall f | f in files :: f.size <= largest
    ensures m * ShardsOf(files, m)[i].weight <= TotalSize(files) + (m - 1) * largest
  {
    SizesDescend(files);
    var sorted := Weighted(files);
    SameElements(sorted, files);
    forall k | 0 <= k < |sorted| ensures Sizes(sorted)[k] <= largest { assert sorted[k] in files; }
    AverageBound(Sizes(sorted), m, largest, i);
    TotalOfSizes(sorted);
    TotalSizePermuted(sorted, files);
  }

  // ----- Go test files: the same placement, shards of test names

  /** A Go test file and the tests it declares. */
  datatype GoFile = GoFile(file: File, names: seq<string>)

  predicate GoLargestFirst(a: GoFile, b: GoFile) {
    LargestFirst(a.file, b.file)
  }

  function FilesOf(items: seq<GoFile>): (files: seq<File>)
    ensures |files| == |items|
  {
    seq(|items|, i requires 0 <= i < |items| => items[i].file)
  }

  function NamesOf(items: seq<GoFile>): seq<string> {
    if items == [] then [] else NamesOf(items[..|items| - 1]) + items[|items| - 1].names
  }

  function GoWeighted(items: seq<GoFile>): (sorted: seq<GoFile>)
    ensures |sorted| == |items|
  {
    SortBy(items, GoLargestFirst)
  }

  function GoPlacement(files: seq<GoFile>, m: nat): (a: Placement)
    requires m > 0
    ensures Places(a, |files|, m)
  {
    Greedy(Sizes(FilesOf(GoWeighted(files))), m)
  }

  /** The names in each bucket, in placement order. */
  function NameBuckets(a: Placement, items: seq<GoFile>, m: nat): seq<seq<string>>
    requires |a| == |items|
  {
    seq(m, i requires 0 <= i < m => NamesOf(Bucket(a, items, i)))
  }

  function GoFinished(shards: seq<seq<string>>): (sorted: seq<seq<string>>)
    ensures |sorted| == |shards|
  {
    seq(|shards|, i requires 0 <= i < |shards| => SortBy(shards[i], TextLeq))
  }

  function GoShardsOf(files: seq<GoFile>, m: nat): seq<seq<string>>
    requires m > 0
  {
    GoFinished(NameBuckets(GoPlacement(files, m), GoWeighted(files), m))
  }

  /** scripts/go_test_shards.py `partition_test_files`. */
  method PartitionGoTestFiles(files: seq<GoFile>, shardCount: int) returns (r: Result<seq<seq<string>>, ShardError>)
    ensures r == if shardCount <= 0 then Err(NotPositive)
                 else if |files| < shardCount then Err(TooManyShards)
                 else Ok(GoShardsOf(files, shardCount))
  {
    hide *;
    if shardCount <= 0 {
      return Err(NotPositive);
    }
    if |files| < shardCount {
      return Err(TooManyShards);
    }
    var shards: seq<seq<string>> := seq(shardCount, _ => []);
    var weights: seq<nat> := seq(shardCount, _ => 0);
    var weightedFiles := GoWeighted(files);
    GoStartEmpty(weightedFiles, shardCount, shards, weights);
    for k := 0 to |weightedFiles|
      invariant weights == LoadsAfter(FilesOf(weightedFiles), shardCount, k)
      invariant shards == NamesAfter(weightedFiles, shardCount, k)
    {
      var item := weightedFiles[k];
      var shard := ArgMin(weights);
      GoPlaceOne(weightedFiles, shardCount, k);
      shards := shards[shard := shards[shard] + item.names];
      weights := weights[shard := weights[shard] + item.file.size];
    }
    GoAllPlaced(files, shardCount);
    return Ok(GoFinished(shards));
  }

  /** The shards once the first `k` files of the sorted list are placed. */
  function NamesAfter(items: seq<GoFile>, m: nat, k: nat): (names: seq<seq<string>>)
    requires m > 0 && k <= |items|
    ensures |names| == m
  {
    NameBuckets(Greedy(Sizes(FilesOf(items))[..k], m), items[..k], m)
  }

  lemma FilesOfItems(items: seq<GoFile>)
    ensures |FilesOf(items)| == |items| && forall k | 0 <= k < |items| :: FilesOf(items)[k] == items[k].file
  {
  }

  lemma GoStartEmpty(items: seq<GoFile>, m: nat, shards: seq<seq<string>>, weights: seq<nat>)
    requires m > 0 && |shards| == |weights| == m
    requires forall i | 0 <= i < m :: shards[i] == [] && weights[i] == 0
    ensures weights == LoadsAfter(FilesOf(items), m, 0) && shards == NamesAfter(items, m, 0)
  {
  }

  lemma GoAllPlaced(files: seq<GoFile>, m: nat)
    requires m > 0
    ensures var sorted := GoWeighted(files);
            GoFinished(NamesAfter(sorted, m, |sorted|)) == GoShardsOf(files, m)
  {
    hide Greedy, NameBuckets, Sizes, GoWeighted, GoFinished;
    var sorted := GoWeighted(files);
    FilesOfItems(sorted);
    SizesLength(FilesOf(sorted));
    WholeTaken(sorted);
    WholeTaken(Sizes(FilesOf(sorted)));
  }

  lemma GoPlaceOne(items: seq<GoFile>, m: nat, k: nat)
    requires m > 0 && k < |items|
    ensures var loads, names := LoadsAfter(FilesOf(items), m, k), NamesAfter(items, m, k);
            var i := ArgMin(loads);
            && LoadsAfter(FilesOf(items), m, k + 1) == loads[i := loads[i] + items[k].file.size]
            && NamesAfter(items, m, k + 1) == names[i := names[i] + items[k].names]
  {
    hide LoadsAfter;
    PlaceOne(FilesOf(items), m, k);
    NamesStep(items, m, k);
  }

  lemma NamesStep(items: seq<GoFile>, m: nat, k: nat)
    requires m > 0 && k < |items|
    ensures var names := NamesAfter(items, m, k);
            var i := ArgMin(LoadsAfter(FilesOf(items), m, k));
            NamesAfter(items, m, k + 1) == names[i := names[i] + items[k].names]
  {
    hide ArgMin, Load, Bucket, NamesOf, Greedy;
    var w := Sizes(FilesOf(items));
    var before, after := Greedy(w[..k], m), Greedy(w[..k + 1], m);
    var machine := ArgMin(Loads(before, w[..k], m));
    FilesOfItems(items);
    OneMore(FilesOf(items), m, k);
    assert items[..k + 1] == items[..k] + [items[k]];
    forall i | 0 <= i < m
      ensures NamesOf(Bucket(after, items[..k + 1], i)) ==
              if i == machine then NamesOf(Bucket(before, items[..k], i)) + items[k].names
              else NamesOf(Bucket(before, items[..k], i))
    {
      BucketAppend(before, items[..k], machine, items[k], i);
      NamesAppend(Bucket(before, items[..k], i), items[k]);
    }
  }

  lemma NamesAppend(items: seq<GoFile>, item: GoFile)
    ensures NamesOf(items + [item]) == NamesOf(items) + item.names
  {
    assert (items + [item])[..|items|] == items;
  }

  lemma {:induction false} NamesOfConcat(parts: seq<seq<GoFile>>, names: seq<seq<string>>)
    requires |parts| == |names| && forall i | 0 <= i < |parts| :: multiset(names[i]) == multiset(NamesOf(parts[i]))
    ensures multiset(Concat(names)) == multiset(NamesOf(Concat(parts)))
  {
    if parts != [] {
      var n := |parts| - 1;
      NamesOfConcat(parts[..n], names[..n]);
      NamesJoin(Concat(parts[..n]), parts[n]);
    }
  }

  lemma {:induction false} NamesJoin(a: seq<GoFile>, b: seq<GoFile>)
    ensures NamesOf(a + b) == NamesOf(a) + NamesOf(b)
  {
    if b == [] {
      assert a + b == a;
    } else {
      hide NamesOf;
      var n := |b| - 1;
      NamesJoin(a, b[..n]);
      assert a + b == (a + b[..n]) + [b[n]] && b == b[..n] + [b[n]];
      NamesAppend(a + b[..n], b[n]);
      NamesAppend(b[..n], b[n]);
      Regroup(NamesOf(a), NamesOf(b[..n]), b[n].names);
    }
  }

  lemma Regroup<T>(a: seq<T>, b: seq<T>, c: seq<T>)
    ensures a + b + c == a + (b + c)
  {
  }

  lemma {:induction false} NamesPermuted(a: seq<GoFile>, b: seq<GoFile>)
    requires multiset(a) == multiset(b)
    ensures multiset(NamesOf(a)) == multiset(NamesOf(b))
  {
    SameElements(a, b);
    if a != [] {
      var n := |a| - 1;
      assert a[n] in b;
      var p :| 0 <= p < |b| && b[p] == a[n];
      var rest := b[..p] + b[p + 1..];
      assert a == a[..n] + [a[n]];
      RemoveMiddle(b, p);
      NamesPermuted(a[..n], rest);
      NamesMiddle(b, p);
    }
  }

  lemma NamesMiddle(b: seq<GoFile>, p: nat)
    requires p < |b|
    ensures multiset(NamesOf(b)) == multiset(NamesOf(b[..p] + b[p + 1..])) + multiset(b[p].names)
  {
    hide NamesOf;
    assert b == b[..p] + [b[p]] + b[p + 1..];
    NamesJoin(b[..p] + [b[p]], b[p + 1..]);
    NamesAppend(b[..p], b[p]);
    NamesJoin(b[..p], b[p + 1..]);
  }

  /** Every declared test is in exactly one shard, as often as it is declared. */
  lemma EveryTestOnce(files: seq<GoFile>, m: nat)
    requires m > 0
    ensures multiset(Concat(GoShardsOf(files, m))) == multiset(NamesOf(files))
  {
    var sorted, a := GoWeighted(files), GoPlacement(files, m);
    BucketsKeepItems(a, sorted, m);
    NamesOfConcat(Buckets(a, sorted, m), GoShardsOf(files, m));
    NamesPermuted(Concat(Buckets(a, sorted, m)), files);
  }

  /** With enough files that all declare tests, the same condition decides whether a Go shard is empty. */
  lemma NoGoShardEmpty(files: seq<GoFile>, m: nat)
    requires 0 < m <= |files| && forall f | f in files :: f.names != []
    ensures (forall i | 0 <= i < m :: GoShardsOf(files, m)[i] != []) <==> Positive(FilesOf(files)) >= m - 1
  {
    var sorted, a := GoWeighted(files), GoPlacement(files, m);
    SortProjects(files);
    SizesDescend(FilesOf(files));
    PositivePermuted(FilesOf(sorted), FilesOf(files));
    UsedIff(FilesOf(sorted), a, m);
    SameElements(sorted, files);
    forall i | 0 <= i < m ensures GoShardsOf(files, m)[i] != [] <==> i in a {
      var bucket := Bucket(a, sorted, i);
      assert GoShardsOf(files, m)[i] == SortBy(NamesOf(bucket), TextLeq);
      BucketSome(a, sorted, i);
      BucketWithin(a, sorted, i);
      hide *;
      NamesSome(bucket);
    }
    hide *;
  }

  lemma {:induction false} BucketWithin<T>(a: Placement, items: seq<T>, i: nat)
    requires |a| == |items|
    ensures forall x | x in Bucket(a, items, i) :: x in items
  {
    if items != [] {
      BucketWithin(a[..|items| - 1], items[..|items| - 1], i);
    }
  }

  lemma NamesSome(items: seq<GoFile>)
    requires forall item | item in items :: item.names != []
    ensures NamesOf(items) != [] <==> items != []
  {
    if items != [] {
      assert items[|items| - 1] in items;
    }
  }

  lemma GoSizeOrder()
    ensures TotalPreorder(GoLargestFirst)
  {
    SizeOrder();
    hide LargestFirst;
  }

  /**
   The Go shards do not depend on the order in which the files were found, as long as no file is given with two
   different lists of tests.
   */
  lemma GoOrderDoesNotShow(files: seq<GoFile>, others: seq<GoFile>, m: nat)
    requires m > 0 && multiset(files) == multiset(others)
    requires forall x, y | x in files && y in files && x.file == y.file :: x == y
    ensures GoShardsOf(files, m) == GoShardsOf(others, m)
  {
    GoSizeOrder();
    forall x, y | x in files && y in files && GoLargestFirst(x, y) && GoLargestFirst(y, x) ensures x == y {
      TextLeqTotal(x.file.path, y.file.path);
    }
    SortIgnoresOrder(files, others, GoLargestFirst);
  }

  lemma {:induction false} InsertProjects(x: GoFile, items: seq<GoFile>)
    ensures FilesOf(Insert(x, items, GoLargestFirst)) == Insert(x.file, FilesOf(items), LargestFirst)
  {
    hide FilesOf, LargestFirst;
    if items == [] {
      assert [x] + items == [x] && [x.file] + FilesOf(items) == [x.file] by { FilesOfItems(items); }
      FilesOfCons(x, items);
    } else {
      FilesOfCons(items[0], items[1..]);
      assert items == [items[0]] + items[1..];
      if GoLargestFirst(items[0], x) {
        InsertProjects(x, items[1..]);
        FilesOfCons(items[0], Insert(x, items[1..], GoLargestFirst));
      } else {
        FilesOfCons(x, items);
      }
    }
  }

  lemma FilesOfCons(x: GoFile, items: seq<GoFile>)
    ensures FilesOf([x] + items) == [x.file] + FilesOf(items)
    ensures ([x.file] + FilesOf(items))[1..] == FilesOf(items)
  {
  }

  lemma {:induction false} SortProjects(items: seq<GoFile>)
    ensures FilesOf(GoWeighted(items)) == Weighted(FilesOf(items))
  {
    if items != [] {
      var n := |items| - 1;
      assert FilesOf(items)[..n] == FilesOf(items[..n]);
      SortProjects(items[..n]);
      InsertProjects(items[n], GoWeighted(items[..n]));
    }
  }

  /** Both scripts place the same files alike, so every bound above holds of the Go shards' files too. */
  lemma SamePlacement(files: seq<GoFile>, m: nat, i: nat)
    requires i < m
    ensures GoPlacement(files, m) == PlacementOf(FilesOf(files), m)
    ensures var bucket := Bucket(GoPlacement(files, m), GoWeighted(files), i);
            && multiset(GoShardsOf(files, m)[i]) == multiset(NamesOf(bucket))
            && TotalSize(FilesOf(bucket)) == ShardsOf(FilesOf(files), m)[i].weight
  {
    hide Greedy, Load, TotalSize, NamesOf, Bucket, GoWeighted, FilesOf, Weighted;
    SortProjects(files);
    var sorted, a := GoWeighted(files), GoPlacement(files, m);
    BucketProjects(a, sorted, i);
    WeightIsTotal(a, FilesOf(sorted), i);
    var names := NamesOf(Bucket(a, sorted, i));
    assert GoShardsOf(files, m)[i] == SortBy(names, TextLeq);
  }

  lemma {:induction false} BucketProjects(a: Placement, items: seq<GoFile>, i: nat)
    requires |a| == |items|
    ensures FilesOf(Bucket(a, items, i)) == Bucket(a, FilesOf(items), i)
  {
    if items != [] {
      var n := |items| - 1;
      assert FilesOf(items)[..n] == FilesOf(items[..n]);
      BucketProjects(a[..n], items[..n], i);
    }
  }

  /** The Go shards are what dealing out the files in the same way gives, with the test names of each shard sorted. */
  lemma GoShardsAreDealt(files: seq<GoFile>, m: nat) returns (order: seq<GoFile>, at: seq<nat>)
    requires m > 0
    ensures multiset(order) == multiset(files) && LargestThenPath(FilesOf(order)) && DealtInTurn(FilesOf(order), at, m)
    ensures |at| == |order| && |GoShardsOf(files, m)| == m
    ensures forall i: nat | i < m ::
              && multiset(GoShardsOf(files, m)[i]) == multiset(NamesOf(DealtTo(order, at, i)))
              && SortedBy(GoShardsOf(files, m)[i], TextLeq)
  {
    order, at := GoWeighted(files), GoPlacement(files, m);
    SortProjects(files);
    OrderIsLargestFirst(FilesOf(files));
    GreedyDeals(FilesOf(order), m);
    TextLeqIsOrder();
    assert multiset(order) == multiset(files);
    hide Greedy, GoWeighted, DealtTo, Bucket, NamesOf, SortBy, FilesOf;
    forall i: nat | i < m
      ensures multiset(GoShardsOf(files, m)[i]) == multiset(NamesOf(DealtTo(order, at, i)))
      ensures SortedBy(GoShardsOf(files, m)[i], TextLeq)
    {
      BucketIsDealt(order, at, i);
      var names := NamesOf(Bucket(at, order, i));
      assert GoShardsOf(files, m)[i] == SortBy(names, TextLeq);
      SortBySorted(names, TextLeq);
    }
  }
}
