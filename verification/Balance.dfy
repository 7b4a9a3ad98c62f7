/**
 Longest-first greedy placement on abstract weights: load accounting, balance, and Graham's bound
 against any other placement. Used by the test shard scripts.
 */
module Balance {

  /** Each element is the machine of the job at the same position. */
  type Placement = seq<nat>

  predicate Places(a: Placement, n: nat, m: nat) {
    |a| == n && forall k | 0 <= k < n :: a[k] < m
  }

  function Total(w: seq<nat>): nat {
    if w == [] then 0 else Total(w[..|w| - 1]) + w[|w| - 1]
  }

  /** The weight placed on machine `i`. */
  function Load(a: Placement, w: seq<nat>, i: nat): nat
    requires |a| == |w|
  {
    if w == [] then 0
    else Load(a[..|w| - 1], w[..|w| - 1], i) + if a[|w| - 1] == i then w[|w| - 1] else 0
  }

  function Loads(a: Placement, w: seq<nat>, m: nat): seq<nat>
    requires |a| == |w|
  {
    seq(m, i requires 0 <= i < m => Load(a, w, i))
  }

  /** The first position of the least element. */
  function ArgMin(s: seq<nat>): (k: nat)
    requires s != []
    ensures k < |s|
    ensures forall j | 0 <= j < |s| :: s[k] <= s[j]
    ensures forall j | 0 <= j < k :: s[k] < s[j]
  {
    if |s| == 1 then 0
    else
      var k := ArgMin(s[..|s| - 1]);
      if s[|s| - 1] < s[k] then |s| - 1 else k
  }

  /** Each job in turn goes to the least loaded machine, the first of them on a tie. */
  function Greedy(w: seq<nat>, m: nat): (a: Placement)
    requires m > 0
    ensures Places(a, |w|, m)
  {
    if w == [] then []
    else
      var before := Greedy(w[..|w| - 1], m);
      before + [ArgMin(Loads(before, w[..|w| - 1], m))]
  }

  predicate Descending(w: seq<nat>) {
    forall i, j | 0 <= i < j < |w| :: w[i] >= w[j]
  }

  // ----- accounting

  /** The loads of the first `m` machines together. */
  function SumLoads(a: Placement, w: seq<nat>, m: nat): nat
    requires |a| == |w|
  {
    if m == 0 then 0 else SumLoads(a, w, m - 1) + Load(a, w, m - 1)
  }

  lemma {:induction false} SumLoadsStep(a: Placement, w: seq<nat>, m: nat)
    requires |a| == |w| && w != []
    ensures var n := |w| - 1;
            SumLoads(a, w, m) == SumLoads(a[..n], w[..n], m) + if a[n] < m then w[n] else 0
  {
    if m > 0 {
      SumLoadsStep(a, w, m - 1);
    }
  }

  /** Nothing is lost or counted twice. */
  lemma {:induction false} LoadsAddUp(a: Placement, w: seq<nat>, m: nat)
    requires Places(a, |w|, m)
    ensures SumLoads(a, w, m) == Total(w)
  {
    if w == [] {
      NoLoad(a, w, m);
    } else {
      SumLoadsStep(a, w, m);
      LoadsAddUp(a[..|w| - 1], w[..|w| - 1], m);
    }
  }

  lemma {:induction false} NoLoad(a: Placement, w: seq<nat>, m: nat)
    requires |a| == |w| == 0
    ensures SumLoads(a, w, m) == 0
  {
    if m > 0 {
      NoLoad(a, w, m - 1);
    }
  }

  /** A sum of loads lies between the extreme loads times their number. */
  lemma {:induction false} SumBetween(a: Placement, w: seq<nat>, m: nat, low: nat, high: nat)
    requires |a| == |w| && forall i | 0 <= i < m :: low <= Load(a, w, i) <= high
    ensures m * low <= SumLoads(a, w, m) <= m * high
  {
    if m > 0 {
      SumBetween(a, w, m - 1, low, high);
      assert m * low == (m - 1) * low + low && m * high == (m - 1) * high + high;
    }
  }

  lemma JobFits(a: Placement, w: seq<nat>, k: nat)
    requires |a| == |w| && k < |w|
    ensures w[k] <= Load(a, w, a[k])
  {
    if k < |w| - 1 {
      JobFits(a[..|w| - 1], w[..|w| - 1], k);
    }
  }

  // ----- balance

  /** Whatever the order, two loads differ by at most the largest job placed so far. */
  lemma {:induction false} GreedyBalanced(w: seq<nat>, m: nat, largest: nat, i: nat, j: nat)
    requires m > 0 && i < m && j < m && forall k | 0 <= k < |w| :: w[k] <= largest
    ensures Load(Greedy(w, m), w, i) <= Load(Greedy(w, m), w, j) + largest
  {
    if w != [] {
      var n := |w| - 1;
      var before := Greedy(w[..n], m);
      assert Greedy(w, m)[..n] == before;
      GreedyBalanced(w[..n], m, largest, i, j);
      assert Loads(before, w[..n], m)[i] == Load(before, w[..n], i);
      assert Loads(before, w[..n], m)[j] == Load(before, w[..n], j);
    }
  }

  /** The first `k` decisions do not depend on later jobs. */
  lemma {:induction false} GreedyPrefix(w: seq<nat>, m: nat, k: nat)
    requires m > 0 && k <= |w|
    ensures Greedy(w, m)[..k] == Greedy(w[..k], m)
  {
    if k < |w| {
      GreedyPrefix(w[..|w| - 1], m, k);
      assert w[..|w| - 1][..k] == w[..k];
      assert Greedy(w, m)[..k] == Greedy(w[..|w| - 1], m)[..k];
    } else {
      assert w[..k] == w;
    }
  }

  lemma LoadOfMachine(a: Placement, w: seq<nat>, m: nat, i: nat)
    requires |a| == |w| && i < m
    ensures Loads(a, w, m)[i] == Load(a, w, i)
  {
  }

  /** When the first `m - 1` jobs are positive, the first `m` jobs go to different machines. */
  lemma {:induction false} GreedySpreads(w: seq<nat>, m: nat, i: nat)
    requires m > 0 && i < m <= |w| && forall k | 0 <= k < m - 1 :: w[k] > 0
    ensures i in Greedy(w, m)
  {
    var n := |w| - 1;
    var before := Greedy(w[..n], m);
    assert Greedy(w, m) == before + [ArgMin(Loads(before, w[..n], m))];
    if n >= m {
      GreedySpreads(w[..n], m, i);
    } else if i !in before {
      SpreadSoFar(w[..n], m);
      Unused(before, w[..n], i);
      LoadOfMachine(before, w[..n], m, i);
      var chosen := ArgMin(Loads(before, w[..n], m));
      LoadOfMachine(before, w[..n], m, chosen);
      if chosen != i {
        assert chosen !in before by {
          if chosen in before {
            var k :| 0 <= k < |before| && before[k] == chosen;
            JobFits(before, w[..n], k);
          }
        }
        TwoUnused(before, m, i, chosen);
        assert false;
      }
    }
  }

  /** From the first job of weight zero on, when all later ones are, every job goes to the same machine. */
  lemma {:induction false} ZerosShare(w: seq<nat>, m: nat, p: nat, k: nat)
    requires m > 0 && p <= |w| && forall j | p <= j < |w| :: w[j] == 0
    ensures Loads(Greedy(w, m), w, m) == Loads(Greedy(w[..p], m), w[..p], m)
    ensures p <= k < |w| ==> Greedy(w, m)[k] == ArgMin(Loads(Greedy(w[..p], m), w[..p], m))
    decreases |w|
  {
    if |w| == p {
      assert w[..p] == w;
    } else {
      var n := |w| - 1;
      assert w[..n][..p] == w[..p];
      ZerosShare(w[..n], m, p, k);
      var before := Greedy(w[..n], m);
      assert Greedy(w, m) == before + [ArgMin(Loads(before, w[..n], m))];
      hide Greedy, ArgMin;
      LoadsOfZero(before, w, m, ArgMin(Loads(before, w[..n], m)));
      hide Loads;
    }
  }

  lemma LoadsOfZero(before: Placement, w: seq<nat>, m: nat, machine: nat)
    requires w != [] && |before| == |w| - 1 && w[|w| - 1] == 0
    ensures Loads(before + [machine], w, m) == Loads(before, w[..|w| - 1], m)
  {
    assert (before + [machine])[..|before|] == before;
  }

  /** With fewer than `m - 1` jobs before the first of weight zero some machine gets nothing. */
  lemma ZerosLeaveFree(w: seq<nat>, m: nat, p: nat) returns (free: nat)
    requires p + 1 < m && p <= |w| && forall j | p <= j < |w| :: w[j] == 0
    ensures free < m && free !in Greedy(w, m)
  {
    var chosen := ArgMin(Loads(Greedy(w[..p], m), w[..p], m));
    var used := Greedy(w[..p], m) + [chosen];
    free := FreeMachine(used, m);
    GreedyPrefix(w, m, p);
    forall k | 0 <= k < |w| ensures Greedy(w, m)[k] in used {
      if k < p {
        assert Greedy(w, m)[k] == Greedy(w, m)[..p][k];
      } else {
        ZerosShare(w, m, p, k);
      }
    }
  }

  lemma {:induction false} Unused(a: Placement, w: seq<nat>, i: nat)
    requires |a| == |w| && i !in a
    ensures Load(a, w, i) == 0
  {
    if w != [] {
      assert a[|w| - 1] in a;
      assert i !in a[..|w| - 1];
      Unused(a[..|w| - 1], w[..|w| - 1], i);
    }
  }

  predicate AllDifferent(a: Placement) {
    forall j, k | 0 <= j < k < |a| :: a[j] != a[k]
  }

  lemma {:induction false} SpreadSoFar(w: seq<nat>, m: nat)
    requires m > 0 && |w| < m && forall k | 0 <= k < |w| :: w[k] > 0
    ensures AllDifferent(Greedy(w, m))
  {
    if w != [] {
      var n := |w| - 1;
      var before := Greedy(w[..n], m);
      SpreadSoFar(w[..n], m);
      var free := FreeMachine(before, m);
      var chosen := ArgMin(Loads(before, w[..n], m));
      Unused(before, w[..n], free);
      LoadOfMachine(before, w[..n], m, free);
      LoadOfMachine(before, w[..n], m, chosen);
      forall k | 0 <= k < n ensures before[k] != chosen {
        JobFits(before, w[..n], k);
      }
      assert Greedy(w, m) == before + [chosen];
    }
  }

  function Machines(a: Placement): set<nat> {
    set k | 0 <= k < |a| :: a[k]
  }

  lemma {:induction false} MachinesCount(a: Placement)
    ensures |Machines(a)| <= |a|
    ensures AllDifferent(a) ==> |Machines(a)| == |a|
  {
    if a != [] {
      var init, last := a[..|a| - 1], a[|a| - 1];
      MachinesCount(init);
      assert Machines(a) == Machines(init) + {last};
    }
  }

  function Below(m: nat): (r: set<nat>)
    ensures |r| == m
    ensures forall k: nat :: k in r <==> k < m
  {
    if m == 0 then {} else Below(m - 1) + {m - 1}
  }

  lemma FreeMachine(a: Placement, m: nat) returns (free: nat)
    requires |a| < m
    ensures free < m && free !in a
  {
    MachinesCount(a);
    if Below(m) <= Machines(a) {
      SubsetCount(Below(m), Machines(a));
      assert false;
    }
    free :| free in Below(m) && free !in Machines(a);
    forall k | 0 <= k < |a| ensures a[k] != free { assert a[k] in Machines(a); }
  }

  lemma SubsetCount(a: set<nat>, b: set<nat>)
    requires a <= b
    ensures |a| <= |b|
  {
    assert b == a + (b - a);
  }

  /** Jobs on different machines leave room for the machines they do not use. */
  lemma TwoUnused(a: Placement, m: nat, i: nat, j: nat)
    requires Places(a, |a|, m) && AllDifferent(a)
    requires i < m && j < m && i != j && i !in a && j !in a
    ensures |a| + 2 <= m
  {
    MachinesCount(a);
    assert Machines(a) <= Below(m) - {i, j};
    SubsetCount(Machines(a), Below(m) - {i, j});
    assert |Below(m) - {i, j}| == m - 2;
  }

  // ----- Graham's bound

  /** The first `t` of `n` jobs weigh two, the others one. */
  function Steps(n: nat, t: nat): seq<nat> {
    seq(n, k => if k < t then 2 else 1)
  }

  lemma {:induction false} StepsTotal(n: nat, t: nat)
    requires t <= n
    ensures Total(Steps(n, t)) == n + t
  {
    if n > 0 {
      assert Steps(n, t)[..n - 1] == Steps(n - 1, t);
      if t < n {
        StepsTotal(n - 1, t);
      } else {
        assert Steps(n - 1, t) == Steps(n - 1, t - 1);
        StepsTotal(n - 1, t - 1);
      }
    }
  }

  /** Step weight at most one: at most one job, from the later ones. */
  lemma {:induction false} LightMachine(a: Placement, w: seq<nat>, t: nat, i: nat, bound: nat)
    requires |a| == |w| && forall k | t <= k < |w| :: w[k] <= bound
    ensures Load(a, Steps(|w|, t), i) == 0 ==> Load(a, w, i) == 0
    ensures Load(a, Steps(|w|, t), i) == 1 ==> Load(a, w, i) <= bound
  {
    if w != [] {
      var n := |w| - 1;
      assert Steps(|w|, t)[..n] == Steps(n, t);
      LightMachine(a[..n], w[..n], t, i, bound);
    }
  }

  function Min(x: nat, y: nat): nat {
    if x <= y then x else y
  }

  /** A lower bound on a load from its step weight. */
  lemma {:induction false} HeavyMachine(a: Placement, w: seq<nat>, t: nat, i: nat, big: nat, small: nat)
    requires |a| == |w| && small <= big
    requires forall k | 0 <= k < |w| :: w[k] >= small && (k < t ==> w[k] >= big)
    ensures var steps, load := Load(a, Steps(|w|, t), i), Load(a, w, i);
            && (steps >= 1 ==> load >= small)
            && (steps >= 2 ==> load >= Min(big, 2 * small))
            && (steps >= 3 ==> load >= Min(big + small, 3 * small))
  {
    if w != [] {
      var n := |w| - 1;
      assert Steps(|w|, t)[..n] == Steps(n, t);
      HeavyMachine(a[..n], w[..n], t, i, big, small);
    }
  }

  /** Fewer than two per machine: some machine has at most one. */
  lemma SomeLight(a: Placement, w: seq<nat>, m: nat) returns (i: nat)
    requires Places(a, |w|, m) && Total(w) < 2 * m
    ensures i < m && Load(a, w, i) <= 1
  {
    LoadsAddUp(a, w, m);
    if forall k | 0 <= k < m :: Load(a, w, k) >= 2 {
      SumAtLeastTwo(a, w, m);
      assert false;
    }
    i :| 0 <= i < m && Load(a, w, i) < 2;
  }

  lemma {:induction false} SumAtLeastTwo(a: Placement, w: seq<nat>, m: nat)
    requires |a| == |w| && forall k | 0 <= k < m :: Load(a, w, k) >= 2
    ensures SumLoads(a, w, m) >= 2 * m
  {
    if m > 0 { SumAtLeastTwo(a, w, m - 1); }
  }

  /** More than two per machine: some machine has at least three. */
  lemma SomeHeavy(a: Placement, w: seq<nat>, m: nat) returns (i: nat)
    requires Places(a, |w|, m) && Total(w) > 2 * m
    ensures i < m && Load(a, w, i) >= 3
  {
    LoadsAddUp(a, w, m);
    if forall k | 0 <= k < m :: Load(a, w, k) <= 2 {
      SumAtMostTwo(a, w, m);
      assert false;
    }
    i :| 0 <= i < m && Load(a, w, i) > 2;
  }

  lemma {:induction false} SumAtMostTwo(a: Placement, w: seq<nat>, m: nat)
    requires |a| == |w| && forall k | 0 <= k < m :: Load(a, w, k) <= 2
    ensures SumLoads(a, w, m) <= 2 * m
  {
    if m > 0 { SumAtMostTwo(a, w, m - 1); }
  }

  ghost predicate LoadsWithin(a: Placement, w: seq<nat>, m: nat, cap: nat) {
    Places(a, |w|, m) && forall i | 0 <= i < m :: Load(a, w, i) <= cap
  }

  /**
   When every job exceeds a third of `cap`, a placement within `cap` pairs a job among the first
   `2m - n + 1` with another one, while any placement of all jobs but the last leaves a machine with
   at most one of the later jobs.
   */
  lemma LargeJobs(before: Placement, other: Placement, w: seq<nat>, m: nat, cap: nat) returns (i: nat)
    requires w != [] && Descending(w) && Places(before, |w| - 1, m)
    requires LoadsWithin(other, w, m, cap) && 3 * w[|w| - 1] > cap
    ensures i < m && Load(before, w[..|w| - 1], i) + w[|w| - 1] <= cap
  {
    var n, last := |w|, w[|w| - 1];
    i := 0;
    if n <= m {
      i := FreeMachine(before, m);
      Unused(before, w[..n - 1], i);
      JobFits(other, w, n - 1);
    } else if n > 2 * m {
      StepsTotal(n, 0);
      var j := SomeHeavy(other, Steps(n, 0), m);
      HeavyMachine(other, w, 0, j, 2 * last, last);
      assert false;
    } else {
      var t := 2 * m - n;
      StepsTotal(n, t + 1);
      var j := SomeHeavy(other, Steps(n, t + 1), m);
      HeavyMachine(other, w, t + 1, j, w[t], last);
      StepsTotal(n - 1, t);
      i := SomeLight(before, Steps(n - 1, t), m);
      LightMachine(before, w[..n - 1], t, i, w[t]);
    }
  }

  lemma LeastLoad(w: seq<nat>, m: nat, i: nat)
    requires m > 0 && w != [] && i < m
    ensures var n, g := |w| - 1, Greedy(w, m);
            Load(g, w, g[n]) - w[n] <= Load(g[..n], w[..n], i)
  {
    var n := |w| - 1;
    var before := Greedy(w[..n], m);
    var chosen := ArgMin(Loads(before, w[..n], m));
    assert Greedy(w, m)[..n] == before && Greedy(w, m)[n] == chosen;
    LoadOfMachine(before, w[..n], m, i);
    LoadOfMachine(before, w[..n], m, chosen);
  }

  lemma MulMonotone(a: nat, x: nat, y: nat)
    requires x <= y
    ensures a * x <= a * y
  {
  }

  /** The first bound: a load is at most the average plus most of one job. */
  lemma {:induction false} AverageBound(w: seq<nat>, m: nat, largest: nat, i: nat)
    requires m > 0 && i < m && forall k | 0 <= k < |w| :: w[k] <= largest
    ensures m * Load(Greedy(w, m), w, i) <= Total(w) + (m - 1) * largest
  {
    var g := Greedy(w, m);
    if w == [] {
      assert Load(g, w, i) == 0;
    } else {
      var n := |w| - 1;
      assert g[..n] == Greedy(w[..n], m);
      if g[n] != i {
        AverageBound(w[..n], m, largest, i);
        assert Load(g, w, i) == Load(g[..n], w[..n], i);
      } else {
        LastJobAverage(w, m);
        MulMonotone(m - 1, w[n], largest);
      }
    }
  }

  lemma LastJobAverage(w: seq<nat>, m: nat)
    requires m > 0 && w != []
    ensures var n := |w| - 1;
            var g := Greedy(w, m);
            m * Load(g, w, g[n]) <= Total(w) + (m - 1) * w[n]
  {
    hide Load, Total, SumLoads;
    var n := |w| - 1;
    var g := Greedy(w, m);
    assert g[..n] == Greedy(w[..n], m);
    var least := LastLoad(g, w);
    forall i | 0 <= i < m ensures least <= Load(g[..n], w[..n], i) <= Total(w[..n]) {
      LeastLoad(w, m, i);
      LoadAtMostTotal(g[..n], w[..n], i);
    }
    SumBetween(g[..n], w[..n], m, least, Total(w[..n]));
    LoadsAddUp(g[..n], w[..n], m);
    AverageArithmetic(m, least, w[n], Total(w[..n]));
  }

  lemma LastLoad(a: Placement, w: seq<nat>) returns (rest: nat)
    requires |a| == |w| && w != []
    ensures rest == Load(a, w, a[|w| - 1]) - w[|w| - 1]
    ensures Total(w) == Total(w[..|w| - 1]) + w[|w| - 1]
  {
    rest := Load(a[..|w| - 1], w[..|w| - 1], a[|w| - 1]);
  }

  lemma AverageArithmetic(m: nat, least: nat, last: nat, total: nat)
    requires m > 0 && m * least <= total
    ensures m * (least + last) <= total + last + (m - 1) * last
  {
    assert m * (least + last) == m * least + m * last;
    assert m * last == last + (m - 1) * last;
  }

  lemma {:induction false} LoadAtMostTotal(a: Placement, w: seq<nat>, i: nat)
    requires |a| == |w|
    ensures Load(a, w, i) <= Total(w)
  {
    if w != [] {
      LoadAtMostTotal(a[..|w| - 1], w[..|w| - 1], i);
    }
  }

  /** Graham: no load of the longest-first placement exceeds (4m - 1) / 3m times any placement's cap. */
  lemma {:induction false} GrahamBound(w: seq<nat>, m: nat, other: Placement, cap: nat, i: nat)
    requires m > 0 && i < m && Descending(w) && LoadsWithin(other, w, m, cap)
    ensures 3 * m * Load(Greedy(w, m), w, i) <= (4 * m - 1) * cap
  {
    var g := Greedy(w, m);
    if w == [] {
      assert Load(g, w, i) == 0;
    } else {
      var n := |w| - 1;
      assert g[..n] == Greedy(w[..n], m);
      if g[n] != i {
        assert LoadsWithin(other[..n], w[..n], m, cap) by {
          forall k | 0 <= k < m ensures Load(other[..n], w[..n], k) <= cap {
            assert Load(other[..n], w[..n], k) <= Load(other, w, k);
          }
        }
        GrahamBound(w[..n], m, other[..n], cap, i);
      } else if 3 * w[n] <= cap {
        LastJobAverage(w, m);
        SumBetween(other, w, m, 0, cap);
        LoadsAddUp(other, w, m);
        SmallJobArithmetic(m, Load(g, w, i), Total(w), w[n], cap);
      } else {
        var k := LargeJobs(g[..n], other, w, m, cap);
        LeastLoad(w, m, k);
        LargeJobArithmetic(m, Load(g, w, i), cap);
      }
    }
  }

  lemma SmallJobArithmetic(m: nat, load: nat, total: nat, last: nat, cap: nat)
    requires m > 0 && m * load <= total + (m - 1) * last && total <= m * cap && 3 * last <= cap
    ensures 3 * m * load <= (4 * m - 1) * cap
  {
    var x, y := m * load, (m - 1) * last;
    MulMonotone(m - 1, 3 * last, cap);
    Triple(m - 1, last, y);
    Triple(m, load, x);
    FourTimes(m, cap);
  }

  lemma Triple(a: nat, b: nat, c: nat)
    requires c == a * b
    ensures a * (3 * b) == 3 * c && 3 * a * b == 3 * c
  {
  }

  lemma FourTimes(m: nat, cap: nat)
    requires m > 0
    ensures (4 * m - 1) * cap == 3 * (m * cap) + (m - 1) * cap
  {
  }

  lemma LargeJobArithmetic(m: nat, load: nat, cap: nat)
    requires m > 0 && load <= cap
    ensures 3 * m * load <= (4 * m - 1) * cap
  {
    assert 3 * m * load <= 3 * m * cap;
    assert (4 * m - 1) * cap == 3 * m * cap + (m - 1) * cap;
  }
}
