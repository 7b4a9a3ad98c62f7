/**
 The baseline pipeline: scripts/resolve_upgrade_baselines.py resolves a policy,
 scripts/release-preflight.py selects the release matrix from it, and
 scripts/select-release-validation-lane.py recomputes the matrix before it gives out a lane.
 */
module Baselines {
  import opened Outcomes
  import opened Sorting
  import opened Versions

  /**
   A policy document. `wellTyped` says that it has exactly the expected fields, schema version 2, canonical
   version texts and integer config versions; the windows list is the only platform list.
   */
  datatype Policy = Policy(wellTyped: bool, versions: seq<Version>, configs: map<Version, int>, windows: seq<Version>)

  datatype BaselineError =
    | Malformed | NothingOlder | AnchorMissing(anchor: Version) | FamilyMissing(minor: nat) | WrongCount
    | NotOlder | BridgeMissing | NoBoundary | WrongHardCut | NoRecovery | WrongRecovery | WrongSelection | NotInMatrix

  const BRIDGE := Version(0, 8, 4)
  const HARD_CUT := Version(0, 8, 5)
  const RECOVERY := Version(0, 8, 6)
  const HISTORICAL := Version(0, 8, 7)

  ghost predicate Descending(versions: seq<Version>) {
    forall i, j | 0 <= i < j < |versions| :: Below(versions[j], versions[i])
  }

  /** `[version for version in versions if version in windows]`. */
  function Keep(versions: seq<Version>, wanted: set<Version>): seq<Version> {
    if versions == [] then []
    else
      var n := |versions| - 1;
      Keep(versions[..n], wanted) + if versions[n] in wanted then [versions[n]] else []
  }

  function Elements(versions: seq<Version>): set<Version> {
    set v | v in versions
  }

  /** What every reader of a policy checks. */
  ghost predicate WellFormed(p: Policy) {
    && p.wellTyped && p.versions != [] && Descending(p.versions)
    && p.configs.Keys == Elements(p.versions) && (forall v | v in p.configs :: p.configs[v] >= 1)
    && p.windows == Keep(p.versions, Elements(p.windows)) && Elements(p.windows) <= Elements(p.versions)
  }

  predicate Adjacent(versions: seq<Version>) {
    forall i | 0 <= i < |versions| - 1 :: Below(versions[i + 1], versions[i])
  }

  lemma {:induction false} AdjacentDescending(versions: seq<Version>, i: nat, j: nat)
    requires Adjacent(versions) && i < j < |versions|
    ensures Below(versions[j], versions[i])
  {
    if i < j - 1 {
      AdjacentDescending(versions, i, j - 1);
    }
  }

  /** The check `versions == sorted(versions, reverse=True)` on distinct versions. */
  lemma AdjacentIff(versions: seq<Version>)
    ensures Adjacent(versions) <==> Descending(versions)
  {
    if Adjacent(versions) {
      forall i, j | 0 <= i < j < |versions| ensures Below(versions[j], versions[i]) {
        AdjacentDescending(versions, i, j);
      }
    }
  }

  // ----- the release matrix

  function OlderThan(versions: seq<Version>, target: Version): (older: seq<Version>)
    ensures forall v :: v in older <==> v in versions && Below(v, target)
  {
    if versions == [] then []
    else
      var n := |versions| - 1;
      assert forall v :: v in versions <==> v in versions[..n] || v == versions[n];
      OlderThan(versions[..n], target) + if Below(versions[n], target) then [versions[n]] else []
  }

  function InFamily(versions: seq<Version>, minor: nat): (family: seq<Version>)
    ensures forall v :: v in family <==> v in versions && v.major == 0 && v.minor == minor
  {
    if versions == [] then []
    else
      var n := |versions| - 1;
      assert forall v :: v in versions <==> v in versions[..n] || v == versions[n];
      InFamily(versions[..n], minor) +
      if versions[n].major == 0 && versions[n].minor == minor then [versions[n]] else []
  }

  function AddNew(selected: seq<Version>, v: Version): seq<Version> {
    if v in selected then selected else selected + [v]
  }

  const ANCHORS := [RECOVERY, HARD_CUT, BRIDGE]
  const FAMILIES: seq<nat> := [7, 6, 5]

  /** The anchors that predate the target, each once, after the newest baseline. */
  function WithAnchors(older: seq<Version>, target: Version, n: nat): Result<seq<Version>, BaselineError>
    requires older != [] && n <= |ANCHORS|
  {
    if n == 0 then Ok([Newest(older)])
    else
      var before := WithAnchors(older, target, n - 1);
      if before.Err? || !Below(ANCHORS[n - 1], target) then before
      else if ANCHORS[n - 1] !in older then Err(AnchorMissing(ANCHORS[n - 1]))
      else Ok(AddNew(before.value, ANCHORS[n - 1]))
  }

  function WithFamilies(older: seq<Version>, target: Version, n: nat): Result<seq<Version>, BaselineError>
    requires older != [] && n <= |FAMILIES|
  {
    if n == 0 then WithAnchors(older, target, |ANCHORS|)
    else
      var before := WithFamilies(older, target, n - 1);
      if before.Err? then before
      else
        var family := InFamily(older, FAMILIES[n - 1]);
        if family == [] then Err(FamilyMissing(FAMILIES[n - 1])) else Ok(AddNew(before.value, Newest(family)))
  }

  function Lanes(target: Version): nat {
    if target == HISTORICAL then 6 else 7
  }

  ghost function Selection(p: Policy, target: Version): Result<seq<Version>, BaselineError> {
    if !WellFormed(p) then Err(Malformed)
    else
      var older := OlderThan(p.versions, target);
      if older == [] then Err(NothingOlder)
      else
        var selected := WithFamilies(older, target, |FAMILIES|);
        if selected.Ok? && |selected.value| != Lanes(target) then Err(WrongCount) else selected
  }

  /** The policy that is on disk afterwards: without Windows baselines after a success, and untouched otherwise. */
  ghost function Persisted(p: Policy, target: Version): Policy {
    if Selection(p, target).Ok? then p.(windows := []) else p
  }

  predicate NoRepeats(versions: seq<Version>) {
    |Elements(versions)| == |versions|
  }

  /** The guard of `select_upgrade_baselines`. */
  predicate PassesGuard(p: Policy) {
    && p.wellTyped && p.versions != [] && NoRepeats(p.versions) && Adjacent(p.versions)
    && p.configs.Keys == Elements(p.versions) && (forall v | v in p.configs :: p.configs[v] >= 1)
    && (forall v | v in p.windows :: v in p.versions) && NoRepeats(p.windows)
    && p.windows == Keep(p.versions, Elements(p.windows))
  }

  /** scripts/release-preflight.py `select_upgrade_baselines`; `persisted` is the policy written back. */
  method SelectUpgradeBaselines(policy: Policy, target: Version)
    returns (r: Result<seq<Version>, BaselineError>, persisted: Policy)
    ensures r == Selection(policy, target)
    ensures persisted == Persisted(policy, target)
  {
    persisted := policy;
    GuardIff(policy);
    if !PassesGuard(policy) {
      return Err(Malformed), persisted;
    }
    var older := OlderThan(policy.versions, target);
    if older == [] {
      return Err(NothingOlder), persisted;
    }
    var selected := ChooseMatrix(older, target);
    if selected.Err? {
      return selected, persisted;
    }
    if |selected.value| != Lanes(target) {
      return Err(WrongCount), persisted;
    }
    return selected, policy.(windows := []);
  }

  method ChooseMatrix(older: seq<Version>, target: Version) returns (r: Result<seq<Version>, BaselineError>)
    requires older != []
    ensures r == WithFamilies(older, target, |FAMILIES|)
  {
    assert |ANCHORS| == |FAMILIES| == 3;
    hide *;
    var selected := [Newest(older)];
    AnchorsStart(older, target);
    for n := 0 to |ANCHORS|
      invariant WithAnchors(older, target, n) == Ok(selected)
    {
      AnchorStep(older, target, n);
      if Below(ANCHORS[n], target) {
        if ANCHORS[n] !in older {
          AnchorsFail(older, target, n + 1, |ANCHORS|);
          FamiliesStart(older, target);
          FamiliesFail(older, target, 0, |FAMILIES|);
          return Err(AnchorMissing(ANCHORS[n]));
        }
        selected := AddNew(selected, ANCHORS[n]);
      }
    }
    FamiliesStart(older, target);
    for n := 0 to |FAMILIES|
      invariant WithFamilies(older, target, n) == Ok(selected)
    {
      var family := InFamily(older, FAMILIES[n]);
      FamilyStep(older, target, n);
      if family == [] {
        FamiliesFail(older, target, n + 1, |FAMILIES|);
        return Err(FamilyMissing(FAMILIES[n]));
      }
      selected := AddNew(selected, Newest(family));
    }
    return Ok(selected);
  }

  lemma AnchorsStart(older: seq<Version>, target: Version)
    requires older != []
    ensures WithAnchors(older, target, 0) == Ok([Newest(older)])
  {
  }

  lemma AnchorStep(older: seq<Version>, target: Version, n: nat)
    requires older != [] && n < |ANCHORS| && WithAnchors(older, target, n).Ok?
    ensures WithAnchors(older, target, n + 1) ==
            if !Below(ANCHORS[n], target) then WithAnchors(older, target, n)
            else if ANCHORS[n] !in older then Err(AnchorMissing(ANCHORS[n]))
            else Ok(AddNew(WithAnchors(older, target, n).value, ANCHORS[n]))
  {
    hide Below, AddNew;
  }

  lemma FamiliesStart(older: seq<Version>, target: Version)
    requires older != []
    ensures WithFamilies(older, target, 0) == WithAnchors(older, target, |ANCHORS|)
  {
    hide WithAnchors;
  }

  lemma FamilyStep(older: seq<Version>, target: Version, n: nat)
    requires older != [] && n < |FAMILIES| && WithFamilies(older, target, n).Ok?
    ensures var family := InFamily(older, FAMILIES[n]);
            WithFamilies(older, target, n + 1) ==
              if family == [] then Err(FamilyMissing(FAMILIES[n]))
              else Ok(AddNew(WithFamilies(older, target, n).value, Newest(family)))
  {
    hide AddNew, Newest, InFamily;
  }

  lemma {:induction false} AnchorsFail(older: seq<Version>, target: Version, m: nat, n: nat)
    requires older != [] && m <= n <= |ANCHORS|
    ensures WithAnchors(older, target, m).Err? ==> WithAnchors(older, target, n) == WithAnchors(older, target, m)
  {
    if m < n {
      AnchorsFail(older, target, m, n - 1);
    }
  }

  lemma {:induction false} FamiliesFail(older: seq<Version>, target: Version, m: nat, n: nat)
    requires older != [] && m <= n <= |FAMILIES|
    ensures WithFamilies(older, target, m).Err? ==> WithFamilies(older, target, n) == WithFamilies(older, target, m)
  {
    if m < n {
      FamiliesFail(older, target, m, n - 1);
    }
  }

  lemma {:induction false} CountRepeats(versions: seq<Version>)
    ensures |Elements(versions)| <= |versions|
    ensures NoRepeats(versions) <==> Distinct(versions)
  {
    if versions != [] {
      var front, last := versions[..|versions| - 1], versions[|versions| - 1];
      CountRepeats(front);
      assert versions == front + [last];
      assert Elements(versions) == Elements(front) + {last};
      if last in front {
        var i :| 0 <= i < |front| && front[i] == last;
        assert versions[i] == versions[|front|];
      }
      assert Distinct(versions) <==> Distinct(front) && last !in front by {
        assert forall i | 0 <= i < |front| :: versions[i] == front[i];
      }
    }
  }

  lemma {:induction false} KeepOf(versions: seq<Version>, wanted: set<Version>)
    requires Descending(versions)
    ensures Descending(Keep(versions, wanted)) &&
              forall v :: v in Keep(versions, wanted) <==> v in versions && v in wanted
  {
    if versions != [] {
      var front, last := versions[..|versions| - 1], versions[|versions| - 1];
      KeepOf(front, wanted);
      assert forall v :: v in versions <==> v in front || v == last;
      var kept := Keep(front, wanted);
      forall i | 0 <= i < |kept| ensures Below(last, kept[i]) {
        assert kept[i] in kept;
        var j :| 0 <= j < |front| && front[j] == kept[i];
        assert versions[j] == kept[i];
      }
    }
  }

  /** The guard admits exactly the well-formed policies. */
  lemma GuardIff(p: Policy)
    ensures PassesGuard(p) <==> WellFormed(p)
  {
    AdjacentIff(p.versions);
    CountRepeats(p.versions);
    CountRepeats(p.windows);
    if WellFormed(p) {
      KeepOf(p.versions, Elements(p.windows));
      assert forall v | v in p.windows :: v in Elements(p.windows);
    }
  }

  lemma {:induction false} DescendingUnique(a: seq<Version>, b: seq<Version>)
    requires Descending(a) && Descending(b) && forall v :: v in a <==> v in b
    ensures a == b
  {
    assert (a != [] ==> a[0] in a) && (b != [] ==> b[0] in b);
    if a != [] && b != [] {
      assert a[0] in b && b[0] in a;
      assert a[0] == b[0];
      assert forall v :: v in a <==> v == a[0] || v in a[1..];
      assert forall v :: v in b <==> v == b[0] || v in b[1..];
      assert a[0] !in a[1..] && b[0] !in b[1..];
      DescendingUnique(a[1..], b[1..]);
    }
  }

  /**
   A policy is well formed exactly when its versions and its Windows versions fall, the latter are among the former,
   and each version, of which there is one, has a config of at least 1.
   */
  lemma WellFormedIff(p: Policy)
    ensures WellFormed(p) <==>
              && p.wellTyped && p.versions != [] && Descending(p.versions)
              && Descending(p.windows) && (forall v | v in p.windows :: v in p.versions)
              && (forall v :: v in p.versions <==> v in p.configs)
              && forall v | v in p.versions :: v in p.configs && p.configs[v] >= 1
  {
    assert Elements(p.windows) <= Elements(p.versions) <==> forall v | v in p.windows :: v in p.versions by {
      assert forall v :: v in p.windows <==> v in Elements(p.windows);
    }
    assert p.configs.Keys == Elements(p.versions) <==> forall v :: v in p.versions <==> v in p.configs by {
      assert forall v :: v in p.versions <==> v in Elements(p.versions);
    }
    if Descending(p.versions) && forall v | v in p.windows :: v in p.versions {
      KeepOf(p.versions, Elements(p.windows));
      if Descending(p.windows) {
        DescendingUnique(p.windows, Keep(p.versions, Elements(p.windows)));
      }
    }
    hide Descending, Keep;
  }

  // ----- the validation lane

  datatype Lane = BridgeDependencyDrift | FieldRecovery | Published

  /** The versions after the bridge with a newer config, oldest first. */
  function PostBridge(p: Policy, bridge: Version): seq<Version>
    requires bridge in p.configs && forall v | v in p.versions :: v in p.configs
  {
    SortBy(AfterBridge(p, p.versions, bridge), AtMost)
  }

  function AfterBridge(p: Policy, versions: seq<Version>, bridge: Version): (after: seq<Version>)
    requires bridge in p.configs && forall v | v in versions :: v in p.configs
    ensures forall v :: v in after <==> v in versions && Below(bridge, v) && p.configs[v] > p.configs[bridge]
  {
    if versions == [] then []
    else
      var n := |versions| - 1;
      assert forall v :: v in versions <==> v in versions[..n] || v == versions[n];
      AfterBridge(p, versions[..n], bridge)
      + if Below(bridge, versions[n]) && p.configs[versions[n]] > p.configs[bridge] then [versions[n]] else []
  }

  /** The versions of `post` after the hard cut with the hard cut's config. */
  function Natives(p: Policy, post: seq<Version>, hardCut: Version): (natives: seq<Version>)
    requires hardCut in p.configs && forall v | v in post :: v in p.configs
    ensures forall v :: v in natives <==> v in post && p.configs[v] == p.configs[hardCut] && Below(hardCut, v)
  {
    if post == [] then []
    else
      var n := |post| - 1;
      assert forall v :: v in post <==> v in post[..n] || v == post[n];
      Natives(p, post[..n], hardCut)
      + if p.configs[post[n]] == p.configs[hardCut] && Below(hardCut, post[n]) then [post[n]] else []
  }

  /** The matrix that the policy and the manifest demand. */
  function RequiredMatrix(p: Policy, release: Version, bridge: Version): Result<seq<Version>, BaselineError> {
    if !PassesGuard(p) then Err(Malformed)
    else if exists v | v in p.versions :: !Below(v, release) then Err(NotOlder)
    else if bridge !in p.versions then Err(BridgeMissing)
    else
      assert forall v | v in p.versions :: v in Elements(p.versions);
      var post := PostBridge(p, bridge);
      SameElements(post, AfterBridge(p, p.versions, bridge));
      if post == [] then Err(NoBoundary)
      else if post[0] != HARD_CUT then Err(WrongHardCut)
      else
        assert post[0] in post;
        var natives := Natives(p, post, HARD_CUT);
        if natives == [] then Err(NoRecovery)
        else if natives[0] != RECOVERY then Err(WrongRecovery)
        else
          var sevens, sixes, fives := InFamily(p.versions, 7), InFamily(p.versions, 6), InFamily(p.versions, 5);
          if sevens == [] then Err(FamilyMissing(7))
          else if sixes == [] then Err(FamilyMissing(6))
          else if fives == [] then Err(FamilyMissing(5))
          else
            var tail := [HARD_CUT, bridge, Newest(sevens), Newest(sixes), Newest(fives)];
            var historical := release == HISTORICAL && p.versions[0] == RECOVERY;
            var matrix := if historical then [p.versions[0]] + tail else [p.versions[0], RECOVERY] + tail;
            if NoRepeats(matrix) then Ok(matrix) else Err(WrongCount)
  }

  /** scripts/select-release-validation-lane.py `select_lane`. */
  function SelectLane(p: Policy, release: Version, bridge: Version, selected: seq<Version>,
                      baseline: Version): Result<Lane, BaselineError> {
    var matrix := RequiredMatrix(p, release, bridge);
    if matrix.Err? then Err(matrix.error)
    else if selected != matrix.value then Err(WrongSelection)
    else if baseline !in matrix.value then Err(NotInMatrix)
    else if baseline == bridge then Ok(BridgeDependencyDrift)
    else if baseline == RECOVERY then Ok(FieldRecovery)
    else Ok(Published)
  }

  // ----- the two selectors agree

  /** The configs put the hard cut after the bridge and the recovery release on the hard cut's config. */
  predicate ConfigsAgree(p: Policy) {
    && BRIDGE in p.configs && HARD_CUT in p.configs && RECOVERY in p.configs
    && p.configs[BRIDGE] < p.configs[HARD_CUT] && p.configs[HARD_CUT] == p.configs[RECOVERY]
  }

  lemma {:induction false} AllOlder(versions: seq<Version>, target: Version)
    requires forall v | v in versions :: Below(v, target)
    ensures OlderThan(versions, target) == versions
  {
    if versions != [] {
      var n := |versions| - 1;
      assert versions[n] in versions && versions == versions[..n] + [versions[n]];
      AllOlder(versions[..n], target);
    }
  }

  lemma NewestIsFirst(versions: seq<Version>)
    requires versions != [] && Descending(versions)
    ensures Newest(versions) == versions[0]
  {
    var newest := Newest(versions);
    var i :| 0 <= i < |versions| && versions[i] == newest;
    assert versions[0] in versions;
    assert AtMost(versions[0], newest);
  }

  lemma LeastFirst(versions: seq<Version>, least: Version)
    requires SortedBy(versions, AtMost) && least in versions && forall v | v in versions :: AtMost(least, v)
    ensures versions[0] == least
  {
    var i :| 0 <= i < |versions| && versions[i] == least;
    assert versions[0] in versions;
    assert AtMost(versions[0], least);
  }

  lemma {:induction false} NativesSorted(p: Policy, post: seq<Version>, hardCut: Version)
    requires hardCut in p.configs && (forall v | v in post :: v in p.configs) && SortedBy(post, AtMost)
    ensures SortedBy(Natives(p, post, hardCut), AtMost)
  {
    if post != [] {
      var front, last := post[..|post| - 1], post[|post| - 1];
      NativesSorted(p, front, hardCut);
      var before := Natives(p, front, hardCut);
      forall i | 0 <= i < |before| ensures AtMost(before[i], last) {
        assert before[i] in before;
        var j :| 0 <= j < |front| && front[j] == before[i];
        assert AtMost(post[j], post[|post| - 1]);
      }
    }
  }

  lemma PostBridgeIs(p: Policy)
    requires WellFormed(p) && BRIDGE in p.versions
    ensures BRIDGE in p.configs && forall v | v in p.versions :: v in p.configs
    ensures forall v :: v in PostBridge(p, BRIDGE) <==>
              v in p.versions && Below(BRIDGE, v) && p.configs[v] > p.configs[BRIDGE]
    ensures SortedBy(PostBridge(p, BRIDGE), AtMost)
  {
    assert forall v :: v in p.versions <==> v in Elements(p.versions);
    BelowIsOrder();
    var after := AfterBridge(p, p.versions, BRIDGE);
    SortBySorted(after, AtMost);
    SameElements(PostBridge(p, BRIDGE), after);
  }

  /**
   The oldest version past the bridge with a newer config is the hard cut, and the next on its config the recovery.
   */
  ghost predicate BoundaryHolds(p: Policy)
    requires BRIDGE in p.configs && forall v | v in p.versions :: v in p.configs
  {
    var post := PostBridge(p, BRIDGE);
    && post != [] && post[0] == HARD_CUT && HARD_CUT in p.configs && (forall v | v in post :: v in p.configs)
    && var natives := Natives(p, post, HARD_CUT);
       natives != [] && natives[0] == RECOVERY
  }

  lemma ConfigKeys(p: Policy)
    requires WellFormed(p)
    ensures forall v :: v in p.versions <==> v in p.configs
  {
    assert forall v :: v in p.versions <==> v in Elements(p.versions);
  }

  lemma AgreeingHasBoundary(p: Policy)
    requires WellFormed(p) && ConfigsAgree(p) && BRIDGE in p.versions && forall v | v in p.versions :: v in p.configs
    ensures BoundaryHolds(p)
  {
    PostBridgeIs(p);
    ConfigKeys(p);
    var post := PostBridge(p, BRIDGE);
    hide PostBridge, WellFormed, SortedBy;
    LeastFirst(post, HARD_CUT);
    NativesSorted(p, post, HARD_CUT);
    LeastFirst(Natives(p, post, HARD_CUT), RECOVERY);
  }

  lemma BoundaryAgrees(p: Policy)
    requires WellFormed(p) && BRIDGE in p.versions && (forall v | v in p.versions :: v in p.configs) && BoundaryHolds(p)
    ensures ConfigsAgree(p)
  {
    PostBridgeIs(p);
    ConfigKeys(p);
    var post := PostBridge(p, BRIDGE);
    hide PostBridge, WellFormed, SortedBy;
    assert post[0] in post;
    var natives := Natives(p, post, HARD_CUT);
    assert natives[0] in natives;
  }

  lemma NewestOf(versions: seq<Version>, minor: nat)
    requires InFamily(versions, minor) != []
    ensures var v := Newest(InFamily(versions, minor)); v.major == 0 && v.minor == minor
  {
  }

  function Head(older: seq<Version>): seq<Version>
    requires older != []
  {
    if Newest(older) == RECOVERY then [RECOVERY] else [Newest(older), RECOVERY]
  }

  function Tail(older: seq<Version>): seq<Version>
    requires InFamily(older, 7) != [] && InFamily(older, 6) != [] && InFamily(older, 5) != []
  {
    [HARD_CUT, BRIDGE, Newest(InFamily(older, 7)), Newest(InFamily(older, 6)), Newest(InFamily(older, 5))]
  }

  lemma AddLast(s: seq<Version>, v: Version)
    ensures v !in s ==> AddNew(s, v) == s + [v]
    ensures forall w :: w in s + [v] <==> w in s || w == v
  {
  }

  lemma HeadIs(older: seq<Version>)
    requires older != [] && RECOVERY in older
    ensures forall v | v in Head(older) :: AtMost(RECOVERY, v)
  {
    assert AtMost(RECOVERY, Newest(older));
  }

  lemma HeadStep(older: seq<Version>)
    requires older != []
    ensures AddNew([Newest(older)], RECOVERY) == Head(older)
  {
  }

  /** With all anchors older than the target, the anchors chosen. */
  lemma ChosenAnchors(older: seq<Version>, target: Version)
    requires older != [] && Below(RECOVERY, target)
    ensures WithAnchors(older, target, 3).Ok? <==> RECOVERY in older && HARD_CUT in older && BRIDGE in older
    ensures RECOVERY in older && HARD_CUT in older && BRIDGE in older ==>
              WithAnchors(older, target, 3) == Ok(Head(older) + [HARD_CUT] + [BRIDGE])
  {
    AnchorsStart(older, target);
    assert Below(HARD_CUT, target) && Below(BRIDGE, target);
    hide WithAnchors, Newest;
    AnchorStep(older, target, 0);
    if RECOVERY !in older {
      AnchorsFail(older, target, 1, 3);
    } else {
      HeadIs(older);
      HeadStep(older);
      AnchorStep(older, target, 1);
      if HARD_CUT !in older {
        AnchorsFail(older, target, 2, 3);
      } else {
        AddLast(Head(older), HARD_CUT);
        AnchorStep(older, target, 2);
        AddLast(Head(older) + [HARD_CUT], BRIDGE);
      }
    }
  }

  lemma Flatten(head: seq<Version>, a: Version, b: Version, c: Version, d: Version, e: Version)
    ensures head + [a] + [b] + [c] + [d] + [e] == head + [a, b, c, d, e]
  {
  }

  /** Family baselines differ from each other and from everything that is not older than the bridge. */
  lemma ThreeFamilies(s: seq<Version>, a: Version, b: Version, c: Version)
    requires forall v | v in s :: AtMost(BRIDGE, v)
    requires a.major == b.major == c.major == 0 && a.minor == 7 && b.minor == 6 && c.minor == 5
    ensures AddNew(s, a) == s + [a] && AddNew(s + [a], b) == s + [a] + [b] &&
              AddNew(s + [a] + [b], c) == s + [a] + [b] + [c]
    ensures Distinct(s) ==> Distinct(s + [a] + [b] + [c])
  {
    AddLast(s, a);
    AddLast(s + [a], b);
    AddLast(s + [a] + [b], c);
    assert a !in s && b !in s && c !in s;
    hide AtMost, Distinct;
    if Distinct(s) {
      DistinctMore(s, a);
      DistinctMore(s + [a], b);
      DistinctMore(s + [a] + [b], c);
    }
  }

  lemma DistinctMore(s: seq<Version>, v: Version)
    requires Distinct(s) && v !in s
    ensures Distinct(s + [v])
  {
  }

  /** The anchors are distinct and none is older than the bridge. */
  lemma AnchorsAre(older: seq<Version>)
    requires older != [] && RECOVERY in older
    ensures var s := Head(older) + [HARD_CUT] + [BRIDGE]; Distinct(s) && forall v | v in s :: AtMost(BRIDGE, v)
  {
    HeadIs(older);
    assert Distinct(Head(older));
    hide Head, Distinct;
    AddLast(Head(older), HARD_CUT);
    AddLast(Head(older) + [HARD_CUT], BRIDGE);
    DistinctMore(Head(older), HARD_CUT);
    DistinctMore(Head(older) + [HARD_CUT], BRIDGE);
    forall v | v in Head(older) + [HARD_CUT] + [BRIDGE] ensures AtMost(BRIDGE, v) {
    }
  }

  lemma ChosenFamilies(older: seq<Version>, target: Version)
    requires older != [] && Below(RECOVERY, target) && RECOVERY in older && HARD_CUT in older && BRIDGE in older
    ensures WithFamilies(older, target, 3).Ok? <==>
              InFamily(older, 7) != [] && InFamily(older, 6) != [] && InFamily(older, 5) != []
    ensures InFamily(older, 7) != [] && InFamily(older, 6) != [] && InFamily(older, 5) != [] ==>
              WithFamilies(older, target, 3) == Ok(Head(older) + Tail(older))
  {
    ChosenAnchors(older, target);
    AnchorsAre(older);
    FamiliesStart(older, target);
    FamilyNames();
    hide WithAnchors, WithFamilies, InFamily, Newest, Head, AddNew, AtMost, Distinct, FAMILIES;
    var s := Head(older) + [HARD_CUT] + [BRIDGE];
    FamilyStep(older, target, 0);
    if InFamily(older, 7) == [] {
      FamiliesFail(older, target, 1, 3);
    } else {
      NewestOf(older, 7);
      var a := Newest(InFamily(older, 7));
      ThreeFamilies(s, a, Version(0, 6, 0), Version(0, 5, 0));
      FamilyStep(older, target, 1);
      if InFamily(older, 6) == [] {
        FamiliesFail(older, target, 2, 3);
      } else {
        NewestOf(older, 6);
        var b := Newest(InFamily(older, 6));
        ThreeFamilies(s, a, b, Version(0, 5, 0));
        FamilyStep(older, target, 2);
        if InFamily(older, 5) != [] {
          NewestOf(older, 5);
          var c := Newest(InFamily(older, 5));
          ThreeFamilies(s, a, b, c);
          Flatten(Head(older), HARD_CUT, BRIDGE, a, b, c);
        }
      }
    }
  }

  lemma FamilyNames()
    ensures |FAMILIES| == |ANCHORS| == 3 && FAMILIES[0] == 7 && FAMILIES[1] == 6 && FAMILIES[2] == 5
  {
  }

  lemma MatrixDistinct(older: seq<Version>)
    requires older != [] && RECOVERY in older && InFamily(older, 7) != [] && InFamily(older, 6) != [] &&
              InFamily(older, 5) != []
    ensures NoRepeats(Head(older) + Tail(older))
    ensures !NoRepeats([RECOVERY, RECOVERY] + Tail(older))
    ensures |Head(older) + Tail(older)| == if Newest(older) == RECOVERY then 6 else 7
  {
    AnchorsAre(older);
    NewestOf(older, 7);
    NewestOf(older, 6);
    NewestOf(older, 5);
    var a, b, c := Newest(InFamily(older, 7)), Newest(InFamily(older, 6)), Newest(InFamily(older, 5));
    assert |Head(older)| == if Newest(older) == RECOVERY then 1 else 2;
    hide InFamily, Newest, AtMost, Head;
    ThreeFamilies(Head(older) + [HARD_CUT] + [BRIDGE], a, b, c);
    Flatten(Head(older), HARD_CUT, BRIDGE, a, b, c);
    CountRepeats(Head(older) + Tail(older));
    Repeated(Tail(older));
  }

  lemma Repeated(tail: seq<Version>)
    ensures !NoRepeats([RECOVERY, RECOVERY] + tail)
  {
    var twice := [RECOVERY, RECOVERY] + tail;
    CountRepeats(twice);
    assert twice[0] == twice[1];
  }

  // ----- agreement

  lemma RequiredIs(p: Policy, target: Version)
    requires WellFormed(p) && (forall v | v in p.versions :: Below(v, target)) && BRIDGE in p.versions
    requires BRIDGE in p.configs && (forall v | v in p.versions :: v in p.configs) && BoundaryHolds(p)
    ensures var vs := p.versions;
            RequiredMatrix(p, target, BRIDGE) ==
              if InFamily(vs, 7) == [] then Err(FamilyMissing(7))
              else if InFamily(vs, 6) == [] then Err(FamilyMissing(6))
              else if InFamily(vs, 5) == [] then Err(FamilyMissing(5))
              else
                var matrix := (if target == HISTORICAL && vs[0] == RECOVERY then [vs[0]] else [vs[0], RECOVERY]) +
                    Tail(vs);
                if NoRepeats(matrix) then Ok(matrix) else Err(WrongCount)
  {
    GuardIff(p);
    hide WellFormed, PassesGuard, InFamily, Newest, PostBridge, Natives, AfterBridge, NoRepeats, Below;
  }

  /** The selection is made from the versions older than the target, whatever else the policy lists. */
  lemma SelectionIs(p: Policy, target: Version)
    requires WellFormed(p)
    requires var vs := OlderThan(p.versions, target); BRIDGE in vs && HARD_CUT in vs && RECOVERY in vs
    ensures var vs := OlderThan(p.versions, target);
            && (InFamily(vs, 7) == [] || InFamily(vs, 6) == [] || InFamily(vs, 5) == [] ==> Selection(p, target).Err?)
            && (InFamily(vs, 7) != [] && InFamily(vs, 6) != [] && InFamily(vs, 5) != [] ==>
                  Selection(p, target) ==
                    if |Head(vs) + Tail(vs)| == Lanes(target) then Ok(Head(vs) + Tail(vs)) else Err(WrongCount))
  {
    ChosenFamilies(OlderThan(p.versions, target), target);
    hide WellFormed, InFamily, Newest, WithFamilies, OlderThan, Below, Head, Tail;
  }

  /** With the recovery release and all configs in place the two matrices are the same. */
  lemma SameMatrix(p: Policy, target: Version)
    requires WellFormed(p) && (forall v | v in p.versions :: Below(v, target)) && ConfigsAgree(p)
    ensures Selection(p, target).Ok? <==> RequiredMatrix(p, target, BRIDGE).Ok?
    ensures Selection(p, target).Ok? ==> Selection(p, target).value == RequiredMatrix(p, target, BRIDGE).value
  {
    ConfigKeys(p);
    NewestIsFirst(p.versions);
    AgreeingHasBoundary(p);
    RequiredIs(p, target);
    AllOlder(p.versions, target);
    SelectionIs(p, target);
    var vs := p.versions;
    assert AtMost(RECOVERY, Newest(vs)) && Below(Newest(vs), target);
    assert target == HISTORICAL ==> Newest(vs) == RECOVERY;
    if InFamily(vs, 7) != [] && InFamily(vs, 6) != [] && InFamily(vs, 5) != [] {
      MatrixDistinct(vs);
      hide WellFormed, InFamily, Newest, NoRepeats, RequiredMatrix, Selection, Tail, ConfigsAgree, Below;
    }
  }

  // ----- which matrix is selected

  /** `v` is the newest version of the list that is older than the target. */
  ghost predicate NewestOlder(versions: seq<Version>, target: Version, v: Version) {
    && v in versions && Below(v, target)
    && forall w | w in versions && Below(w, target) :: !Below(v, w)
  }

  /** The newest of those that are 0.`minor`. */
  ghost predicate NewestOfMinor(versions: seq<Version>, target: Version, minor: nat, v: Version) {
    && v in versions && Below(v, target) && v.major == 0 && v.minor == minor
    && forall w | w in versions && Below(w, target) && w.major == 0 && w.minor == minor :: !Below(v, w)
  }

  /** The matrix: the newest, the three anchors, and the newest of 0.7, 0.6 and 0.5; for 0.8.7 without the first. */
  ghost predicate IsMatrix(versions: seq<Version>, target: Version, newest: Version, a: Version, b: Version,
                           c: Version, selected: seq<Version>) {
    && NewestOlder(versions, target, newest)
    && NewestOfMinor(versions, target, 7, a) && NewestOfMinor(versions, target, 6, b)
    && NewestOfMinor(versions, target, 5, c)
    && selected == (if target == Version(0, 8, 7) then [] else [newest]) +
        [Version(0, 8, 6), Version(0, 8, 5), Version(0, 8, 4), a, b, c]
  }

  /**
   A matrix is selected exactly for a well-formed policy with the three anchors and 0.7, 0.6 and 0.5 among the
   versions older than the target, and with one that is newer than 0.8.6 unless the target is 0.8.7.
   */
  lemma SelectionIff(p: Policy, target: Version, selected: seq<Version>)
    ensures Selection(p, target) == Ok(selected) <==>
              && WellFormed(p) && Below(Version(0, 8, 6), target)
              && Version(0, 8, 6) in p.versions && Version(0, 8, 5) in p.versions && Version(0, 8, 4) in p.versions
              && (target != Version(0, 8, 7) ==>
                    exists v | v in p.versions :: Below(v, target) && Below(Version(0, 8, 6), v))
              && exists newest, a, b, c :: IsMatrix(p.versions, target, newest, a, b, c, selected)
  {
    if WellFormed(p) {
      var vs := OlderThan(p.versions, target);
      if Below(RECOVERY, target) && RECOVERY in vs && HARD_CUT in vs && BRIDGE in vs {
        MatrixIff(p, target, selected);
      } else {
        NoSelection(p, target);
      }
    }
  }

  lemma NoSelection(p: Policy, target: Version)
    requires WellFormed(p)
    requires var vs := OlderThan(p.versions, target);
             !Below(RECOVERY, target) || RECOVERY !in vs || HARD_CUT !in vs || BRIDGE !in vs
    ensures Selection(p, target).Err?
  {
    var vs := OlderThan(p.versions, target);
    if vs != [] {
      FamilyNames();
      FamiliesStart(vs, target);
      if Below(RECOVERY, target) {
        ChosenAnchors(vs, target);
        FamiliesFail(vs, target, 0, 3);
      } else {
        TooFew(vs, target);
        assert Lanes(target) == 7;
      }
      hide WithFamilies, WithAnchors, WellFormed, OlderThan, Below;
    }
  }

  /** For a target that is not newer than 0.8.6 there are at most six distinct choices. */
  lemma TooFew(older: seq<Version>, target: Version)
    requires older != [] && !Below(RECOVERY, target)
    ensures WithFamilies(older, target, 3).Ok? ==> |WithFamilies(older, target, 3).value| <= 6
  {
    AnchorsGrow(older, target, 3);
    FamiliesGrow(older, target, 3);
  }

  lemma {:induction false} AnchorsGrow(older: seq<Version>, target: Version, n: nat)
    requires older != [] && !Below(RECOVERY, target) && n <= 3
    ensures WithAnchors(older, target, n).Ok? ==> |WithAnchors(older, target, n).value| <= if n == 0 then 1 else n
  {
    hide Below;
    if n > 0 {
      AnchorsGrow(older, target, n - 1);
    }
  }

  lemma {:induction false} FamiliesGrow(older: seq<Version>, target: Version, n: nat)
    requires older != [] && n <= 3
    requires WithAnchors(older, target, 3).Ok? ==> |WithAnchors(older, target, 3).value| <= 3
    ensures WithFamilies(older, target, n).Ok? ==> |WithFamilies(older, target, n).value| <= 3 + n
  {
    hide WithAnchors, Below;
    if n > 0 {
      FamiliesGrow(older, target, n - 1);
    }
  }

  lemma NewestIff(versions: seq<Version>, target: Version, v: Version)
    requires OlderThan(versions, target) != []
    ensures NewestOlder(versions, target, v) <==> v == Newest(OlderThan(versions, target))
  {
    BelowIsOrder();
    var newest := Newest(OlderThan(versions, target));
    assert newest in versions && Below(newest, target);
  }

  lemma MinorIff(versions: seq<Version>, target: Version, minor: nat, v: Version)
    ensures var family := InFamily(OlderThan(versions, target), minor);
            NewestOfMinor(versions, target, minor, v) <==> family != [] && v == Newest(family)
  {
    BelowIsOrder();
    var family := InFamily(OlderThan(versions, target), minor);
    if family != [] {
      var newest := Newest(family);
      assert newest in versions && Below(newest, target) && newest.major == 0 && newest.minor == minor;
    }
  }

  lemma MatrixIff(p: Policy, target: Version, selected: seq<Version>)
    requires WellFormed(p) && Below(RECOVERY, target)
    requires var vs := OlderThan(p.versions, target); BRIDGE in vs && HARD_CUT in vs && RECOVERY in vs
    ensures Selection(p, target) == Ok(selected) <==>
              && (target != Version(0, 8, 7) ==>
                    exists v | v in p.versions :: Below(v, target) && Below(Version(0, 8, 6), v))
              && exists newest, a, b, c :: IsMatrix(p.versions, target, newest, a, b, c, selected)
  {
    var vs := OlderThan(p.versions, target);
    SelectionIs(p, target);
    NewerThanRecovery(p.versions, target);
    OneMatrix(p.versions, target, selected);
    if Populated(vs) {
      MatrixDistinct(vs);
      if Newest(vs) == RECOVERY <==> target == HISTORICAL {
        MatrixIs(vs, target);
      }
      hide WellFormed, InFamily, Newest, OlderThan, Below, Selection, Head, Tail, MatrixOf, IsMatrix;
    }
  }

  /** All three families are there. */
  predicate Populated(older: seq<Version>) {
    InFamily(older, 7) != [] && InFamily(older, 6) != [] && InFamily(older, 5) != []
  }

  lemma OneMatrix(versions: seq<Version>, target: Version, selected: seq<Version>)
    requires OlderThan(versions, target) != []
    ensures var vs := OlderThan(versions, target);
            (exists newest, a, b, c :: IsMatrix(versions, target, newest, a, b, c, selected)) <==>
              Populated(vs) && selected == MatrixOf(vs, target)
  {
    var vs := OlderThan(versions, target);
    forall newest, a, b, c
      ensures IsMatrix(versions, target, newest, a, b, c, selected) <==>
                && newest == Newest(vs) && Populated(vs) && a == Newest(InFamily(vs, 7))
                && b == Newest(InFamily(vs, 6)) && c == Newest(InFamily(vs, 5)) && selected == MatrixOf(vs, target)
    {
      NewestIff(versions, target, newest);
      MinorIff(versions, target, 7, a);
      MinorIff(versions, target, 6, b);
      MinorIff(versions, target, 5, c);
      hide InFamily, Newest, OlderThan, Below, NewestOlder, NewestOfMinor;
    }
    hide IsMatrix, InFamily, Newest, OlderThan, MatrixOf;
    if Populated(vs) && selected == MatrixOf(vs, target) {
      assert IsMatrix(versions, target, Newest(vs), Newest(InFamily(vs, 7)), Newest(InFamily(vs, 6)),
          Newest(InFamily(vs, 5)), selected);
    }
  }

  function MatrixOf(older: seq<Version>, target: Version): seq<Version>
    requires older != [] && Populated(older)
  {
    (if target == Version(0, 8, 7) then [] else [Newest(older)]) +
    [Version(0, 8, 6), Version(0, 8, 5), Version(0, 8, 4), Newest(InFamily(older, 7)), Newest(InFamily(older, 6)),
     Newest(InFamily(older, 5))]
  }

  lemma MatrixIs(older: seq<Version>, target: Version)
    requires older != [] && Populated(older)
    requires Newest(older) == RECOVERY <==> target == HISTORICAL
    ensures Head(older) + Tail(older) == MatrixOf(older, target)
  {
    hide InFamily, Newest;
  }

  lemma NewerThanRecovery(versions: seq<Version>, target: Version)
    requires Below(RECOVERY, target) && RECOVERY in OlderThan(versions, target)
    ensures Newest(OlderThan(versions, target)) != RECOVERY <==>
              exists v | v in versions :: Below(v, target) && Below(RECOVERY, v)
    ensures target == HISTORICAL ==> Newest(OlderThan(versions, target)) == RECOVERY
  {
    var newest := Newest(OlderThan(versions, target));
    assert newest in versions && Below(newest, target) && AtMost(RECOVERY, newest);
  }

  /** The anchor predates the target and is not listed. */
  predicate LacksAnchor(versions: seq<Version>, target: Version, anchor: Version) {
    Below(anchor, target) && anchor !in versions
  }

  /** No older version is 0.`minor`. */
  ghost predicate LacksMinor(versions: seq<Version>, target: Version, minor: nat) {
    forall v | v in versions && Below(v, target) :: v.major != 0 || v.minor != minor
  }

  /** What a well-formed policy with older versions lacks first: an anchor, newest first, or else a family. */
  ghost predicate Lacks(versions: seq<Version>, target: Version, error: BaselineError) {
    if LacksAnchor(versions, target, Version(0, 8, 6)) then error == AnchorMissing(Version(0, 8, 6))
    else if LacksAnchor(versions, target, Version(0, 8, 5)) then error == AnchorMissing(Version(0, 8, 5))
    else if LacksAnchor(versions, target, Version(0, 8, 4)) then error == AnchorMissing(Version(0, 8, 4))
    else if LacksMinor(versions, target, 7) then error == FamilyMissing(7)
    else if LacksMinor(versions, target, 6) then error == FamilyMissing(6)
    else if LacksMinor(versions, target, 5) then error == FamilyMissing(5)
    else error == WrongCount
  }

  /** The error of a selection that fails. */
  lemma SelectionFails(p: Policy, target: Version)
    ensures Selection(p, target).Err? ==>
              var error := Selection(p, target).error;
              && (error == Malformed <==> !WellFormed(p))
              && (error == NothingOlder <==> WellFormed(p) && forall v | v in p.versions :: !Below(v, target))
              && (error != Malformed && error != NothingOlder ==> Lacks(p.versions, target, error))
  {
    hide WellFormed, Below;
    if WellFormed(p) {
      var older := OlderThan(p.versions, target);
      if older != [] {
        assert older[0] in older;
        FirstLack(p.versions, target);
        hide WithFamilies, OlderThan, Lacks;
      }
    }
  }

  lemma FirstLack(versions: seq<Version>, target: Version)
    requires OlderThan(versions, target) != []
    ensures var r := WithFamilies(OlderThan(versions, target), target, |FAMILIES|);
            if r.Err? then r.error != WrongCount && Lacks(versions, target, r.error)
            else Lacks(versions, target, WrongCount)
  {
    var older := OlderThan(versions, target);
    FirstAnchor(versions, target);
    FamiliesStart(older, target);
    FamilyNames();
    LacksIff(versions, target, 7);
    LacksIff(versions, target, 6);
    LacksIff(versions, target, 5);
    hide WithAnchors, WithFamilies, InFamily, OlderThan, LacksMinor, LacksAnchor, Newest, AddNew, FAMILIES, ANCHORS;
    if WithAnchors(older, target, 3).Err? {
      FamiliesFail(older, target, 0, 3);
    } else {
      FamilyStep(older, target, 0);
      if InFamily(older, 7) == [] {
        FamiliesFail(older, target, 1, 3);
      } else {
        FamilyStep(older, target, 1);
        if InFamily(older, 6) == [] {
          FamiliesFail(older, target, 2, 3);
        } else {
          FamilyStep(older, target, 2);
        }
      }
    }
  }

  lemma LacksIff(versions: seq<Version>, target: Version, minor: nat)
    ensures LacksMinor(versions, target, minor) <==> InFamily(OlderThan(versions, target), minor) == []
  {
    hide Below;
    var family := InFamily(OlderThan(versions, target), minor);
    assert family != [] ==> family[0] in family;
  }

  lemma FirstAnchor(versions: seq<Version>, target: Version)
    requires OlderThan(versions, target) != []
    ensures var r := WithAnchors(OlderThan(versions, target), target, 3);
            if LacksAnchor(versions, target, Version(0, 8, 6)) then r == Err(AnchorMissing(Version(0, 8, 6)))
            else if LacksAnchor(versions, target, Version(0, 8, 5)) then r == Err(AnchorMissing(Version(0, 8, 5)))
            else if LacksAnchor(versions, target, Version(0, 8, 4)) then r == Err(AnchorMissing(Version(0, 8, 4)))
            else r.Ok?
  {
    var older := OlderThan(versions, target);
    assert ANCHORS[0] == Version(0, 8, 6) && ANCHORS[1] == Version(0, 8, 5) && ANCHORS[2] == Version(0, 8, 4);
    assert |ANCHORS| == 3;
    AnchorsStart(older, target);
    hide WithAnchors, Newest, Below, OlderThan, AddNew, ANCHORS;
    AnchorStep(older, target, 0);
    if WithAnchors(older, target, 1).Err? {
      AnchorsFail(older, target, 1, 3);
    } else {
      AnchorStep(older, target, 1);
      if WithAnchors(older, target, 2).Err? {
        AnchorsFail(older, target, 2, 3);
      } else {
        AnchorStep(older, target, 2);
      }
    }
  }

  /** When both selectors accept: what a caller can check of the policy, and that the selector makes a matrix. */
  ghost predicate Selectable(p: Policy, target: Version) {
    && WellFormed(p) && (forall v | v in p.versions :: Below(v, target)) && ConfigsAgree(p)
    && Selection(p, target).Ok?
  }

  /**
   The lane check accepts a list and a baseline exactly when the policy is well formed, lists only versions older
   than the target, puts the hard cut after the bridge and the recovery release on the hard cut's config, and the
   selector makes exactly that list of it, with the baseline in it. Of any other policy it rejects every list.
   */
  lemma SelectorsAgree(p: Policy, target: Version, selected: seq<Version>, baseline: Version)
    ensures SelectLane(p, target, BRIDGE, selected, baseline).Ok? <==>
              Selectable(p, target) && selected == Selection(p, target).value && baseline in selected
    ensures SelectLane(p, target, BRIDGE, selected, baseline).Ok? ==>
              SelectLane(p, target, BRIDGE, selected, baseline).value ==
                if baseline == Version(0, 8, 4) then BridgeDependencyDrift
                else if baseline == Version(0, 8, 6) then FieldRecovery else Published
  {
    hide WellFormed, Below, ConfigsAgree, Selection, PassesGuard;
    GuardIff(p);
    if WellFormed(p) && forall v | v in p.versions :: Below(v, target) {
      hide RequiredMatrix;
      if ConfigsAgree(p) {
        SameMatrix(p, target);
      } else {
        NoMatrix(p, target);
      }
    }
  }

  lemma NoMatrix(p: Policy, target: Version)
    requires WellFormed(p) && !ConfigsAgree(p)
    ensures RequiredMatrix(p, target, BRIDGE).Err?
  {
    GuardIff(p);
    if BRIDGE in p.versions {
      PostBridgeIs(p);
      ConfigKeys(p);
      if BoundaryHolds(p) {
        BoundaryAgrees(p);
      }
    }
  }

  /** A baseline of each kind below a newest one. */
  function Ladder(newest: Version): seq<Version> {
    [newest, RECOVERY, HARD_CUT, BRIDGE, Version(0, 7, 0), Version(0, 6, 0), Version(0, 5, 0)]
  }

  /** All baselines on the same config version. */
  function FlatPolicy(): Policy {
    var versions := Ladder(Version(0, 9, 0));
    Policy(true, versions, map v | v in versions :: 1, [])
  }

  /** The configs as they should be, and one baseline newer than the target 0.8.9. */
  function NewerPolicy(): Policy {
    var versions := [Version(0, 9, 0)] + Ladder(Version(0, 8, 8));
    Policy(true, versions, map v | v in versions :: if AtMost(v, BRIDGE) then 1 else 2, [])
  }

  /**
   The selector makes a matrix from a policy without a config change, and the lane check rejects every matrix for it.
   */
  lemma SelectorsDisagree(selected: seq<Version>, baseline: Version)
    ensures WellFormed(FlatPolicy()) && forall v | v in FlatPolicy().versions :: Below(v, Version(0, 9, 1))
    ensures Selection(FlatPolicy(), Version(0, 9, 1)) == Ok(Ladder(Version(0, 9, 0)))
    ensures SelectLane(FlatPolicy(), Version(0, 9, 1), BRIDGE, selected, baseline).Err?
  {
    var p, newest, target := FlatPolicy(), Version(0, 9, 0), Version(0, 9, 1);
    LadderSorted(newest, target);
    FlatIsWellFormed();
    AllOlder(p.versions, target);
    LadderSelected(p, newest, target);
    assert !ConfigsAgree(p);
    hide *;
    SelectorsAgree(p, target, selected, baseline);
    NotSelectable(p, target);
  }

  /**
   The selector skips a baseline newer than the target, and the lane check rejects every matrix because of it.
   */
  lemma SelectorsDisagreeOnNewer(selected: seq<Version>, baseline: Version)
    ensures WellFormed(NewerPolicy()) && ConfigsAgree(NewerPolicy())
    ensures Selection(NewerPolicy(), Version(0, 8, 9)) == Ok(Ladder(Version(0, 8, 8)))
    ensures SelectLane(NewerPolicy(), Version(0, 8, 9), BRIDGE, selected, baseline).Err?
  {
    var p, newest, target := NewerPolicy(), Version(0, 8, 8), Version(0, 8, 9);
    LadderSorted(newest, target);
    NewerIsWellFormed();
    NewerSkipped(p.versions[0], Ladder(newest), target);
    AllOlder(Ladder(newest), target);
    LadderSelected(p, newest, target);
    assert p.versions[0] in p.versions && !Below(p.versions[0], target);
    hide *;
    SelectorsAgree(p, target, selected, baseline);
    NotSelectable(p, target);
  }

  lemma NotSelectable(p: Policy, target: Version)
    requires !ConfigsAgree(p) || exists v | v in p.versions :: !Below(v, target)
    ensures !Selectable(p, target)
  {
    hide WellFormed, ConfigsAgree, Selection, Below;
  }

  lemma FlatIsWellFormed()
    ensures WellFormed(FlatPolicy())
  {
    LadderSorted(Version(0, 9, 0), Version(0, 9, 1));
    NothingKept(FlatPolicy().versions);
    assert Elements([]) == {};
    assert FlatPolicy().configs.Keys == Elements(FlatPolicy().versions);
  }

  lemma NewerIsWellFormed()
    ensures WellFormed(NewerPolicy()) && ConfigsAgree(NewerPolicy())
  {
    var p := NewerPolicy();
    NothingKept(p.versions);
    assert Elements([]) == {};
    NewerDescends();
    assert BRIDGE in p.versions && HARD_CUT in p.versions && RECOVERY in p.versions;
    hide Ladder, Descending;
    assert p.configs.Keys == Elements(p.versions);
  }

  lemma NewerDescends()
    ensures Descending(NewerPolicy().versions)
  {
    assert Adjacent(NewerPolicy().versions);
    AdjacentIff(NewerPolicy().versions);
  }

  lemma {:induction false} NewerSkipped(newer: Version, versions: seq<Version>, target: Version)
    requires !Below(newer, target)
    ensures OlderThan([newer] + versions, target) == OlderThan(versions, target)
  {
    hide Below;
    var all := [newer] + versions;
    if versions == [] {
      assert all[..0] == [];
    } else {
      var n := |versions| - 1;
      assert all[..n + 1] == [newer] + versions[..n] && all[n + 1] == versions[n];
      NewerSkipped(newer, versions[..n], target);
    }
  }

  lemma LadderSorted(newest: Version, target: Version)
    requires Below(RECOVERY, newest) && Below(newest, target)
    ensures Descending(Ladder(newest)) && forall v | v in Ladder(newest) :: Below(v, target)
  {
    assert Adjacent(Ladder(newest));
    AdjacentIff(Ladder(newest));
    BelowIsOrder();
  }

  lemma LadderSelected(p: Policy, newest: Version, target: Version)
    requires WellFormed(p) && OlderThan(p.versions, target) == Ladder(newest) && Lanes(target) == 7
    requires Below(RECOVERY, newest) && newest.major == 0 && newest.minor >= 8 && Descending(Ladder(newest))
    ensures Selection(p, target) == Ok(Ladder(newest))
  {
    LadderHead(newest);
    LadderTail(newest);
    assert RECOVERY in Ladder(newest) && HARD_CUT in Ladder(newest) && BRIDGE in Ladder(newest);
    LadderParts(newest);
    hide WellFormed, InFamily, Newest, Selection, OlderThan, Head, Tail, Below;
    SelectionIs(p, target);
  }

  lemma LadderParts(newest: Version)
    ensures |Ladder(newest)| == 7
    ensures [newest, RECOVERY] + [HARD_CUT, BRIDGE, Version(0, 7, 0), Version(0, 6, 0), Version(0, 5, 0)] ==
              Ladder(newest)
  {
  }

  lemma LadderHead(newest: Version)
    requires Below(RECOVERY, newest) && Descending(Ladder(newest))
    ensures Head(Ladder(newest)) == [newest, RECOVERY]
  {
    hide Newest;
    NewestIsFirst(Ladder(newest));
  }

  lemma LadderTail(newest: Version)
    requires newest.major == 0 && newest.minor >= 8
    ensures var vs := Ladder(newest);
            && InFamily(vs, 7) != [] && InFamily(vs, 6) != [] && InFamily(vs, 5) != []
            && Tail(vs) == [HARD_CUT, BRIDGE, Version(0, 7, 0), Version(0, 6, 0), Version(0, 5, 0)]
  {
    OneInFamily(Ladder(newest), 7, 4);
    OneInFamily(Ladder(newest), 6, 5);
    OneInFamily(Ladder(newest), 5, 6);
    NewestOfOne(Version(0, 7, 0));
    NewestOfOne(Version(0, 6, 0));
    NewestOfOne(Version(0, 5, 0));
    hide InFamily, Newest;
  }

  lemma NewestOfOne(v: Version)
    ensures Newest([v]) == v
  {
  }

  lemma {:induction false} NobodyInFamily(versions: seq<Version>, minor: nat)
    requires forall v | v in versions :: v.major != 0 || v.minor != minor
    ensures InFamily(versions, minor) == []
  {
    if versions != [] {
      NobodyInFamily(versions[..|versions| - 1], minor);
    }
  }

  lemma {:induction false} OneInFamily(versions: seq<Version>, minor: nat, i: nat)
    requires i < |versions|
    requires forall j | 0 <= j < |versions| :: versions[j].major == 0 && versions[j].minor == minor <==> j == i
    ensures InFamily(versions, minor) == [versions[i]]
  {
    var n := |versions| - 1;
    if i < n {
      OneInFamily(versions[..n], minor, i);
    } else {
      NobodyInFamily(versions[..n], minor);
    }
  }

  lemma {:induction false} NothingKept(versions: seq<Version>)
    ensures Keep(versions, {}) == []
  {
    if versions != [] {
      NothingKept(versions[..|versions| - 1]);
    }
  }

  /** The lane check reads the policy as the selector leaves it, and accepts exactly what it would have before. */
  lemma PersistedPolicyAgrees(p: Policy, target: Version, selected: seq<Version>, baseline: Version)
    ensures SelectLane(Persisted(p, target), target, BRIDGE, selected, baseline).Ok? <==>
              Selectable(p, target) && selected == Selection(p, target).value && baseline in selected
  {
    if Selection(p, target).Ok? {
      var q := p.(windows := []);
      NothingKept(p.versions);
      assert Elements([]) == {};
      assert WellFormed(q);
      assert Selection(q, target) == Selection(p, target);
      hide WellFormed, Selection, SelectLane, Below;
      SelectorsAgree(q, target, selected, baseline);
    } else {
      hide WellFormed, Selection, SelectLane, Below;
      SelectorsAgree(p, target, selected, baseline);
    }
  }
}
