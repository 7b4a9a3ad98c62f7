/**
 scripts/resolve_upgrade_baselines.py `resolve_effective_policy`: the checked floor extended with the
 immutable releases published since.
 */
module BaselineResolution {
  import opened Outcomes
  import opened Sorting
  import opened Versions
  import opened Baselines

  /** An element of the release inventory; `draft` and `prerelease` are false only when the fields say so. */
  datatype Item = NotAnObject | Unversioned | Release(tag: Version, draft: bool, prerelease: bool, immutable: bool)

  /** What an authenticated release manifest says: its config version, and whether the Windows files are all there. */
  datatype Manifest = Manifest(config: int, windows: bool)

  datatype ResolveError =
    | BadCandidate | BadFloor | FloorTooNew | NotARelease | NotImmutable | DuplicateTag | NotAuthentic | NoBaseline

  /** The checked floor. */
  predicate FloorOk(p: Policy) {
    PassesGuard(p) && p.windows != []
  }

  predicate Between(floor: Option<Version>, v: Version, target: Version) {
    floor.Some? && Below(floor.value, v) && Below(v, target)
  }

  predicate IsStable(r: Item) {
    r.Release? && !r.draft && !r.prerelease
  }

  /** The tags of the stable releases between floor and target, in inventory order. */
  function Candidates(releases: seq<Item>, floor: Option<Version>,
                      target: Version): Result<seq<Version>, ResolveError> {
    if releases == [] then Ok([])
    else
      var n := |releases| - 1;
      var before, r := Candidates(releases[..n], floor, target), releases[n];
      if before.Err? then before
      else if r.NotAnObject? then Err(NotARelease)
      else if r.Unversioned? || !Between(floor, r.tag, target) || !IsStable(r) then before
      else if !r.immutable then Err(NotImmutable)
      else if r.tag in before.value then Err(DuplicateTag)
      else Ok(before.value + [r.tag])
  }

  lemma {:induction false} CandidatesFail(releases: seq<Item>, floor: Option<Version>, target: Version, m: nat, n: nat)
    requires m <= n <= |releases|
    ensures Candidates(releases[..m], floor, target).Err? ==>
              Candidates(releases[..n], floor, target) == Candidates(releases[..m], floor, target)
  {
    if m < n {
      CandidatesFail(releases, floor, target, m, n - 1);
      assert releases[..n][..n - 1] == releases[..n - 1];
    }
  }

  lemma CandidateStep(releases: seq<Item>, floor: Option<Version>, target: Version, n: nat)
    requires n < |releases| && Candidates(releases[..n], floor, target).Ok?
    ensures var before, r := Candidates(releases[..n], floor, target).value, releases[n];
            Candidates(releases[..n + 1], floor, target) ==
              if r.NotAnObject? then Err(NotARelease)
              else if r.Unversioned? || !Between(floor, r.tag, target) || !IsStable(r) then Ok(before)
              else if !r.immutable then Err(NotImmutable)
              else if r.tag in before then Err(DuplicateTag)
              else Ok(before + [r.tag])
  {
    assert releases[..n + 1][..n] == releases[..n];
  }

  /** The candidates are exactly the stable releases in the range, each once and immutable. */
  lemma {:induction false} CandidatesAre(releases: seq<Item>, floor: Option<Version>, target: Version)
    requires Candidates(releases, floor, target).Ok?
    ensures var found := Candidates(releases, floor, target).value;
            && Distinct(found)
            && forall v :: v in found <==>
                 exists r :: r in releases && IsStable(r) && r.tag == v && Between(floor, v, target)
    ensures forall r | r in releases && IsStable(r) && Between(floor, r.tag, target) :: r.immutable
  {
    if releases != [] {
      var n := |releases| - 1;
      CandidatesAre(releases[..n], floor, target);
      assert forall r :: r in releases <==> r in releases[..n] || r == releases[n];
      var before, found := Candidates(releases[..n], floor, target).value, Candidates(releases, floor, target).value;
      forall v
        ensures v in found <==> exists r :: r in releases && IsStable(r) && r.tag == v && Between(floor, v, target)
      {
        if v in found {
          if v in before {
            var r :| r in releases[..n] && IsStable(r) && r.tag == v && Between(floor, v, target);
            assert r in releases;
          } else {
            assert releases[n] in releases;
          }
        }
        if exists r :: r in releases && IsStable(r) && r.tag == v && Between(floor, v, target) {
          var r :| r in releases && IsStable(r) && r.tag == v && Between(floor, v, target);
          if r in releases[..n] {
            assert v in before;
          }
        }
      }
    }
  }

  predicate NewerFirst(a: Version, b: Version) {
    AtMost(b, a)
  }

  predicate ManifestOk(m: Option<Manifest>, candidate: int) {
    m.Some? && 1 <= m.value.config <= candidate
  }

  /** The versions of a result, newest first: the published ones, then the eligible part of the floor. */
  function Resolved(checked: Policy, target: Version, found: seq<Version>): seq<Version> {
    SortBy(found, NewerFirst) + OlderThan(checked.versions, target)
  }

  function FloorOf(checked: Policy, target: Version): Option<Version> {
    var eligible := OlderThan(checked.versions, target);
    if eligible == [] then None else Some(Newest(eligible))
  }

  /** Whether a version of the result has Windows files. */
  predicate HasWindows(checked: Policy, manifests: Version -> Option<Manifest>, v: Version) {
    if v in checked.versions then v in checked.windows else manifests(v).Some? && manifests(v).value.windows
  }

  /** What a resolved policy says about each of its versions. */
  ghost predicate Faithful(p: Policy, checked: Policy, manifests: Version -> Option<Manifest>, candidate: int) {
    && p.wellTyped && p.configs.Keys == Elements(p.versions)
    && (forall v | v in p.versions ::
          && 1 <= p.configs[v] <= candidate
          && (v in checked.versions ==> v in checked.configs && p.configs[v] == checked.configs[v])
          && (v !in checked.versions ==> manifests(v).Some? && p.configs[v] == manifests(v).value.config))
    && p.windows == Keep(p.versions, WindowsAmong(p.versions, checked, manifests))
  }

  function WindowsAmong(versions: seq<Version>, checked: Policy, manifests: Version -> Option<Manifest>): set<Version> {
    set v | v in versions && HasWindows(checked, manifests, v)
  }

  ghost predicate Resolvable(checked: Policy, target: Version, candidate: int, releases: seq<Item>,
                             manifests: Version -> Option<Manifest>) {
    && candidate >= 1 && WellFormed(checked) && checked.windows != [] && OlderThan(checked.versions, target) != []
    && (forall v | v in OlderThan(checked.versions, target) :: v in checked.configs && checked.configs[v] <= candidate)
    && Candidates(releases, FloorOf(checked, target), target).Ok?
    && forall v | v in Candidates(releases, FloorOf(checked, target), target).value ::
      ManifestOk(manifests(v), candidate)
  }

  // ----- resolving

  method FindCandidates(releases: seq<Item>, floor: Option<Version>, target: Version)
    returns (r: Result<seq<Version>, ResolveError>)
    ensures r == Candidates(releases, floor, target)
  {
    var found: seq<Version> := [];
    assert releases[..0] == [];
    assert releases[..|releases|] == releases;
    for i := 0 to |releases|
      invariant Candidates(releases[..i], floor, target) == Ok(found)
    {
      CandidateStep(releases, floor, target, i);
      CandidatesFail(releases, floor, target, i + 1, |releases|);
      hide Candidates, Below;
      var release := releases[i];
      if release.NotAnObject? {
        return Err(NotARelease);
      }
      if release.Unversioned? {
        continue;
      }
      if !Between(floor, release.tag, target) || release.draft || release.prerelease {
        continue;
      }
      if !release.immutable {
        return Err(NotImmutable);
      }
      if release.tag in found {
        return Err(DuplicateTag);
      }
      found := found + [release.tag];
    }
    return Ok(found);
  }

  function ShipsWindows(dynamic: seq<Version>, manifests: Version -> Option<Manifest>): set<Version> {
    set v | v in dynamic && manifests(v).Some? && manifests(v).value.windows
  }

  /** The configs and the Windows list after the first `n` dynamic versions are authenticated. */
  ghost predicate Authenticated(dynamic: seq<Version>, manifests: Version -> Option<Manifest>, candidate: int,
                                start: map<Version, int>,
                                n: nat, configs: map<Version, int>, windows: seq<Version>)
    requires n <= |dynamic|
  {
    && (forall v | v in dynamic[..n] :: ManifestOk(manifests(v), candidate))
    && configs.Keys == start.Keys + Elements(dynamic[..n])
    && (forall v | v in configs ::
          configs[v] == if v in dynamic[..n] && manifests(v).Some? then manifests(v).value.config
                        else if v in start then start[v] else 0)
    && windows == Keep(dynamic[..n], ShipsWindows(dynamic, manifests))
  }

  lemma AuthenticateStep(dynamic: seq<Version>, manifests: Version -> Option<Manifest>, candidate: int,
                         start: map<Version, int>,
                         n: nat, configs: map<Version, int>, windows: seq<Version>)
    requires n < |dynamic| && Authenticated(dynamic, manifests, candidate, start, n, configs, windows)
    requires ManifestOk(manifests(dynamic[n]), candidate)
    ensures var v, m := dynamic[n], manifests(dynamic[n]).value;
            Authenticated(dynamic, manifests, candidate, start, n + 1, configs[v := m.config],
                if m.windows then windows + [v] else windows)
  {
    var v := dynamic[n];
    assert dynamic[..n + 1] == dynamic[..n] + [v];
    assert dynamic[..n + 1][..n] == dynamic[..n];
    assert forall w :: w in dynamic[..n + 1] <==> w in dynamic[..n] || w == v;
  }

  method AuthenticateAll(dynamic: seq<Version>, manifests: Version -> Option<Manifest>, candidate: int,
                         start: map<Version, int>)
    returns (ok: bool, configs: map<Version, int>, windows: seq<Version>)
    ensures ok <==> forall v | v in dynamic :: ManifestOk(manifests(v), candidate)
    ensures ok ==> Authenticated(dynamic, manifests, candidate, start, |dynamic|, configs, windows)
  {
    configs, windows := start, [];
    assert Authenticated(dynamic, manifests, candidate, start, 0, configs, windows);
    hide Authenticated;
    for i := 0 to |dynamic|
      invariant Authenticated(dynamic, manifests, candidate, start, i, configs, windows)
    {
      var manifest := manifests(dynamic[i]);
      if !ManifestOk(manifest, candidate) {
        assert dynamic[i] in dynamic;
        return false, configs, windows;
      }
      AuthenticateStep(dynamic, manifests, candidate, start, i, configs, windows);
      configs := configs[dynamic[i] := manifest.value.config];
      if manifest.value.windows {
        windows := windows + [dynamic[i]];
      }
    }
    AuthenticatedMeans(dynamic, manifests, candidate, start, configs, windows);
    ok := true;
  }

  lemma AuthenticatedMeans(dynamic: seq<Version>, manifests: Version -> Option<Manifest>, candidate: int,
                           start: map<Version, int>,
                           configs: map<Version, int>, windows: seq<Version>)
    requires Authenticated(dynamic, manifests, candidate, start, |dynamic|, configs, windows)
    ensures forall v | v in dynamic :: ManifestOk(manifests(v), candidate)
  {
    assert dynamic[..|dynamic|] == dynamic;
  }

  // ----- the order of the result

  lemma {:induction false} OlderIsKeep(versions: seq<Version>, target: Version, all: set<Version>)
    requires forall v | v in versions :: v in all <==> Below(v, target)
    ensures OlderThan(versions, target) == Keep(versions, all)
  {
    if versions != [] {
      var n := |versions| - 1;
      assert versions[n] in versions && forall v | v in versions[..n] :: v in versions;
      OlderIsKeep(versions[..n], target, all);
    }
  }

  lemma {:induction false} KeepSame(versions: seq<Version>, a: set<Version>, b: set<Version>)
    requires forall v | v in versions :: v in a <==> v in b
    ensures Keep(versions, a) == Keep(versions, b)
  {
    if versions != [] {
      var n := |versions| - 1;
      assert versions[n] in versions && forall v | v in versions[..n] :: v in versions;
      KeepSame(versions[..n], a, b);
    }
  }

  lemma {:induction false} KeepJoined(x: seq<Version>, y: seq<Version>, a: set<Version>)
    ensures Keep(x + y, a) == Keep(x, a) + Keep(y, a)
  {
    if y == [] {
      assert x + y == x;
    } else {
      var n := |y| - 1;
      assert (x + y)[..|x + y| - 1] == x + y[..n];
      KeepJoined(x, y[..n], a);
    }
  }

  lemma {:induction false} KeepTwice(versions: seq<Version>, a: set<Version>, b: set<Version>)
    ensures Keep(Keep(versions, a), b) == Keep(versions, a * b)
  {
    if versions != [] {
      var n := |versions| - 1;
      KeepTwice(versions[..n], a, b);
      if versions[n] in a {
        KeepJoined(Keep(versions[..n], a), [versions[n]], b);
      } else {
        assert Keep(versions, a) == Keep(versions[..n], a);
      }
    }
  }

  lemma NewerFirstOrder()
    ensures TotalPreorder(NewerFirst)
  {
    BelowIsOrder();
  }

  lemma SortedNewest(found: seq<Version>)
    requires Distinct(found)
    ensures Descending(SortBy(found, NewerFirst)) && forall v :: v in SortBy(found, NewerFirst) <==> v in found
  {
    NewerFirstOrder();
    SortBySorted(found, NewerFirst);
    var sorted := SortBy(found, NewerFirst);
    SameElements(sorted, found);
    PermutationDistinct(found, sorted);
    hide SortBy, TotalPreorder;
    forall i, j | 0 <= i < j < |sorted| ensures Below(sorted[j], sorted[i]) {
      assert NewerFirst(sorted[i], sorted[j]);
    }
  }

  lemma DescendingJoined(a: seq<Version>, b: seq<Version>)
    requires Descending(a) && Descending(b) && forall v, w | v in a && w in b :: Below(w, v)
    ensures Descending(a + b)
  {
    forall i, j | 0 <= i < j < |a + b| ensures Below((a + b)[j], (a + b)[i]) {
      if i < |a| <= j {
        assert a[i] in a && b[j - |a|] in b;
      }
    }
  }

  /** The eligible part of the floor, newest first and below the target. */
  lemma EligibleIs(checked: Policy, target: Version)
    requires WellFormed(checked)
    ensures Descending(OlderThan(checked.versions, target))
  {
    var all := set v | v in checked.versions && Below(v, target);
    OlderIsKeep(checked.versions, target, all);
    KeepOf(checked.versions, all);
  }

  lemma VersionsDescend(checked: Policy, target: Version, found: seq<Version>)
    requires WellFormed(checked) && Distinct(found) &&
              forall v | v in found :: Between(FloorOf(checked, target), v, target)
    ensures Descending(Resolved(checked, target, found))
    ensures forall v :: v in Resolved(checked, target, found) <==>
              v in found || v in OlderThan(checked.versions, target)
    ensures forall v | v in found :: v !in checked.versions
  {
    EligibleIs(checked, target);
    SortedNewest(found);
    var dynamic, eligible := SortBy(found, NewerFirst), OlderThan(checked.versions, target);
    hide SortBy, WellFormed, OlderThan, Descending, Below;
    forall v | v in found ensures v !in checked.versions && forall w | w in eligible :: Below(w, v) {
      FoundIsNewer(checked, target, v);
    }
    DescendingJoined(dynamic, eligible);
  }

  lemma FoundIsNewer(checked: Policy, target: Version, v: Version)
    requires Between(FloorOf(checked, target), v, target)
    ensures v !in checked.versions
    ensures forall w | w in OlderThan(checked.versions, target) :: Below(w, v)
  {
    BelowIsOrder();
    hide OlderThan;
    var eligible := OlderThan(checked.versions, target);
    forall w | w in eligible ensures Below(w, v) {
      assert AtMost(w, Newest(eligible));
    }
  }

  /** The checked Windows baselines that are eligible, in the order of the eligible versions. */
  lemma FloorWindows(checked: Policy, target: Version, wanted: set<Version>)
    requires WellFormed(checked)
    requires forall v | v in OlderThan(checked.versions, target) :: v in wanted <==> v in checked.windows
    ensures Keep(checked.windows, Elements(OlderThan(checked.versions, target))) ==
              Keep(OlderThan(checked.versions, target), wanted)
  {
    var older := Elements(OlderThan(checked.versions, target));
    assert forall v | v in checked.versions :: v in older <==> Below(v, target);
    OlderIsKeep(checked.versions, target, older);
    var windows := Elements(checked.windows);
    assert checked.windows == Keep(checked.versions, windows);
    assert forall v | v in checked.versions :: v in older * wanted <==> v in windows * older;
    hide Keep, OlderThan, WellFormed, Elements;
    KeepTwice(checked.versions, older, wanted);
    KeepTwice(checked.versions, windows, older);
    KeepSame(checked.versions, older * wanted, windows * older);
  }

  /** The windows lists of both parts joined are the Windows versions of the whole in order. */
  lemma WindowsJoined(checked: Policy, target: Version, found: seq<Version>, manifests: Version -> Option<Manifest>)
    requires WellFormed(checked) && Distinct(found) && (forall v | v in found :: v !in checked.versions)
    ensures var dynamic, eligible := SortBy(found, NewerFirst), OlderThan(checked.versions, target);
            var versions := Resolved(checked, target, found);
            Keep(dynamic, ShipsWindows(dynamic, manifests)) + Keep(checked.windows, Elements(eligible)) ==
              Keep(versions, WindowsAmong(versions, checked, manifests))
  {
    SortedNewest(found);
    var dynamic, eligible := SortBy(found, NewerFirst), OlderThan(checked.versions, target);
    var wanted := WindowsAmong(dynamic + eligible, checked, manifests);
    assert forall v | v in dynamic :: v in wanted <==> v in ShipsWindows(dynamic, manifests);
    assert forall v | v in eligible :: v in wanted <==> v in checked.windows;
    hide SortBy, OlderThan, WellFormed, Keep, WindowsAmong, ShipsWindows;
    KeepJoined(dynamic, eligible, wanted);
    KeepSame(dynamic, wanted, ShipsWindows(dynamic, manifests));
    FloorWindows(checked, target, wanted);
  }

  /** The floor's configs of the eligible versions. */
  function FloorConfigs(checked: Policy, target: Version): map<Version, int> {
    map v | v in OlderThan(checked.versions, target) && v in checked.configs :: checked.configs[v]
  }

  /** The policy made from the candidates found and what their manifests say. */
  function Assemble(checked: Policy, target: Version, found: seq<Version>, configs: map<Version, int>,
                    dynamicWindows: seq<Version>): Policy {
    var versions := Resolved(checked, target, found);
    Policy(true, versions, map v | v in versions && v in configs :: configs[v],
           dynamicWindows + Keep(checked.windows, Elements(OlderThan(checked.versions, target))))
  }

  ghost predicate FloorAdmissible(checked: Policy, target: Version, candidate: int) {
    && candidate >= 1 && WellFormed(checked) && checked.windows != []
    && forall v | v in OlderThan(checked.versions, target) :: v in checked.configs && checked.configs[v] <= candidate
  }

  lemma EligibleConfigs(checked: Policy, target: Version, candidate: int)
    requires FloorAdmissible(checked, target, candidate)
    ensures forall v :: v in FloorConfigs(checked, target) <==> v in OlderThan(checked.versions, target)
    ensures forall v | v in FloorConfigs(checked, target) ::
              v in checked.versions && v in checked.configs &&
                  1 <= FloorConfigs(checked, target)[v] == checked.configs[v] <= candidate
  {
  }

  lemma DynamicConfigs(dynamic: seq<Version>, manifests: Version -> Option<Manifest>, candidate: int,
                       start: map<Version, int>,
                       configs: map<Version, int>, windows: seq<Version>)
    requires Authenticated(dynamic, manifests, candidate, start, |dynamic|, configs, windows)
    ensures forall v :: v in configs <==> v in start || v in dynamic
    ensures forall v | v in dynamic :: manifests(v).Some? && 1 <= configs[v] == manifests(v).value.config <= candidate
    ensures forall v | v in start && v !in dynamic :: configs[v] == start[v]
  {
    assert dynamic[..|dynamic|] == dynamic;
    hide Keep;
  }

  lemma AssembledFrom(checked: Policy, target: Version, found: seq<Version>, configs: map<Version, int>,
                      dynamicWindows: seq<Version>)
    requires forall v | v in Resolved(checked, target, found) :: v in configs
    ensures var p := Assemble(checked, target, found, configs, dynamicWindows);
            && p.configs.Keys == Elements(p.versions)
            && (forall v | v in p.configs :: p.configs[v] == configs[v])
            && forall v :: v in p.versions <==>
              v in SortBy(found, NewerFirst) || v in OlderThan(checked.versions, target)
  {
    hide SortBy, OlderThan;
  }

  lemma ConfigsAssembled(checked: Policy, target: Version, candidate: int, found: seq<Version>,
                         manifests: Version -> Option<Manifest>,
                         configs: map<Version, int>, dynamicWindows: seq<Version>)
    requires FloorAdmissible(checked, target, candidate) && Distinct(found) &&
              forall v | v in found :: v !in checked.versions
    requires var dynamic := SortBy(found, NewerFirst);
             Authenticated(dynamic, manifests, candidate, FloorConfigs(checked, target), |dynamic|, configs,
                 dynamicWindows)
    ensures var p := Assemble(checked, target, found, configs, dynamicWindows);
            && p.configs.Keys == Elements(p.versions)
            && forall v | v in p.versions ::
                 && 1 <= p.configs[v] <= candidate
                 && (v in checked.versions ==> v in checked.configs && p.configs[v] == checked.configs[v])
                 && (v !in checked.versions ==> manifests(v).Some? && p.configs[v] == manifests(v).value.config)
  {
    SortedNewest(found);
    var dynamic, eligible := SortBy(found, NewerFirst), OlderThan(checked.versions, target);
    EligibleConfigs(checked, target, candidate);
    DynamicConfigs(dynamic, manifests, candidate, FloorConfigs(checked, target), configs, dynamicWindows);
    AssembledFrom(checked, target, found, configs, dynamicWindows);
    hide SortBy, OlderThan, WellFormed, FloorConfigs, Authenticated, ManifestOk, Assemble, Resolved;
  }

  lemma Assembled(checked: Policy, target: Version, candidate: int, found: seq<Version>,
                  manifests: Version -> Option<Manifest>,
                  configs: map<Version, int>, dynamicWindows: seq<Version>)
    requires FloorAdmissible(checked, target, candidate) && Distinct(found) && Resolved(checked, target, found) != []
    requires forall v | v in found :: Between(FloorOf(checked, target), v, target)
    requires var dynamic := SortBy(found, NewerFirst);
             Authenticated(dynamic, manifests, candidate, FloorConfigs(checked, target), |dynamic|, configs,
                 dynamicWindows)
    ensures var p := Assemble(checked, target, found, configs, dynamicWindows);
            WellFormed(p) && (forall v | v in p.versions :: Below(v, target)) &&
                Faithful(p, checked, manifests, candidate)
  {
    VersionsDescend(checked, target, found);
    ConfigsAssembled(checked, target, candidate, found, manifests, configs, dynamicWindows);
    WindowsJoined(checked, target, found, manifests);
    AuthenticatedWindows(SortBy(found, NewerFirst), manifests, candidate, FloorConfigs(checked, target), configs,
        dynamicWindows);
    AssembleIs(checked, target, found, configs, dynamicWindows);
    hide *;
    var p := Assemble(checked, target, found, configs, dynamicWindows);
    KeptWithin(p.versions, WindowsAmong(p.versions, checked, manifests));
    IsWellFormed(p);
    IsFaithful(p, checked, manifests, candidate);
    FoundBelow(checked, target, found);
  }

  lemma AssembleIs(checked: Policy, target: Version, found: seq<Version>, configs: map<Version, int>,
                   dynamicWindows: seq<Version>)
    ensures var p := Assemble(checked, target, found, configs, dynamicWindows);
            && p.wellTyped && p.versions == Resolved(checked, target, found)
            && p.windows == dynamicWindows + Keep(checked.windows, Elements(OlderThan(checked.versions, target)))
  {
  }

  lemma AuthenticatedWindows(dynamic: seq<Version>, manifests: Version -> Option<Manifest>, candidate: int,
                             start: map<Version, int>,
                             configs: map<Version, int>, windows: seq<Version>)
    requires Authenticated(dynamic, manifests, candidate, start, |dynamic|, configs, windows)
    ensures windows == Keep(dynamic, ShipsWindows(dynamic, manifests))
  {
    assert dynamic[..|dynamic|] == dynamic;
  }

  lemma IsWellFormed(p: Policy)
    requires p.wellTyped && p.versions != [] && Descending(p.versions) && p.configs.Keys == Elements(p.versions)
    requires forall v | v in p.versions :: v in p.configs && p.configs[v] >= 1
    requires p.windows == Keep(p.versions, Elements(p.windows)) && Elements(p.windows) <= Elements(p.versions)
    ensures WellFormed(p)
  {
    hide Keep, Descending;
    assert forall v | v in p.configs :: v in Elements(p.versions);
  }

  lemma IsFaithful(p: Policy, checked: Policy, manifests: Version -> Option<Manifest>, candidate: int)
    requires p.wellTyped && p.configs.Keys == Elements(p.versions)
    requires forall v | v in p.versions ::
               && v in p.configs && 1 <= p.configs[v] <= candidate
               && (v in checked.versions ==> v in checked.configs && p.configs[v] == checked.configs[v])
               && (v !in checked.versions ==> manifests(v).Some? && p.configs[v] == manifests(v).value.config)
    requires p.windows == Keep(p.versions, WindowsAmong(p.versions, checked, manifests))
    ensures Faithful(p, checked, manifests, candidate)
  {
    hide Keep, WindowsAmong;
  }

  lemma FoundBelow(checked: Policy, target: Version, found: seq<Version>)
    requires forall v | v in found :: Between(FloorOf(checked, target), v, target)
    requires forall v :: v in Resolved(checked, target, found) <==>
              v in found || v in OlderThan(checked.versions, target)
    ensures forall v | v in Resolved(checked, target, found) :: Below(v, target)
  {
    hide Resolved, FloorOf;
  }

  /** A filtered list is what its own elements filter. */
  lemma KeptWithin(versions: seq<Version>, wanted: set<Version>)
    requires Descending(versions)
    ensures Elements(Keep(versions, wanted)) <= Elements(versions)
    ensures Keep(versions, wanted) == Keep(versions, Elements(Keep(versions, wanted)))
  {
    KeepOf(versions, wanted);
    hide Descending, Keep;
    KeepSame(versions, wanted, Elements(Keep(versions, wanted)));
  }

  /**
   Well-formed, below the target, in order: the stable releases since the floor and then the eligible floor;
   with the config of each from its manifest or the floor, and the versions with Windows files in order.
   */
  ghost predicate IsResolution(p: Policy, checked: Policy, target: Version, candidate: int, releases: seq<Item>,
                               manifests: Version -> Option<Manifest>) {
    && WellFormed(p) && (forall v | v in p.versions :: Below(v, target))
    && Candidates(releases, FloorOf(checked, target), target).Ok?
    && p.versions == Resolved(checked, target, Candidates(releases, FloorOf(checked, target), target).value)
    && Faithful(p, checked, manifests, candidate)
  }

  /** scripts/resolve_upgrade_baselines.py `resolve_effective_policy`. */
  method ResolveEffectivePolicy(checked: Policy, target: Version, candidate: int, releases: seq<Item>,
                                manifests: Version -> Option<Manifest>)
    returns (r: Result<Policy, ResolveError>)
    ensures r.Ok? <==> Resolvable(checked, target, candidate, releases, manifests)
    ensures r.Ok? ==> IsResolution(r.value, checked, target, candidate, releases, manifests)
  {
    GuardIff(checked);
    hide IsResolution;
    if candidate < 1 {
      return Err(BadCandidate);
    }
    if !FloorOk(checked) {
      return Err(BadFloor);
    }
    var eligible := OlderThan(checked.versions, target);
    EligibleHaveConfigs(checked, target);
    hide WellFormed, OlderThan, Candidates, SortBy, Below, Faithful, Keep, PassesGuard, ManifestOk, Authenticated,
        Distinct, NewerFirst;
    if exists v | v in eligible :: checked.configs[v] > candidate {
      return Err(FloorTooNew);
    }
    var floor := FloorOf(checked, target);
    var candidates := FindCandidates(releases, floor, target);
    if candidates.Err? {
      return Err(candidates.error);
    }
    var found := candidates.value;
    CandidatesAre(releases, floor, target);
    var dynamic := SortBy(found, NewerFirst);
    SortedNewest(found);
    var ok, configs, dynamicWindows := AuthenticateAll(dynamic, manifests, candidate, FloorConfigs(checked, target));
    if !ok {
      return Err(NotAuthentic);
    }
    NoneResolved(checked, target, found);
    if Resolved(checked, target, found) == [] {
      return Err(NoBaseline);
    }
    hide FloorOf, Resolved, Assemble;
    Resolves(checked, target, candidate, releases, found, manifests, configs, dynamicWindows);
    return Ok(Assemble(checked, target, found, configs, dynamicWindows));
  }

  lemma Resolves(checked: Policy, target: Version, candidate: int, releases: seq<Item>, found: seq<Version>,
                 manifests: Version -> Option<Manifest>, configs: map<Version, int>, dynamicWindows: seq<Version>)
    requires FloorAdmissible(checked, target, candidate) && Distinct(found) && Resolved(checked, target, found) != []
    requires Candidates(releases, FloorOf(checked, target), target) == Ok(found)
    requires forall v | v in found :: Between(FloorOf(checked, target), v, target)
    requires var dynamic := SortBy(found, NewerFirst);
             Authenticated(dynamic, manifests, candidate, FloorConfigs(checked, target), |dynamic|, configs,
                 dynamicWindows)
    ensures IsResolution(Assemble(checked, target, found, configs, dynamicWindows), checked, target, candidate,
              releases, manifests)
  {
    Assembled(checked, target, candidate, found, manifests, configs, dynamicWindows);
    AssembleIs(checked, target, found, configs, dynamicWindows);
    hide Assemble, Resolved, SortBy, Authenticated, FloorOf, WellFormed, Faithful, Below, Candidates, OlderThan,
        Distinct;
  }

  lemma NoneResolved(checked: Policy, target: Version, found: seq<Version>)
    requires forall v | v in found :: Between(FloorOf(checked, target), v, target)
    ensures Resolved(checked, target, found) == [] <==> OlderThan(checked.versions, target) == []
  {
    NothingFound(FloorOf(checked, target), found, target);
    NoneSorted();
  }

  lemma NoneSorted()
    ensures SortBy([], NewerFirst) == []
  {
  }

  lemma NothingFound(floor: Option<Version>, found: seq<Version>, target: Version)
    requires forall v | v in found :: Between(floor, v, target)
    ensures floor.None? ==> found == []
  {
    assert found != [] ==> found[0] in found;
  }

  lemma EligibleHaveConfigs(checked: Policy, target: Version)
    requires WellFormed(checked)
    ensures forall v | v in OlderThan(checked.versions, target) :: v in checked.configs
  {
    assert forall v | v in checked.versions :: v in Elements(checked.versions);
  }

  /** A resolved policy is never refused as malformed or too new by the two selectors. */
  lemma ResolvedIsAccepted(p: Policy, target: Version)
    ensures WellFormed(p) && (forall v | v in p.versions :: Below(v, target)) ==>
              && Selection(p, target) != Err(Malformed) && Selection(p, target) != Err(NothingOlder)
              && RequiredMatrix(p, target, BRIDGE) != Err(Malformed)
              && RequiredMatrix(p, target, BRIDGE) != Err(NotOlder)
  {
    if WellFormed(p) && forall v | v in p.versions :: Below(v, target) {
      SelectionAccepts(p, target);
      MatrixAccepts(p, target);
    }
  }

  lemma MatrixAccepts(p: Policy, target: Version)
    requires WellFormed(p) && forall v | v in p.versions :: Below(v, target)
    ensures RequiredMatrix(p, target, BRIDGE) != Err(Malformed) && RequiredMatrix(p, target, BRIDGE) != Err(NotOlder)
  {
    GuardIff(p);
    hide WellFormed, PassesGuard, PostBridge, Natives, InFamily, Newest, NoRepeats, Below;
  }

  lemma SelectionAccepts(p: Policy, target: Version)
    requires WellFormed(p) && forall v | v in p.versions :: Below(v, target)
    ensures Selection(p, target) != Err(Malformed) && Selection(p, target) != Err(NothingOlder)
  {
    AllOlder(p.versions, target);
    FamilyErrors(p.versions, target, 3);
    hide OlderThan, WithFamilies, Below;
  }

  lemma {:induction false} FamilyErrors(older: seq<Version>, target: Version, n: nat)
    requires older != [] && n <= 3
    ensures WithFamilies(older, target, n) != Err(Malformed) && WithFamilies(older, target, n) != Err(NothingOlder)
  {
    AnchorErrors(older, target, 3);
    hide WithAnchors, InFamily, Newest, AddNew;
    if n > 0 {
      FamilyErrors(older, target, n - 1);
    }
  }

  lemma {:induction false} AnchorErrors(older: seq<Version>, target: Version, n: nat)
    requires older != [] && n <= 3
    ensures WithAnchors(older, target, n) != Err(Malformed) && WithAnchors(older, target, n) != Err(NothingOlder)
  {
    hide Newest, AddNew, Below;
    if n > 0 {
      AnchorErrors(older, target, n - 1);
    }
  }

  // ----- the result on the inventory itself

  /** A stable release between floor and target. */
  predicate Offered(r: Item, floor: Version, target: Version) {
    r.Release? && r == Release(r.tag, false, false, r.immutable) && Below(floor, r.tag) && Below(r.tag, target)
  }

  ghost predicate OfferedOnce(releases: seq<Item>, floor: Version, target: Version) {
    forall i, j |
        0 <= i < j < |releases| && Offered(releases[i], floor, target) && Offered(releases[j], floor, target) ::
      releases[i].tag != releases[j].tag
  }

  /** Only releases, and the stable ones in the range can no longer change and differ in their tags. */
  ghost predicate InventoryOk(releases: seq<Item>, floor: Version, target: Version) {
    && (forall r | r in releases :: r != NotAnObject)
    && (forall r | r in releases && Offered(r, floor, target) :: r.immutable)
    && OfferedOnce(releases, floor, target)
  }

  lemma OfferedMore(releases: seq<Item>, r: Item, floor: Version, target: Version)
    ensures OfferedOnce(releases + [r], floor, target) <==>
              OfferedOnce(releases, floor, target) &&
              !(Offered(r, floor, target) &&
                exists s | s in releases :: Offered(s, floor, target) && s.tag == r.tag)
  {
    hide Offered;
    var all := releases + [r];
    assert all[|releases|] == r && forall i | 0 <= i < |releases| :: all[i] == releases[i];
  }

  lemma OfferedIs(r: Item, floor: Version, target: Version)
    ensures Offered(r, floor, target) <==> IsStable(r) && Between(Some(floor), r.tag, target)
  {
  }

  lemma {:induction false} CandidatesIff(releases: seq<Item>, floor: Version, target: Version)
    ensures Candidates(releases, Some(floor), target).Ok? <==> InventoryOk(releases, floor, target)
  {
    if releases != [] {
      var n := |releases| - 1;
      var front, r := releases[..n], releases[n];
      CandidatesIff(front, floor, target);
      assert releases == front + [r];
      OfferedMore(front, r, floor, target);
      OfferedIs(r, floor, target);
      assert InventoryOk(releases, floor, target) <==>
          InventoryOk(front, floor, target) && r != NotAnObject && (Offered(r, floor, target) ==> r.immutable) &&
          OfferedOnce(releases, floor, target) by {
        hide Offered, OfferedOnce;
        assert forall s :: s in releases <==> s in front || s == r;
        assert r in releases;
      }
      if Candidates(front, Some(floor), target).Ok? {
        CandidatesAre(front, Some(floor), target);
        forall s: Item ensures Offered(s, floor, target) <==> IsStable(s) && Between(Some(floor), s.tag, target) {
          OfferedIs(s, floor, target);
        }
      }
      hide InventoryOk, OfferedOnce, Offered, IsStable, Between, Distinct;
    }
  }

  lemma FloorIs(checked: Policy, target: Version, floor: Version)
    ensures FloorOf(checked, target) == Some(floor) <==> NewestOlder(checked.versions, target, floor)
  {
    if OlderThan(checked.versions, target) != [] {
      NewestIff(checked.versions, target, floor);
    }
  }

  /** Every release offered has a manifest with a config the candidate can read. */
  ghost predicate ManifestsOk(releases: seq<Item>, floor: Version, target: Version, candidate: int,
                              manifests: Version -> Option<Manifest>) {
    forall r | r in releases && Offered(r, floor, target) ::
      manifests(r.tag).Some? && 1 <= manifests(r.tag).value.config <= candidate
  }

  /** When a policy can be resolved. */
  lemma ResolvableIff(checked: Policy, target: Version, candidate: int, releases: seq<Item>,
                      manifests: Version -> Option<Manifest>)
    ensures Resolvable(checked, target, candidate, releases, manifests) <==>
              && candidate >= 1 && WellFormed(checked) && checked.windows != []
              && (forall v | v in checked.versions && Below(v, target) ::
                    v in checked.configs && checked.configs[v] <= candidate)
              && exists floor | NewestOlder(checked.versions, target, floor) ::
                InventoryOk(releases, floor, target) && ManifestsOk(releases, floor, target, candidate, manifests)
  {
    forall floor ensures FloorOf(checked, target) == Some(floor) <==> NewestOlder(checked.versions, target, floor) {
      FloorIs(checked, target, floor);
    }
    if OlderThan(checked.versions, target) != [] {
      var floor := FloorOf(checked, target).value;
      CandidatesIff(releases, floor, target);
      if Candidates(releases, Some(floor), target).Ok? {
        FoundAre(releases, floor, target);
      }
    }
    hide NewestOlder, InventoryOk, Candidates, WellFormed, Below, Offered, FloorOf;
  }

  lemma FoundAre(releases: seq<Item>, floor: Version, target: Version)
    requires Candidates(releases, Some(floor), target).Ok?
    ensures forall v :: v in Candidates(releases, Some(floor), target).value <==>
              exists r | r in releases :: Offered(r, floor, target) && r.tag == v
  {
    CandidatesAre(releases, Some(floor), target);
    forall s: Item ensures Offered(s, floor, target) <==> IsStable(s) && Between(Some(floor), s.tag, target) {
      OfferedIs(s, floor, target);
    }
    hide Offered, IsStable, Between, Candidates;
  }

  /** Which versions a resolved policy lists, newest first. */
  lemma ResolutionLists(p: Policy, checked: Policy, target: Version, candidate: int, releases: seq<Item>,
                        manifests: Version -> Option<Manifest>, floor: Version, v: Version)
    requires NewestOlder(checked.versions, target, floor)
    ensures IsResolution(p, checked, target, candidate, releases, manifests) ==>
              && Descending(p.versions)
              && (v in p.versions <==>
                    || (v in checked.versions && Below(v, target))
                    || exists r | r in releases :: Offered(r, floor, target) && r.tag == v)
  {
    if IsResolution(p, checked, target, candidate, releases, manifests) {
      FloorIs(checked, target, floor);
      FoundAre(releases, floor, target);
      var found := Candidates(releases, Some(floor), target).value;
      SameElements(SortBy(found, NewerFirst), found);
      hide NewestOlder, Candidates, Below, Offered, FloorOf, SortBy, Faithful, Descending;
    }
  }
}
