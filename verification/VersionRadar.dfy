/**
 scripts/connector-version-radar.py: precedence of semantic versions, and the scheduling of tests of new
 connector versions.
 */
module VersionRadar {
  import opened Outcomes
  import opened Sorting
  import D = Digits

  datatype SemVersion = SemVersion(major: nat, minor: nat, patch: nat, prerelease: seq<string>)

  // ----- precedence

  predicate IsNumeric(id: string) {
    id != "" && D.AllDigits(id)
  }

  function CompareCore(a: SemVersion, b: SemVersion): int {
    if a.major != b.major then (if a.major > b.major then 1 else -1)
    else if a.minor != b.minor then (if a.minor > b.minor then 1 else -1)
    else if a.patch != b.patch then (if a.patch > b.patch then 1 else -1)
    else 0
  }

  /** Two different prerelease identifiers. */
  function CompareIds(own: string, theirs: string): int {
    if IsNumeric(own) && IsNumeric(theirs) then (if D.Val(own) > D.Val(theirs) then 1 else -1)
    else if IsNumeric(own) != IsNumeric(theirs) then (if IsNumeric(own) then -1 else 1)
    else if !TextLeq(own, theirs) then 1
    else -1
  }

  /** Prereleases, from the first identifier on. */
  function CompareFrom(a: seq<string>, b: seq<string>): int {
    if a == [] || b == [] then (if |a| == |b| then 0 else if |a| > |b| then 1 else -1)
    else if a[0] == b[0] then CompareFrom(a[1..], b[1..])
    else CompareIds(a[0], b[0])
  }

  /** The sign that `SemVersion.compare` returns. */
  function Compare(a: SemVersion, b: SemVersion): int {
    if CompareCore(a, b) != 0 then CompareCore(a, b)
    else if a.prerelease == [] && b.prerelease == [] then 0
    else if a.prerelease == [] then 1
    else if b.prerelease == [] then -1
    else CompareFrom(a.prerelease, b.prerelease)
  }

  /** scripts/connector-version-radar.py `SemVersion.compare`. */
  method CompareVersions(own: SemVersion, other: SemVersion) returns (sign: int)
    ensures sign == Compare(own, other)
  {
    var core := CompareCore(own, other);
    if core != 0 {
      return core;
    }
    var a, b := own.prerelease, other.prerelease;
    if a == [] && b == [] {
      return 0;
    }
    if a == [] {
      return 1;
    }
    if b == [] {
      return -1;
    }
    var n := if |a| < |b| then |a| else |b|;
    assert a[0..] == a && b[0..] == b;
    for i := 0 to n
      invariant CompareFrom(a, b) == CompareFrom(a[i..], b[i..])
    {
      assert a[i..][1..] == a[i + 1..] && b[i..][1..] == b[i + 1..];
      if a[i] == b[i] {
        continue;
      }
      return CompareIds(a[i], b[i]);
    }
    return if |a| == |b| then 0 else if |a| > |b| then 1 else -1;
  }

  /** Numeric identifiers without leading zeros, and no empty ones. */
  predicate CanonicalIds(ids: seq<string>) {
    forall i | 0 <= i < |ids| :: ids[i] != "" && (IsNumeric(ids[i]) ==> D.Canonical(ids[i]))
  }

  predicate Canonical(v: SemVersion) {
    CanonicalIds(v.prerelease)
  }

  /**
   Section 11.4 of Semantic Versioning 2.0.0 for two identifiers: numbers by value, texts by their
   characters, and numbers before texts.
   */
  predicate IdPrecedes(x: string, y: string) {
    if IsNumeric(x) && IsNumeric(y) then D.Val(x) < D.Val(y)
    else if IsNumeric(x) then true
    else if IsNumeric(y) then false
    else x != y && TextLeq(x, y)
  }

  /** Section 11.4 of Semantic Versioning 2.0.0: `a` and `b` first differ at `k`. */
  ghost predicate DecidedAt(a: seq<string>, b: seq<string>, k: nat) {
    k <= |a| && k <= |b| && a[..k] == b[..k] && k < |b| && (k == |a| || IdPrecedes(a[k], b[k]))
  }

  /** Section 11 of Semantic Versioning 2.0.0. */
  ghost predicate Precedes(a: SemVersion, b: SemVersion) {
    || a.major < b.major
    || (a.major == b.major && a.minor < b.minor)
    || (a.major == b.major && a.minor == b.minor && a.patch < b.patch)
    || (a.major == b.major && a.minor == b.minor && a.patch == b.patch && a.prerelease != [] &&
        (b.prerelease == [] || exists k: nat :: DecidedAt(a.prerelease, b.prerelease, k)))
  }

  lemma IdsCompared(x: string, y: string)
    requires x != y && (IsNumeric(x) ==> D.Canonical(x)) && (IsNumeric(y) ==> D.Canonical(y))
    ensures CompareIds(x, y) < 0 <==> IdPrecedes(x, y)
    ensures CompareIds(x, y) > 0 <==> IdPrecedes(y, x)
    ensures !(IdPrecedes(x, y) && IdPrecedes(y, x))
  {
    TextLeqTotal(x, y);
    if IsNumeric(x) && IsNumeric(y) && D.Val(x) == D.Val(y) {
      D.CanonicalInjective(x, y);
    }
  }

  lemma SameHead(a: seq<string>, b: seq<string>, k: nat)
    requires 0 < k <= |a| && k <= |b| && a[..k] == b[..k]
    ensures a[0] == b[0]
  {
    assert a[..k][0] == b[..k][0];
  }

  lemma {:induction false} FromIsDecided(a: seq<string>, b: seq<string>)
    requires CanonicalIds(a) && CanonicalIds(b)
    ensures CompareFrom(a, b) < 0 <==> exists k: nat :: DecidedAt(a, b, k)
  {
    if a == [] || b == [] {
      if a == [] && b != [] {
        assert DecidedAt(a, b, 0);
      }
    } else if a[0] == b[0] {
      FromIsDecided(a[1..], b[1..]);
      if exists k: nat :: DecidedAt(a[1..], b[1..], k) {
        var k: nat :| DecidedAt(a[1..], b[1..], k);
        assert a[..k + 1] == [a[0]] + a[1..][..k] && b[..k + 1] == [b[0]] + b[1..][..k];
        assert DecidedAt(a, b, k + 1);
      }
      forall k: nat | DecidedAt(a, b, k) ensures exists j: nat :: DecidedAt(a[1..], b[1..], j) {
        DecidedLater(a, b, k);
        assert DecidedAt(a[1..], b[1..], k - 1);
      }
    } else {
      IdsCompared(a[0], b[0]);
      if CompareFrom(a, b) < 0 {
        assert DecidedAt(a, b, 0);
      }
      forall k: nat | DecidedAt(a, b, k) ensures k == 0 {
        if k > 0 {
          SameHead(a, b, k);
        }
      }
    }
  }

  lemma DecidedLater(a: seq<string>, b: seq<string>, k: nat)
    requires a != [] && b != [] && a[0] == b[0] && DecidedAt(a, b, k)
    requires IsNumeric(a[0]) ==> D.Canonical(a[0])
    ensures k > 0 && DecidedAt(a[1..], b[1..], k - 1)
  {
    if k > 0 {
      assert a[1..][..k - 1] == a[..k][1..] && b[1..][..k - 1] == b[..k][1..];
    }
  }

  /** For versions as section 9 of Semantic Versioning 2.0.0 writes them, the sign is their precedence. */
  lemma CompareIsPrecedence(a: SemVersion, b: SemVersion)
    ensures Canonical(a) && Canonical(b) ==> (Compare(a, b) < 0 <==> Precedes(a, b))
  {
    if Canonical(a) && Canonical(b) {
      FromIsDecided(a.prerelease, b.prerelease);
    }
  }

  // ----- a total order

  lemma {:induction false} FromZero(a: seq<string>, b: seq<string>)
    ensures CompareFrom(a, b) == 0 <==> a == b
    ensures -1 <= CompareFrom(a, b) <= 1
  {
    if a != [] && b != [] && a[0] == b[0] {
      FromZero(a[1..], b[1..]);
      assert a == [a[0]] + a[1..] && b == [b[0]] + b[1..];
    }
  }

  /** Only equal versions compare equal, leading zeros or not. */
  lemma ZeroIffEqual(a: SemVersion, b: SemVersion)
    ensures Compare(a, b) == 0 <==> a == b
    ensures -1 <= Compare(a, b) <= 1
  {
    FromZero(a.prerelease, b.prerelease);
  }

  /** The first different identifiers are spellings of the same number. */
  predicate Clash(a: seq<string>, b: seq<string>) {
    if a == [] || b == [] then false
    else if a[0] == b[0] then Clash(a[1..], b[1..])
    else IsNumeric(a[0]) && IsNumeric(b[0]) && D.Val(a[0]) == D.Val(b[0])
  }

  lemma {:induction false} FromAntisymmetric(a: seq<string>, b: seq<string>)
    ensures CompareFrom(a, b) == -CompareFrom(b, a) <==> !Clash(a, b)
    ensures Clash(a, b) ==> CompareFrom(a, b) == CompareFrom(b, a) == -1
  {
    if a != [] && b != [] {
      if a[0] == b[0] {
        FromAntisymmetric(a[1..], b[1..]);
      } else {
        TextLeqTotal(a[0], b[0]);
      }
    }
  }

  /** Swapping two versions flips the sign exactly when their first difference is not one of leading zeros. */
  lemma AntisymmetricIff(a: SemVersion, b: SemVersion)
    ensures Compare(a, b) == -Compare(b, a) <==> !(CompareCore(a, b) == 0 && Clash(a.prerelease, b.prerelease))
  {
    FromAntisymmetric(a.prerelease, b.prerelease);
  }

  /** With a leading zero each of two versions can be older than the other. */
  lemma LeadingZeroClashes()
    ensures var a, b := SemVersion(1, 0, 0, ["01"]), SemVersion(1, 0, 0, ["1"]);
            Compare(a, b) == -1 && Compare(b, a) == -1
  {
    assert "01"[..1] == "0" && "0"[..0] == "" && "1"[..0] == "";
    assert D.Val("") == 0;
    assert D.Val("0") == 0;
    assert D.Val("01") == 1 && D.Val("1") == 1;
    assert Clash(["01"], ["1"]);
    FromAntisymmetric(["01"], ["1"]);
  }

  lemma {:induction false} NoClash(a: seq<string>, b: seq<string>)
    requires CanonicalIds(a) && CanonicalIds(b)
    ensures !Clash(a, b)
  {
    if a != [] && b != [] {
      if a[0] == b[0] {
        NoClash(a[1..], b[1..]);
      } else if IsNumeric(a[0]) && IsNumeric(b[0]) && D.Val(a[0]) == D.Val(b[0]) {
        D.CanonicalInjective(a[0], b[0]);
      }
    }
  }

  lemma IdsTransitive(x: string, y: string, z: string)
    requires IdPrecedes(x, y) && IdPrecedes(y, z)
    ensures IdPrecedes(x, z)
  {
    if !IsNumeric(x) && !IsNumeric(y) && !IsNumeric(z) {
      TextLeqTransitive(x, y, z);
      TextLeqTotal(x, y);
    }
  }

  lemma {:induction false} FromTransitive(a: seq<string>, b: seq<string>, c: seq<string>)
    requires CanonicalIds(a) && CanonicalIds(b) && CanonicalIds(c)
    requires CompareFrom(a, b) < 0 && CompareFrom(b, c) < 0
    ensures CompareFrom(a, c) < 0
  {
    if a != [] && b != [] && c != [] {
      if a[0] == b[0] && b[0] == c[0] {
        FromTransitive(a[1..], b[1..], c[1..]);
      } else {
        if a[0] != b[0] {
          IdsCompared(a[0], b[0]);
        }
        if b[0] != c[0] {
          IdsCompared(b[0], c[0]);
        }
        if a[0] != b[0] && b[0] != c[0] {
          IdsTransitive(a[0], b[0], c[0]);
        }
        if a[0] != c[0] {
          IdsCompared(a[0], c[0]);
        }
      }
    }
  }

  /** For canonical versions the comparison is a total order. */
  lemma CompareIsOrder(a: SemVersion, b: SemVersion, c: SemVersion)
    ensures Canonical(a) && Canonical(b) ==> Compare(a, b) == -Compare(b, a)
    ensures Canonical(a) && Canonical(b) && Canonical(c) && Compare(a, b) < 0 && Compare(b, c) < 0 ==> Compare(a, c) < 0
  {
    if Canonical(a) && Canonical(b) {
      NoClash(a.prerelease, b.prerelease);
      AntisymmetricIff(a, b);
      if Canonical(c) && Compare(a, b) < 0 && Compare(b, c) < 0 {
        CoreTransitive(a, b, c);
        if CompareCore(a, b) == 0 && CompareCore(b, c) == 0 && a.prerelease != [] && b.prerelease != [] &&
            c.prerelease != [] {
          FromTransitive(a.prerelease, b.prerelease, c.prerelease);
        }
      }
    }
  }

  lemma CoreTransitive(a: SemVersion, b: SemVersion, c: SemVersion)
    requires CompareCore(a, b) <= 0 && CompareCore(b, c) <= 0
    ensures CompareCore(a, c) <= 0
    ensures CompareCore(a, c) == 0 <==> CompareCore(a, b) == 0 && CompareCore(b, c) == 0
  {
  }

  lemma NewerIds(x: string, y: string, z: string)
    requires x != y && y != z && CompareIds(x, y) > 0 && CompareIds(y, z) > 0
    ensures x != z && CompareIds(x, z) > 0
  {
    TextLeqTotal(x, y);
    TextLeqTotal(y, z);
    if TextLeq(x, z) && !IsNumeric(x) && !IsNumeric(y) && !IsNumeric(z) {
      TextLeqTransitive(y, x, z);
    }
  }

  lemma {:induction false} FromNewer(a: seq<string>, b: seq<string>, c: seq<string>)
    requires CompareFrom(a, b) > 0 && CompareFrom(b, c) > 0
    ensures CompareFrom(a, c) > 0
  {
    if a != [] && b != [] && c != [] {
      if a[0] == b[0] && b[0] == c[0] {
        FromNewer(a[1..], b[1..], c[1..]);
      } else if a[0] != b[0] && b[0] != c[0] {
        NewerIds(a[0], b[0], c[0]);
      }
    }
  }

  /** Being newer is transitive for all versions, leading zeros or not. */
  lemma NewerTransitive(a: SemVersion, b: SemVersion, c: SemVersion)
    ensures Compare(a, b) > 0 && Compare(b, c) > 0 ==> Compare(a, c) > 0
  {
    if Compare(a, b) > 0 && Compare(b, c) > 0 {
      if CompareCore(a, b) == 0 && CompareCore(b, c) == 0 &&
         a.prerelease != [] && b.prerelease != [] && c.prerelease != []
      {
        FromNewer(a.prerelease, b.prerelease, c.prerelease);
      }
      hide CompareFrom;
    }
  }

  // ----- scheduling

  /** What the state file keeps of one connector. */
  datatype Entry = Entry(
    seed: Option<SemVersion>, lastSeen: Option<SemVersion>, lastAttempted: Option<SemVersion>,
    lastPassed: Option<SemVersion>)

  const NO_ENTRY := Entry(None, None, None, None)

  datatype Status =
    | InfrastructureError | ForcedTest | InstalledAhead | TestedPassed | AlreadyAttempted
    | OlderThanAttempted | UpdateAvailable | InitialTest

  /** The two versions a check finds out, where it can. */
  datatype Probe = Probe(installed: Option<SemVersion>, latest: Option<SemVersion>)

  datatype Candidate = Candidate(connector: string, baseline: SemVersion, installed: SemVersion, version: SemVersion)

  predicate NeedsTest(s: Status) {
    s.ForcedTest? || s.UpdateAvailable? || s.InitialTest?
  }

  function Decide(entry: Entry, probe: Probe, force: bool): Status {
    if probe.installed.None? || probe.latest.None? then InfrastructureError
    else
      var installed, latest := probe.installed.value, probe.latest.value;
      if force then ForcedTest
      else if Compare(latest, installed) < 0 then InstalledAhead
      else if entry.lastAttempted == Some(latest)
          then (if entry.lastPassed == Some(latest) then TestedPassed else AlreadyAttempted)
      else if entry.lastAttempted.Some? && Compare(latest, entry.lastAttempted.value) < 0 then OlderThanAttempted
      else if Compare(latest, installed) > 0 then UpdateAvailable
      else InitialTest
  }

  /** A test is due exactly for a version that is not older than the installed one and newer than the last one tried. */
  lemma ScheduledIff(entry: Entry, probe: Probe)
    ensures NeedsTest(Decide(entry, probe, false)) <==>
              && probe.installed.Some? && probe.latest.Some?
              && Compare(probe.latest.value, probe.installed.value) >= 0
              && (entry.lastAttempted.Some? ==> Compare(probe.latest.value, entry.lastAttempted.value) > 0)
  {
    if probe.latest.Some? && entry.lastAttempted.Some? {
      ZeroIffEqual(probe.latest.value, entry.lastAttempted.value);
    }
  }

  /** The candidates of a check, in the order of the connectors. */
  function Due(entries: map<string, Entry>, names: seq<string>, probes: string -> Probe, force: bool): seq<Candidate> {
    if names == [] then []
    else
      var n := |names| - 1;
      var name := names[n];
      var entry := EntryOf(entries, name);
      Due(entries, names[..n], probes, force) +
      if NeedsTest(Decide(entry, probes(name), force)) then [CandidateOf(name, entry, probes(name))] else []
  }

  function CandidateOf(name: string, entry: Entry, probe: Probe): Candidate {
    var installed := if probe.installed.Some? then probe.installed.value else SemVersion(0, 0, 0, []);
    var latest := if probe.latest.Some? then probe.latest.value else installed;
    Candidate(name, if entry.lastPassed.Some? then entry.lastPassed.value else installed, installed, latest)
  }

  /** A test is due: both versions are known, and the latest is forced or newer than anything that rules it out. */
  ghost predicate IsDue(entry: Entry, probe: Probe, force: bool) {
    && probe.installed.Some? && probe.latest.Some?
    && (force ||
        (&& Compare(probe.latest.value, probe.installed.value) >= 0
         && (entry.lastAttempted.Some? ==> Compare(probe.latest.value, entry.lastAttempted.value) > 0)))
  }

  /** The candidate for a test from the last version that passed, or else from the installed one. */
  ghost predicate IsCandidate(c: Candidate, name: string, entry: Entry, probe: Probe) {
    && c.connector == name && probe == Probe(Some(c.installed), Some(c.version))
    && (entry.lastPassed == Some(c.baseline) || (entry.lastPassed.None? && c.baseline == c.installed))
  }

  lemma OneDue(name: string, entry: Entry, probe: Probe, force: bool)
    ensures NeedsTest(Decide(entry, probe, force)) <==> IsDue(entry, probe, force)
    ensures IsDue(entry, probe, force) ==> IsCandidate(CandidateOf(name, entry, probe), name, entry, probe)
  {
    ScheduledIff(entry, probe);
    hide Compare;
  }

  /** The candidates, in the order of the connectors: candidate `k` is that of the connector at place `at[k]`. */
  lemma {:induction false} DueAre(entries: map<string, Entry>, names: seq<string>, probes: string -> Probe, force: bool)
    returns (at: seq<nat>)
    ensures |at| == |Due(entries, names, probes, force)|
    ensures forall i, j | 0 <= i < j < |at| :: at[i] < at[j]
    ensures forall k | 0 <= k < |at| ::
              at[k] < |names| &&
              IsCandidate(Due(entries, names, probes, force)[k], names[at[k]], EntryOf(entries, names[at[k]]),
                          probes(names[at[k]]))
    ensures forall i | 0 <= i < |names| ::
              i in at <==> IsDue(EntryOf(entries, names[i]), probes(names[i]), force)
  {
    at := [];
    if names != [] {
      var n := |names| - 1;
      var before := DueAre(entries, names[..n], probes, force);
      OneDue(names[n], EntryOf(entries, names[n]), probes(names[n]), force);
      hide Decide, NeedsTest, CandidateOf, IsDue, IsCandidate, EntryOf;
      assert n !in before;
      at := before + if NeedsTest(Decide(EntryOf(entries, names[n]), probes(names[n]), force)) then [n] else [];
    }
  }

  /** Two tables that agree on what has been attempted and passed. */
  ghost predicate SameAttempts(a: map<string, Entry>, b: map<string, Entry>) {
    forall name :: Attempts(a, name) == Attempts(b, name)
  }

  function Attempts(entries: map<string, Entry>, name: string): (Option<SemVersion>, Option<SemVersion>) {
    if name in entries then (entries[name].lastAttempted, entries[name].lastPassed) else (None, None)
  }

  /** The entry with the installed version recorded, if it is known. */
  function Seen(entry: Entry, probe: Probe): Entry {
    if probe.installed.None? then entry
    else entry.(seed := if entry.seed.None? then probe.installed else entry.seed, lastSeen := probe.installed)
  }

  /**
   A check of `names`: its candidates are the ones due by the entries it started from, it fails when a
   version is unknown, and what was seen of each connector is recorded.
   */
  ghost predicate Checked(start: map<string, Entry>, names: seq<string>, probes: string -> Probe, force: bool,
                          entries: map<string, Entry>, candidates: seq<Candidate>, failed: bool) {
    && candidates == Due(start, names, probes, force)
    && (failed <==> SomeUnknown(names, probes))
    && Recorded(start, names, probes, entries)
  }

  ghost predicate SomeUnknown(names: seq<string>, probes: string -> Probe) {
    exists name | name in names :: probes(name).installed.None? || probes(name).latest.None?
  }

  lemma UnknownMore(names: seq<string>, name: string, probes: string -> Probe)
    ensures SomeUnknown(names + [name], probes) <==>
              SomeUnknown(names, probes) || probes(name).installed.None? || probes(name).latest.None?
  {
    assert forall other :: other in names + [name] <==> other in names || other == name;
  }

  lemma DueMore(start: map<string, Entry>, names: seq<string>, name: string, probes: string -> Probe, force: bool)
    ensures var entry := EntryOf(start, name);
            Due(start, names + [name], probes, force) ==
              Due(start, names, probes, force) +
              if NeedsTest(Decide(entry, probes(name), force)) then [CandidateOf(name, entry, probes(name))] else []
  {
    hide Decide, CandidateOf, NeedsTest;
    assert (names + [name])[..|names|] == names;
  }

  /** What has been passed is all a candidate takes from its entry. */
  lemma SameCandidate(a: Entry, b: Entry, name: string, probe: Probe)
    requires a.lastPassed == b.lastPassed
    ensures CandidateOf(name, a, probe) == CandidateOf(name, b, probe)
  {
  }

  lemma SameEntry(start: map<string, Entry>, names: seq<string>, name: string, probes: string -> Probe,
                  entries: map<string, Entry>)
    requires Recorded(start, names, probes, entries)
    ensures var first := EntryOf(start, name);
            var entry := Seen(EntryOf(entries, name), probes(name));
            first.lastAttempted == entry.lastAttempted && first.lastPassed == entry.lastPassed
  {
    assert RecordedAt(start, name in names, probes(name), entries, name);
    SeenKeeps(EntryOf(start, name), probes(name));
  }

  /** Each connector checked has an entry with what was seen of it now, and nothing else has changed. */
  ghost predicate Recorded(start: map<string, Entry>, names: seq<string>, probes: string -> Probe,
                           entries: map<string, Entry>) {
    forall name :: RecordedAt(start, name in names, probes(name), entries, name)
  }

  ghost predicate RecordedAt(start: map<string, Entry>, checked: bool, probe: Probe, entries: map<string, Entry>,
                             name: string) {
    && (name in entries <==> name in start || checked)
    && (name in entries ==> entries[name] == if checked then Seen(EntryOf(start, name), probe) else start[name])
  }

  function EntryOf(entries: map<string, Entry>, name: string): Entry {
    if name in entries then entries[name] else NO_ENTRY
  }

  /** What a check writes to an entry: installed versions, the first of them for good, and no attempts. */
  lemma SeenKeeps(entry: Entry, probe: Probe)
    ensures Seen(entry, probe).lastAttempted == entry.lastAttempted && Seen(entry, probe).lastPassed == entry.lastPassed
    ensures entry.seed.Some? ==> Seen(entry, probe).seed == entry.seed
    ensures entry.seed.None? ==> Seen(entry, probe).seed == probe.installed
    ensures Seen(entry, probe).lastSeen == if probe.installed.Some? then probe.installed else entry.lastSeen
    ensures Seen(Seen(entry, probe), probe) == Seen(entry, probe)
  {
  }

  lemma CheckKeepsAttempts(start: map<string, Entry>, names: seq<string>, probes: string -> Probe,
                           entries: map<string, Entry>)
    requires Recorded(start, names, probes, entries)
    ensures SameAttempts(entries, start)
  {
    forall name ensures Attempts(entries, name) == Attempts(start, name) {
      assert RecordedAt(start, name in names, probes(name), entries, name);
      SeenKeeps(EntryOf(start, name), probes(name));
    }
  }

  lemma CheckOneMore(start: map<string, Entry>, names: seq<string>, name: string, probes: string -> Probe, force: bool,
                     entries: map<string, Entry>, candidates: seq<Candidate>, failed: bool)
    requires Checked(start, names, probes, force, entries, candidates, failed)
    ensures var probe := probes(name);
            var entry := Seen(EntryOf(entries, name), probe);
            Checked(start, names + [name], probes, force, entries[name := entry],
                    if NeedsTest(Decide(entry, probe, force)) then candidates + [CandidateOf(name, entry, probe)]
                        else candidates,
                    failed || probe.installed.None? || probe.latest.None?)
  {
    var probe := probes(name);
    var entry := Seen(EntryOf(entries, name), probe);
    var first := EntryOf(start, name);
    RecordMore(start, names, name, probes, entries);
    UnknownMore(names, name, probes);
    DueMore(start, names, name, probes, force);
    SameEntry(start, names, name, probes, entries);
    SameDecision(first, entry, probe, force);
    SameCandidate(first, entry, name, probe);
    hide Due, Seen, NeedsTest, CandidateOf, SomeUnknown, Decide, Recorded;
  }

  lemma RecordMore(start: map<string, Entry>, names: seq<string>, name: string, probes: string -> Probe,
                   entries: map<string, Entry>)
    requires Recorded(start, names, probes, entries)
    ensures Recorded(start, names + [name], probes, entries[name := Seen(EntryOf(entries, name), probes(name))])
  {
    var more := entries[name := Seen(EntryOf(entries, name), probes(name))];
    forall other ensures RecordedAt(start, other in names + [name], probes(other), more, other) {
      assert RecordedAt(start, other in names, probes(other), entries, other);
      assert other in names + [name] <==> other in names || other == name;
      SeenKeeps(EntryOf(start, other), probes(other));
      hide Seen;
    }
  }

  lemma SameDecision(a: Entry, b: Entry, probe: Probe, force: bool)
    requires a.lastAttempted == b.lastAttempted && a.lastPassed == b.lastPassed
    ensures Decide(a, probe, force) == Decide(b, probe, force)
  {
    hide Compare;
  }

  class Radar {
    var entries: map<string, Entry>

    constructor ()
      ensures entries == map[]
    {
      entries := map[];
    }

    /** scripts/connector-version-radar.py `check_radar`. */
    method CheckRadar(names: seq<string>, probes: string -> Probe, force: bool)
      returns (candidates: seq<Candidate>, failed: bool)
      modifies this
      ensures Checked(old(entries), names, probes, force, entries, candidates, failed)
    {
      candidates, failed := [], false;
      ghost var start := entries;
      assert names[..0] == [];
      assert names[..|names|] == names;
      assert Checked(start, [], probes, force, entries, candidates, failed);
      hide Checked, Decide;
      for i := 0 to |names|
        invariant Checked(start, names[..i], probes, force, entries, candidates, failed)
      {
        var name := names[i];
        var probe := probes(name);
        var entry := Seen(EntryOf(entries, name), probe);
        CheckOneMore(start, names[..i], name, probes, force, entries, candidates, failed);
        assert names[..i + 1] == names[..i] + [name];
        entries := entries[name := entry];
        if probe.installed.None? || probe.latest.None? {
          failed := true;
        }
        if NeedsTest(Decide(entry, probe, force)) {
          candidates := candidates + [CandidateOf(name, entry, probe)];
        }
      }
    }

    /** scripts/connector-version-radar.py `mark_state`. */
    method MarkState(name: string, version: SemVersion, passed: bool)
      modifies this
      ensures entries.Keys == old(entries).Keys + {name}
      ensures Attempts(entries, name) == (Some(version),
                if passed then Some(version) else Attempts(old(entries), name).1)
      ensures entries[name].seed == EntryOf(old(entries), name).seed &&
                entries[name].lastSeen == EntryOf(old(entries), name).lastSeen
      ensures forall other | other in old(entries) && other != name :: entries[other] == old(entries)[other]
    {
      var entry := EntryOf(entries, name);
      entry := entry.(lastAttempted := Some(version));
      if passed {
        entry := entry.(lastPassed := Some(version));
      }
      entries := entries[name := entry];
    }

    /**
     Checks of one connector with every candidate marked before the next check, from an empty state: exactly
     the records are scheduled, so each version scheduled is newer than all scheduled before it.
     */
    method Rounds(name: string, probes: seq<Probe>, results: nat -> bool) returns (scheduled: seq<SemVersion>)
      requires entries == map[]
      modifies this
      ensures scheduled == Records(probes)
      ensures forall i, j | 0 <= i < j < |scheduled| :: Compare(scheduled[j], scheduled[i]) > 0
    {
      scheduled := [];
      hide Records, Rising, Checked, Decide;
      NothingRises(name, entries, probes);
      for i := 0 to |probes|
        invariant Rising(name, entries, probes[..i], scheduled)
      {
        ghost var before := entries;
        var probe := probes[i];
        var candidates, failed := CheckRadar([name], _ => probe, false);
        OneRound(name, before, entries, probes[..i], probe, scheduled, candidates, failed);
        assert probes[..i + 1] == probes[..i] + [probe];
        if candidates != [] {
          MarkState(name, candidates[0].version, results(i));
          scheduled := scheduled + [candidates[0].version];
          Marked(name, entries, probes[..i + 1], scheduled);
        }
      }
      assert probes[..|probes|] == probes;
      RisingMeans(name, entries, probes, scheduled);
    }
  }

  /**
   The versions that are not older than the installed one and newer than every record before: nothing is attempted
   twice.
   */
  function Records(probes: seq<Probe>): seq<SemVersion> {
    if probes == [] then []
    else
      var before, probe := Records(probes[..|probes| - 1]), probes[|probes| - 1];
      if IsRecord(before, probe) then before + [probe.latest.value] else before
  }

  predicate IsRecord(before: seq<SemVersion>, probe: Probe) {
    && probe.installed.Some? && probe.latest.Some?
    && Compare(probe.latest.value, probe.installed.value) >= 0
    && forall v | v in before :: Compare(probe.latest.value, v) > 0
  }

  /** Every record is newer than all records before it. */
  lemma {:induction false} RecordsRise(probes: seq<Probe>, i: nat, j: nat)
    requires i < j < |Records(probes)|
    ensures Compare(Records(probes)[j], Records(probes)[i]) > 0
  {
    hide Compare;
    var n := |probes| - 1;
    var before := Records(probes[..n]);
    if j < |before| {
      RecordsRise(probes[..n], i, j);
    } else {
      assert before[i] in before;
    }
  }

  /** Newer than the last record is newer than all of them. */
  lemma LastDecides(probes: seq<Probe>, v: SemVersion)
    ensures var records := Records(probes);
            (forall w | w in records :: Compare(v, w) > 0) <==>
              (records == [] || Compare(v, records[|records| - 1]) > 0)
  {
    hide Compare;
    var records := Records(probes);
    if records != [] && Compare(v, records[|records| - 1]) > 0 {
      forall w | w in records ensures Compare(v, w) > 0 {
        var i :| 0 <= i < |records| && records[i] == w;
        if i < |records| - 1 {
          RecordsRise(probes, i, |records| - 1);
          NewerTransitive(v, records[|records| - 1], w);
        }
      }
    }
  }

  /** The records of the probes so far are scheduled, and the last of them is the last one attempted. */
  ghost predicate Rising(name: string, entries: map<string, Entry>, probes: seq<Probe>, scheduled: seq<SemVersion>) {
    && Attempts(entries, name).0 == (if scheduled == [] then None else Some(scheduled[|scheduled| - 1]))
    && scheduled == Records(probes)
  }

  lemma NothingRises(name: string, entries: map<string, Entry>, probes: seq<Probe>)
    requires entries == map[]
    ensures Rising(name, entries, probes[..0], [])
  {
  }

  lemma RisingMeans(name: string, entries: map<string, Entry>, probes: seq<Probe>, scheduled: seq<SemVersion>)
    requires Rising(name, entries, probes, scheduled)
    ensures scheduled == Records(probes)
    ensures forall i, j | 0 <= i < j < |scheduled| :: Compare(scheduled[j], scheduled[i]) > 0
  {
    forall i, j | 0 <= i < j < |scheduled| ensures Compare(scheduled[j], scheduled[i]) > 0 {
      RecordsRise(probes, i, j);
    }
  }

  lemma Marked(name: string, entries: map<string, Entry>, probes: seq<Probe>, scheduled: seq<SemVersion>)
    requires scheduled != [] && scheduled == Records(probes)
    requires Attempts(entries, name).0 == Some(scheduled[|scheduled| - 1])
    ensures Rising(name, entries, probes, scheduled)
  {
    hide Records;
  }

  /** A check that schedules nothing keeps the state and met no record; one that schedules something met one. */
  lemma OneRound(name: string, before: map<string, Entry>, after: map<string, Entry>, probes: seq<Probe>, probe: Probe,
                 scheduled: seq<SemVersion>, candidates: seq<Candidate>, failed: bool)
    requires Rising(name, before, probes, scheduled) &&
              Checked(before, [name], _ => probe, false, after, candidates, failed)
    ensures candidates == [] ==> Rising(name, after, probes + [probe], scheduled)
    ensures candidates != [] ==> scheduled + [candidates[0].version] == Records(probes + [probe])
  {
    var entry := EntryOf(before, name);
    JustOne(before, name, probe);
    CheckKeepsAttempts(before, [name], _ => probe, after);
    assert Attempts(after, name) == Attempts(before, name);
    ScheduledIff(entry, probe);
    assert (probes + [probe])[..|probes|] == probes;
    if probe.latest.Some? {
      LastDecides(probes, probe.latest.value);
    }
    hide Compare, Decide, Recorded, Due;
  }

  lemma JustOne(entries: map<string, Entry>, name: string, probe: Probe)
    ensures var entry := EntryOf(entries, name);
            Due(entries, [name], _ => probe, false) ==
              if NeedsTest(Decide(entry, probe, false)) then [CandidateOf(name, entry, probe)] else []
  {
    assert [name][..0] == [];
  }

  /** Versions that are each newer than the one before are each newer than all before, leading zeros or not. */
  lemma {:induction false} ScheduledAscend(scheduled: seq<SemVersion>, i: nat, j: nat)
    requires i < j < |scheduled|
    ensures (forall k | 0 <= k < |scheduled| - 1 :: Compare(scheduled[k + 1], scheduled[k]) > 0) ==>
              Compare(scheduled[j], scheduled[i]) > 0
  {
    if forall k | 0 <= k < |scheduled| - 1 :: Compare(scheduled[k + 1], scheduled[k]) > 0 {
      hide Compare;
      assert Compare(scheduled[j - 1 + 1], scheduled[j - 1]) > 0;
      if i < j - 1 {
        ScheduledAscend(scheduled, i, j - 1);
        NewerTransitive(scheduled[j], scheduled[j - 1], scheduled[i]);
      }
    }
  }
}
