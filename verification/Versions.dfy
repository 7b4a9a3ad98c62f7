/** Canonical `X.Y.Z` versions as the release scripts read and compare them. */
module Versions {
  import opened Outcomes
  import D = Digits

  datatype Version = Version(major: nat, minor: nat, patch: nat)

  /** Python's order of the key tuples. */
  predicate Below(a: Version, b: Version) {
    || a.major < b.major
    || (a.major == b.major && a.minor < b.minor)
    || (a.major == b.major && a.minor == b.minor && a.patch < b.patch)
  }

  predicate AtMost(a: Version, b: Version) {
    a == b || Below(a, b)
  }

  function Text(v: Version): string {
    D.Text(v.major) + "." + D.Text(v.minor) + "." + D.Text(v.patch)
  }

  function FirstDot(s: string): (i: nat)
    ensures i <= |s| && '.' !in s[..i] && (i < |s| ==> s[i] == '.')
  {
    if s == "" || s[0] == '.' then 0
    else
      var i := 1 + FirstDot(s[1..]);
      assert s[..i] == [s[0]] + s[1..][..i - 1];
      i
  }

  /** The key of a version text: three dot-separated numbers without leading zeros. */
  function Parse(s: string): Option<Version> {
    var i := FirstDot(s);
    if i == |s| then None
    else
      var rest := s[i + 1..];
      var j := FirstDot(rest);
      if j == |rest| then None
      else if D.Canonical(s[..i]) && D.Canonical(rest[..j]) && D.Canonical(rest[j + 1..])
      then Some(Version(D.Val(s[..i]), D.Val(rest[..j]), D.Val(rest[j + 1..])))
      else None
  }

  lemma {:induction false} DotAfter(a: string, b: string)
    requires '.' !in a
    ensures FirstDot(a + "." + b) == |a|
  {
    var s := a + "." + b;
    if a == "" {
      assert s[0] == '.';
    } else {
      assert s[0] == a[0] && a[0] in a;
      assert s[1..] == a[1..] + "." + b;
      DotAfter(a[1..], b);
    }
  }

  lemma AtDot(s: string, i: nat)
    requires i < |s| && s[i] == '.'
    ensures s == s[..i] + "." + s[i + 1..]
  {
  }

  lemma Joined(a: string, b: string, c: string)
    ensures a + "." + (b + "." + c) == a + "." + b + "." + c
  {
  }

  lemma NoDots(n: nat)
    ensures '.' !in D.Text(n) && D.Canonical(D.Text(n)) && D.Val(D.Text(n)) == n
  {
    D.TextCanonical(n);
  }

  /** Every version has one text, and reading the text gives the version. */
  lemma TextThenParse(v: Version)
    ensures Parse(Text(v)) == Some(v)
  {
    var a, b, c := D.Text(v.major), D.Text(v.minor), D.Text(v.patch);
    NoDots(v.major);
    NoDots(v.minor);
    NoDots(v.patch);
    hide D.Text, D.Canonical, D.Val;
    var s, rest := Text(v), b + "." + c;
    assert s == a + "." + rest;
    DotAfter(a, rest);
    assert s[..|a|] == a && s[|a| + 1..] == rest;
    DotAfter(b, c);
    assert rest[..|b|] == b && rest[|b| + 1..] == c;
  }

  lemma ParseThenText(s: string)
    ensures Parse(s).Some? ==> s == Text(Parse(s).value)
  {
    if Parse(s).Some? {
      var i := FirstDot(s);
      var rest := s[i + 1..];
      var j := FirstDot(rest);
      D.CanonicalIsText(s[..i]);
      D.CanonicalIsText(rest[..j]);
      D.CanonicalIsText(rest[j + 1..]);
      AtDot(s, i);
      AtDot(rest, j);
      Joined(s[..i], rest[..j], rest[j + 1..]);
    }
  }

  /** What a text looks like. */
  lemma TextOfOne()
    ensures Text(Version(10, 239, 45678)) == "10.239.45678"
  {
    assert D.Text(10) == "10" && D.Text(239) == "239" && D.Text(45678) == "45678";
  }

  function Parts(v: Version): seq<nat> {
    [v.major, v.minor, v.patch]
  }

  /** `a` and `b` agree before part `i`, where `a` is smaller. */
  predicate SmallerFrom(a: Version, b: Version, i: nat)
    requires i < 3
  {
    Parts(a)[i] < Parts(b)[i] && forall j | 0 <= j < i :: Parts(a)[j] == Parts(b)[j]
  }

  /** Versions are compared at the first part in which they differ. */
  lemma BelowAtFirst(a: Version, b: Version)
    ensures Below(a, b) <==> exists i | 0 <= i < 3 :: SmallerFrom(a, b, i)
  {
    assert Below(a, b) <==> SmallerFrom(a, b, 0) || SmallerFrom(a, b, 1) || SmallerFrom(a, b, 2) by {
      assert Parts(a)[0] == a.major && Parts(a)[1] == a.minor && Parts(a)[2] == a.patch;
      assert Parts(b)[0] == b.major && Parts(b)[1] == b.minor && Parts(b)[2] == b.patch;
    }
  }

  lemma BelowIsOrder()
    ensures forall a, b :: AtMost(a, b) || AtMost(b, a)
    ensures forall a, b :: AtMost(a, b) && AtMost(b, a) ==> a == b
    ensures forall a, b, c :: AtMost(a, b) && AtMost(b, c) ==> AtMost(a, c)
  {
  }

  /** Python's `max` of a list of versions. */
  function Newest(versions: seq<Version>): (v: Version)
    requires versions != []
    ensures v in versions && forall w | w in versions :: AtMost(w, v)
  {
    if |versions| == 1 then versions[0]
    else
      var n := |versions| - 1;
      var before := Newest(versions[..n]);
      assert forall w :: w in versions <==> w in versions[..n] || w == versions[n];
      if Below(before, versions[n]) then versions[n] else before
  }
}
