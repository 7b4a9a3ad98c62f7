/**
 scripts/release_api_retry.py: bounded observation of a release namespace that changes under the
 observer. What each request answers is an arbitrary function of its number.
 */
module ReleaseReconcile {
  import opened Outcomes

  /** A request that fails, finds nothing, or finds something. */
  datatype Lookup<T> = Raised | Missing | Found(value: T)

  // ----- one bounded request

  /** A response; `body` is the parsed JSON, if it parses. */
  datatype Response<T> = Response(status: Option<int>, returncode: int, body: Option<T>)

  datatype Fetched<T> = Value(value: T) | Nothing | InvalidJson | NotEstablished

  const TRANSIENT: set<int> := {408, 429, 500, 502, 503, 504}

  predicate Succeeds<T>(r: Response<T>) {
    r.returncode == 0 && r.status.Some? && 200 <= r.status.value < 300
  }

  /** Worth another request. */
  predicate Transient<T>(r: Response<T>) {
    !Succeeds(r) && (r.status.None? || r.status.value in {408, 429, 500, 502, 503, 504})
  }

  function Conclusion<T>(r: Response<T>, absentOk: bool): Fetched<T> {
    if Succeeds(r) then (if r.body.Some? then Value(r.body.value) else InvalidJson)
    else if r.status == Some(404) && absentOk then Nothing
    else NotEstablished
  }

  /** The response says that all is well: exit status 0, and a status with 2 for its hundreds. */
  predicate SaysOk<T>(r: Response<T>) {
    r.returncode == 0 && r.status.Some? && r.status.value / 100 == 2
  }

  /** What a response is taken for, and which responses are asked for again. */
  lemma ConclusionIff<T>(r: Response<T>, absentOk: bool, v: T)
    ensures Conclusion(r, absentOk) == Value(v) <==> SaysOk(r) && r.body == Some(v)
    ensures Conclusion(r, absentOk) == InvalidJson <==> SaysOk(r) && r.body == None
    ensures Conclusion(r, absentOk) == Nothing <==> !SaysOk(r) && r.status == Some(404) && absentOk
    ensures Transient(r) <==>
              !SaysOk(r) && (r.status == None || r.status.value in {408, 429, 500, 502, 503, 504})
  {
  }

  /** scripts/release_api_retry.py `_get_json_value`. */
  method GetJsonValue<T>(answers: nat -> Response<T>, attempts: nat, absentOk: bool)
    returns (r: Fetched<T>, requests: nat)
    requires attempts > 0
    ensures 0 < requests <= attempts
    ensures forall k | 0 <= k < requests - 1 :: Transient(answers(k))
    ensures requests < attempts ==> !Transient(answers(requests - 1))
    ensures r == Conclusion(answers(requests - 1), absentOk)
  {
    requests := 0;
    var attempt := 1;
    while true
      invariant requests == attempt - 1 < attempts
      invariant forall k | 0 <= k < requests :: Transient(answers(k))
      decreases attempts - attempt
    {
      var response := answers(attempt - 1);
      requests := requests + 1;
      if Succeeds(response) {
        return if response.body.Some? then Value(response.body.value) else InvalidJson, requests;
      }
      if response.status == Some(404) && absentOk {
        return Nothing, requests;
      }
      var transient := response.status.None? || response.status.value in TRANSIENT;
      if transient && attempt < attempts {
        attempt := attempt + 1;
      } else {
        return NotEstablished, requests;
      }
    }
  }

  // ----- annotated tags

  /** What a tag or a tag object points to. */
  datatype Target = ToCommit(sha: string) | ToTag(sha: string) | Unusable

  const TAG_DEPTH := 5

  /** The commit reached through at most `depth` objects. */
  function Chase(target: Target, objects: string -> Lookup<Target>, depth: nat): Option<string>
    decreases depth
  {
    if depth == 0 || target.Unusable? then None
    else if target.ToCommit? then Some(target.sha)
    else
      match objects(target.sha)
      case Found(next) => Chase(next, objects, depth - 1)
      case _ => None
  }

  /** scripts/release_api_retry.py `resolve_tag_commit`. */
  method ResolveTagCommit(payload: Target, objects: string -> Lookup<Target>) returns (commit: Option<string>)
    ensures commit == Chase(payload, objects, TAG_DEPTH)
    ensures forall c :: commit == Some(c) <==> exists path :: Leads(path, objects, payload, 5, c)
  {
    forall c
      ensures Chase(payload, objects, TAG_DEPTH) == Some(c) <==> exists path :: Leads(path, objects, payload, 5, c)
    {
      ChaseIsChain(payload, objects, TAG_DEPTH, c);
    }
    hide Leads;
    var current := payload;
    for i := 0 to TAG_DEPTH
      invariant Chase(payload, objects, TAG_DEPTH) == Chase(current, objects, TAG_DEPTH - i)
    {
      if current.Unusable? {
        return None;
      }
      if current.ToCommit? {
        return Some(current.sha);
      }
      var next := objects(current.sha);
      if !next.Found? {
        return None;
      }
      current := next.value;
    }
    return None;
  }

  ghost predicate Chain(path: seq<Target>, objects: string -> Lookup<Target>) {
    path != [] && forall i | 0 <= i < |path| - 1 :: path[i].ToTag? && objects(path[i].sha) == Found(path[i + 1])
  }

  /** The chain goes from the target to the commit, over at most `depth` objects. */
  ghost predicate Leads(path: seq<Target>, objects: string -> Lookup<Target>, target: Target, depth: nat,
                        commit: string) {
    Chain(path, objects) && path[0] == target && |path| <= depth && path[|path| - 1] == ToCommit(commit)
  }

  lemma LeadsFurther(path: seq<Target>, objects: string -> Lookup<Target>, target: Target, next: Target, depth: nat,
                     commit: string)
    requires target.ToTag? && objects(target.sha) == Found(next) && Leads(path, objects, next, depth, commit)
    ensures Leads([target] + path, objects, target, depth + 1, commit)
  {
  }

  lemma LeadsBefore(path: seq<Target>, objects: string -> Lookup<Target>, target: Target, depth: nat, commit: string)
    requires Leads(path, objects, target, depth, commit) && target != ToCommit(commit)
    ensures target.ToTag? && objects(target.sha).Found? && depth > 0
    ensures Leads(path[1..], objects, objects(target.sha).value, depth - 1, commit)
  {
    assert path[0].ToTag? && objects(path[0].sha) == Found(path[1]);
  }

  /** A commit is found exactly when a chain of at most `depth` objects ends in it. */
  lemma {:induction false} ChaseIsChain(target: Target, objects: string -> Lookup<Target>, depth: nat, commit: string)
    ensures Chase(target, objects, depth) == Some(commit) <==>
              exists path :: Leads(path, objects, target, depth, commit)
    decreases depth
  {
    if depth > 0 && target == ToCommit(commit) {
      assert Leads([target], objects, target, depth, commit);
    } else if depth > 0 {
      if target.ToTag? && objects(target.sha).Found? {
        ChaseIsChain(objects(target.sha).value, objects, depth - 1, commit);
      }
      hide Leads;
      if Chase(target, objects, depth) == Some(commit) {
        var path :| Leads(path, objects, objects(target.sha).value, depth - 1, commit);
        LeadsFurther(path, objects, target, objects(target.sha).value, depth - 1, commit);
      }
      forall path | Leads(path, objects, target, depth, commit) ensures Chase(target, objects, depth) == Some(commit) {
        LeadsBefore(path, objects, target, depth, commit);
      }
    }
  }

  // ----- reconciling a create

  /**
   What one probe sees: the tag with the commit it resolves to, if it does; the release and whether it
   passes the checks on a published release.
   */
  datatype Probe = Probe(tag: Lookup<Option<string>>, release: Lookup<bool>)

  datatype Outcome = Exact | Absent | WrongCommit | ApiError | Mismatch | BadArguments

  predicate Clear(p: Probe) {
    p.tag.Missing? && p.release.Missing?
  }

  predicate TagOnly(p: Probe, expected: string) {
    p.tag == Found(Some(expected)) && p.release.Missing?
  }

  predicate Sealed(p: Probe, expected: string) {
    p.tag == Found(Some(expected)) && p.release == Found(true)
  }

  /** A request fails, or there is a tag without a release that is not the expected one. */
  predicate Fatal(p: Probe, expected: string) {
    p.tag.Raised? || p.release.Raised? || (p.tag.Found? && p.release.Missing? && p.tag.value != Some(expected))
  }

  /** The first `n` probes leave the question open: nothing conclusive, and nothing gone after being seen. */
  ghost predicate Open(probes: nat -> Probe, expected: string, n: nat) {
    forall j: nat | j < n ::
      !Sealed(probes(j), expected) && !Fatal(probes(j), expected) && (Clear(probes(j)) ==> AllClear(probes, j))
  }

  ghost predicate AllClear(probes: nat -> Probe, n: nat) {
    forall j: nat | j < n :: Clear(probes(j))
  }

  /** The probes at `n - 2` and `n - 1` both saw only the expected tag. */
  ghost predicate TwiceTagOnly(probes: nat -> Probe, expected: string, n: int) {
    n >= 2 && TagOnly(probes(n - 2), expected) && TagOnly(probes(n - 1), expected)
  }

  /** The last of `n` regular probes was the first to see only the tag, so one more decides. */
  ghost predicate NeedsConfirmation(probes: nat -> Probe, expected: string, n: nat) {
    n > 0 && Open(probes, expected, n) && TagOnly(probes(n - 1), expected) && !TwiceTagOnly(probes, expected, n)
  }

  /** A probe saw the expected tag and the published release after an open start, at the latest when confirming. */
  ghost predicate ProvesExact(probes: nat -> Probe, expected: string, attempts: nat) {
    || (exists k: nat | k < attempts :: Open(probes, expected, k) && Sealed(probes(k), expected))
    || (NeedsConfirmation(probes, expected, attempts) && Sealed(probes(attempts), expected))
  }

  /** All probes saw nothing, or the last two of an open run saw only the expected tag. */
  ghost predicate ProvesAbsent(probes: nat -> Probe, expected: string, attempts: nat) {
    || AllClear(probes, attempts)
    || (Open(probes, expected, attempts) && TwiceTagOnly(probes, expected, attempts))
    || (NeedsConfirmation(probes, expected, attempts) && TagOnly(probes(attempts), expected))
  }

  /** The state of the loop after `n` probes. */
  ghost predicate Watching(probes: nat -> Probe, expected: string, n: nat, observed: bool, tagOnly: nat) {
    && Open(probes, expected, n)
    && (observed <==> !AllClear(probes, n))
    && (tagOnly >= 1 <==> n >= 1 && TagOnly(probes(n - 1), expected))
    && (tagOnly >= 2 <==> TwiceTagOnly(probes, expected, n))
  }

  lemma StillClear(probes: nat -> Probe, expected: string, n: nat, tagOnly: nat)
    requires Watching(probes, expected, n, false, tagOnly) && Clear(probes(n))
    ensures Watching(probes, expected, n + 1, false, 0)
  {
  }

  lemma TagSeen(probes: nat -> Probe, expected: string, n: nat, observed: bool, tagOnly: nat)
    requires Watching(probes, expected, n, observed, tagOnly) && TagOnly(probes(n), expected)
    ensures Watching(probes, expected, n + 1, true, tagOnly + 1)
  {
  }

  lemma OtherwiseSeen(probes: nat -> Probe, expected: string, n: nat, observed: bool, tagOnly: nat)
    requires Watching(probes, expected, n, observed, tagOnly) && !Clear(probes(n)) && !TagOnly(probes(n), expected)
    requires !Sealed(probes(n), expected) && !Fatal(probes(n), expected)
    ensures Watching(probes, expected, n + 1, true, 0)
  {
  }

  lemma EndsExact(probes: nat -> Probe, expected: string, n: nat, observed: bool, tagOnly: nat, attempts: nat)
    requires Watching(probes, expected, n, observed, tagOnly) && n < attempts && Sealed(probes(n), expected)
    ensures ProvesExact(probes, expected, attempts) && !ProvesAbsent(probes, expected, attempts)
  {
  }

  /** Nothing is proved once a request failed, the tag was wrong, or what was seen is gone. */
  lemma EndsInError(probes: nat -> Probe, expected: string, n: nat, attempts: nat)
    requires n < attempts && Open(probes, expected, n)
    requires Fatal(probes(n), expected) || (Clear(probes(n)) && !AllClear(probes, n))
    ensures !ProvesExact(probes, expected, attempts) && !ProvesAbsent(probes, expected, attempts)
  {
    assert !Open(probes, expected, n + 1);
  }

  lemma EndsAtLast(probes: nat -> Probe, expected: string, attempts: nat, observed: bool, tagOnly: nat)
    requires attempts > 0 && Watching(probes, expected, attempts, observed, tagOnly)
    ensures !observed ==> ProvesAbsent(probes, expected, attempts) && !ProvesExact(probes, expected, attempts)
    ensures tagOnly >= 2 ==> ProvesAbsent(probes, expected, attempts) && !ProvesExact(probes, expected, attempts)
    ensures observed && tagOnly == 0 ==>
              !ProvesAbsent(probes, expected, attempts) && !ProvesExact(probes, expected, attempts)
    ensures tagOnly == 1 ==>
              && (ProvesExact(probes, expected, attempts) <==> Sealed(probes(attempts), expected))
              && (ProvesAbsent(probes, expected, attempts) <==> TagOnly(probes(attempts), expected))
  {
  }

  /**
   What a reconciliation with `used` probes has to conclude: exactness and absence exactly when they are proved,
   from what the last probes saw, each error by the last probe, and with at most one probe more than `attempts`.
   */
  ghost predicate Reconciled(probes: nat -> Probe, expected: string, attempts: int, outcome: Outcome, used: nat) {
    && (outcome == BadArguments <==> attempts < 1)
    && (attempts >= 1 ==>
          1 <= used <= attempts + 1 && Blamed(probes(used - 1), expected, used > attempts, outcome))
    && (outcome == Exact <==> attempts >= 1 && ProvesExact(probes, expected, attempts))
    && (outcome == Absent <==> attempts >= 1 && ProvesAbsent(probes, expected, attempts))
    && (outcome == Exact ==> used >= 1 && Sealed(probes(used - 1), expected))
    && (outcome == Absent ==> AllClear(probes, used) || TwiceTagOnly(probes, expected, used))
  }

  /** A request fails, or there is a tag that does not resolve and no release. */
  predicate Unanswered(p: Probe) {
    p.tag.Raised? || p.release.Raised? || (p.tag == Found(None) && p.release.Missing?)
  }

  /** A tag without a release is on another commit; or, when confirming, there are both and they are not as expected. */
  predicate Misplaced(p: Probe, expected: string, confirming: bool) {
    && p.tag.Found? && !p.release.Raised?
    && if p.release.Missing? then p.tag.value.Some? && p.tag.value.value != expected
       else confirming && (p.tag.value != Some(expected) || !p.release.value)
  }

  /** Which error the last probe is to be blamed for. */
  predicate Blamed(p: Probe, expected: string, confirming: bool, outcome: Outcome) {
    (outcome == ApiError <==> Unanswered(p)) && (outcome == WrongCommit <==> Misplaced(p, expected, confirming))
  }

  lemma BadlyAsked(probes: nat -> Probe, expected: string, attempts: int)
    requires attempts < 1
    ensures Reconciled(probes, expected, attempts, BadArguments, 0)
  {
  }

  lemma NothingProved(probes: nat -> Probe, expected: string, attempts: nat, outcome: Outcome, used: nat)
    requires 1 <= used <= attempts && (outcome.WrongCommit? || outcome.ApiError? || outcome.Mismatch?)
    requires Blamed(probes(used - 1), expected, false, outcome)
    requires !ProvesExact(probes, expected, attempts) && !ProvesAbsent(probes, expected, attempts)
    ensures Reconciled(probes, expected, attempts, outcome, used)
  {
    hide ProvesExact, ProvesAbsent;
  }

  /** A failed request, a tag on the wrong commit or one that does not resolve, or a disappearance ends in its error. */
  lemma StopsInError(probes: nat -> Probe, expected: string, n: nat, observed: bool, tagOnly: nat, attempts: nat,
                     outcome: Outcome)
    requires Watching(probes, expected, n, observed, tagOnly) && n < attempts
    requires Fatal(probes(n), expected) || (Clear(probes(n)) && observed)
    requires outcome.WrongCommit? || outcome.ApiError? || outcome.Mismatch?
    requires Blamed(probes(n), expected, false, outcome)
    ensures Reconciled(probes, expected, attempts, outcome, n + 1)
  {
    hide AllClear, ProvesExact, ProvesAbsent, Fatal, Blamed;
    EndsInError(probes, expected, n, attempts);
    NothingProved(probes, expected, attempts, outcome, n + 1);
  }

  lemma StopsUndecided(probes: nat -> Probe, expected: string, attempts: nat)
    requires attempts > 0 && Watching(probes, expected, attempts, true, 0)
    ensures Reconciled(probes, expected, attempts, Mismatch, attempts)
  {
    EndsAtLast(probes, expected, attempts, true, 0);
    assert Blamed(probes(attempts - 1), expected, false, Mismatch);
    hide Watching, Blamed, Open;
    NothingProved(probes, expected, attempts, Mismatch, attempts);
  }

  lemma ExactProved(probes: nat -> Probe, expected: string, attempts: nat, used: nat)
    requires 1 <= used <= attempts && Sealed(probes(used - 1), expected)
    requires ProvesExact(probes, expected, attempts) && !ProvesAbsent(probes, expected, attempts)
    ensures Reconciled(probes, expected, attempts, Exact, used)
  {
    hide ProvesExact, ProvesAbsent;
  }

  lemma AbsentProved(probes: nat -> Probe, expected: string, attempts: nat)
    requires attempts >= 1 && (AllClear(probes, attempts) || TwiceTagOnly(probes, expected, attempts))
    requires !ProvesExact(probes, expected, attempts) && ProvesAbsent(probes, expected, attempts)
    ensures Reconciled(probes, expected, attempts, Absent, attempts)
  {
    hide ProvesExact, ProvesAbsent;
  }

  lemma ConfirmedLast(probes: nat -> Probe, expected: string, attempts: nat, outcome: Outcome)
    requires attempts >= 1 && outcome != BadArguments && Blamed(probes(attempts), expected, true, outcome)
    requires outcome == Exact <==> Sealed(probes(attempts), expected)
    requires outcome == Absent <==> TagOnly(probes(attempts), expected)
    requires ProvesExact(probes, expected, attempts) <==> Sealed(probes(attempts), expected)
    requires ProvesAbsent(probes, expected, attempts) <==> TagOnly(probes(attempts), expected)
    requires TagOnly(probes(attempts), expected) ==> TwiceTagOnly(probes, expected, attempts + 1)
    ensures Reconciled(probes, expected, attempts, outcome, attempts + 1)
  {
    hide ProvesExact, ProvesAbsent, TwiceTagOnly, AllClear;
  }

  /** scripts/release_api_retry.py `reconcile_create`. */
  method ReconcileCreate(probes: nat -> Probe, expected: string, attempts: int)
    returns (outcome: Outcome, ghost used: nat)
    ensures Reconciled(probes, expected, attempts, outcome, used)
  {
    used := 0;
    if attempts < 1 {
      BadlyAsked(probes, expected, attempts);
      return BadArguments, 0;
    }
    var observedRemote, consecutiveTagOnly := false, 0;
    assert Watching(probes, expected, 0, false, 0);
    hide Watching, ProvesExact, ProvesAbsent, TwiceTagOnly, AllClear, Open, NeedsConfirmation, Reconciled;
    for attempt := 1 to attempts + 1
      invariant used == attempt - 1 && 0 <= consecutiveTagOnly
      invariant Watching(probes, expected, attempt - 1, observedRemote, consecutiveTagOnly)
      invariant attempt == attempts + 1 ==> observedRemote && consecutiveTagOnly == 0
    {
      var probe := probes(attempt - 1);
      used := used + 1;
      if probe.tag.Raised? || probe.release.Raised? {
        StopsInError(probes, expected, attempt - 1, observedRemote, consecutiveTagOnly, attempts, ApiError);
        return ApiError, used;
      }
      if probe.tag.Missing? && probe.release.Missing? {
        if observedRemote {
          StopsInError(probes, expected, attempt - 1, true, consecutiveTagOnly, attempts, Mismatch);
          return Mismatch, used;
        }
        StillClear(probes, expected, attempt - 1, consecutiveTagOnly);
        consecutiveTagOnly := 0;
        if attempt < attempts {
          continue;
        }
        EndsAtLast(probes, expected, attempts, false, 0);
        ClearAll(probes, expected, attempts);
        AbsentProved(probes, expected, attempts);
        return Absent, used;
      }
      if probe.tag.Found? && probe.release.Missing? {
        if probe.tag.value != Some(expected) {
          outcome := if probe.tag.value.None? then ApiError else WrongCommit;
          StopsInError(probes, expected, attempt - 1, observedRemote, consecutiveTagOnly, attempts, outcome);
          return outcome, used;
        }
        TagSeen(probes, expected, attempt - 1, observedRemote, consecutiveTagOnly);
        observedRemote := true;
        consecutiveTagOnly := consecutiveTagOnly + 1;
        if attempt < attempts {
          continue;
        }
        EndsAtLast(probes, expected, attempts, true, consecutiveTagOnly);
        if consecutiveTagOnly >= 2 {
          Twice(probes, expected, attempts, consecutiveTagOnly);
          AbsentProved(probes, expected, attempts);
          return Absent, used;
        }
        var confirmation := probes(attempts);
        used := used + 1;
        outcome := Confirm(confirmation, expected);
        Confirmed(probes, expected, attempts);
        ConfirmedLast(probes, expected, attempts, outcome);
        return outcome, used;
      }
      if probe.tag == Found(Some(expected)) && probe.release == Found(true) {
        EndsExact(probes, expected, attempt - 1, observedRemote, consecutiveTagOnly, attempts);
        ExactProved(probes, expected, attempts, used);
        return Exact, used;
      }
      OtherwiseSeen(probes, expected, attempt - 1, observedRemote, consecutiveTagOnly);
      observedRemote := true;
      consecutiveTagOnly := 0;
    }
    StopsUndecided(probes, expected, attempts);
    return Mismatch, used;
  }

  lemma ClearAll(probes: nat -> Probe, expected: string, n: nat)
    requires Watching(probes, expected, n, false, 0)
    ensures AllClear(probes, n)
  {
  }

  lemma Twice(probes: nat -> Probe, expected: string, n: nat, tagOnly: nat)
    requires Watching(probes, expected, n, true, tagOnly) && tagOnly >= 2
    ensures TwiceTagOnly(probes, expected, n)
  {
  }

  lemma Confirmed(probes: nat -> Probe, expected: string, n: nat)
    requires Watching(probes, expected, n, true, 1)
    ensures TagOnly(probes(n), expected) ==> TwiceTagOnly(probes, expected, n + 1)
  {
  }

  method Confirm(confirmation: Probe, expected: string) returns (outcome: Outcome)
    ensures outcome == Exact <==> Sealed(confirmation, expected)
    ensures outcome == Absent <==> TagOnly(confirmation, expected)
    ensures Blamed(confirmation, expected, true, outcome)
    ensures outcome != BadArguments
  {
    if confirmation.tag.Raised? || confirmation.release.Raised? {
      return ApiError;
    }
    if confirmation.tag.Found? && confirmation.release.Missing? {
      return if confirmation.tag.value == Some(expected) then Absent
             else if confirmation.tag.value.None? then ApiError
             else WrongCommit;
    }
    if confirmation.tag.Found? && confirmation.release.Found? {
      return if confirmation.tag.value == Some(expected) && confirmation.release.value then Exact else WrongCommit;
    }
    return Mismatch;
  }
}
