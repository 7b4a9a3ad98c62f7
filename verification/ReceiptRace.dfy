/**
 scripts/check_upgrade_receipt.py: the check that an upgrade receipt has gone from the queue directory
 into the audit database, made while the gateway moves it there.
 */
module ReceiptRace {
  import opened Outcomes
  import opened Sorting

  /** The facts of a receipt; an absent text is empty. */
  datatype Facts = Facts(
    receiptId: string, fromVersion: string, targetVersion: string, status: string,
    migrationStatus: string, artifactsVerified: bool, failureCode: string)

  /** A queue entry: unreadable unless it is a regular file of allowed size that holds a JSON object. */
  datatype Entry = Unreadable | Receipt(facts: Facts)

  /** An audit row; facts and outcome are absent when their JSON is invalid. */
  datatype Row = Row(id: string, eventSource: string, mandatory: int, facts: Option<Facts>, outcome: Option<string>)

  datatype World = World(queue: map<string, Entry>, database: seq<Row>, committed: set<string>)

  datatype ReceiptError = QueueFull | BadEntry | Unfinished | Duplicate | BadAttempt | BadRow | Disagreement | TimedOut

  const MAX_RECEIPTS := 64

  // ----- the gateway

  /** The gateway writes a queued receipt to the database. */
  ghost predicate Commits(w: World, v: World, name: string, row: Row) {
    && name in w.queue && name !in w.committed && w.queue[name].Receipt? && row.facts == Some(w.queue[name].facts)
    && v == World(w.queue, w.database + [row], w.committed + {name})
  }

  /** The gateway removes a receipt from the queue after committing it. */
  ghost predicate Unlinks(w: World, v: World, name: string) {
    name in w.queue && name in w.committed && v == World(w.queue - {name}, w.database, w.committed)
  }

  ghost predicate Step(w: World, v: World) {
    v == w || (exists name, row :: Commits(w, v, name, row)) || exists name :: Unlinks(w, v, name)
  }

  /** The worlds at successive moments, with nothing enqueued. */
  ghost predicate Runs(world: nat -> World) {
    forall i: nat :: Step(world(i), world(i + 1))
  }

  ghost predicate Fewer(a: map<string, Entry>, b: map<string, Entry>) {
    forall name | name in b :: name in a && a[name] == b[name]
  }

  lemma {:induction false} QueueShrinks(world: nat -> World, i: nat, j: nat)
    requires Runs(world) && i <= j
    ensures Fewer(world(i).queue, world(j).queue)
  {
    if i < j {
      QueueShrinks(world, i, j - 1);
      assert Step(world(j - 1), world(j - 1 + 1));
    }
  }

  // ----- matching rows

  predicate ForUpgrade(f: Facts, source: string, target: string) {
    f.fromVersion == source && f.targetVersion == target
  }

  /** The rows of this upgrade. */
  function Matching(rows: seq<Row>, source: string, target: string): (found: seq<Row>)
    ensures forall row | row in found :: row in rows && row.facts.Some? && ForUpgrade(row.facts.value, source, target)
  {
    if rows == [] then []
    else
      var n := |rows| - 1;
      var before := Matching(rows[..n], source, target);
      assert forall row :: row in rows <==> row in rows[..n] || row == rows[n];
      if rows[n].facts.Some? && ForUpgrade(rows[n].facts.value, source, target) then before + [rows[n]] else before
  }

  function Successes(rows: seq<Row>): seq<Row>
    requires forall row | row in rows :: row.facts.Some?
  {
    if rows == [] then []
    else
      var n := |rows| - 1;
      assert rows[n] in rows;
      Successes(rows[..n]) + if rows[n].facts.value.status == "succeeded" then [rows[n]] else []
  }

  ghost predicate NoneQueued(w: World, target: string) {
    forall name | name in w.queue :: w.queue[name].Receipt? && w.queue[name].facts.targetVersion != target
  }

  /** One successful row of this upgrade, and every row of it is a valid terminal attempt. */
  ghost predicate AdmittedOnce(rows: seq<Row>, source: string, target: string) {
    && |Successes(Matching(rows, source, target))| == 1
    && forall row | row in Matching(rows, source, target) :: Attempt(row, source, target).Ok?
  }

  /** With no receipt for the target queued, the rows of the upgrade never change again. */
  lemma {:induction false} NothingFollows(world: nat -> World, i: nat, j: nat, source: string, target: string)
    requires Runs(world) && i <= j && NoneQueued(world(i), target)
    ensures NoneQueued(world(j), target)
    ensures Matching(world(j).database, source, target) == Matching(world(i).database, source, target)
  {
    if i < j {
      NothingFollows(world, i, j - 1, source, target);
      assert Step(world(j - 1), world(j - 1 + 1));
      hide Runs;
      StepAddsNothing(world(j - 1), world(j), source, target);
    }
  }

  lemma StepAddsNothing(w: World, v: World, source: string, target: string)
    requires Step(w, v) && NoneQueued(w, target)
    ensures NoneQueued(v, target) && Matching(v.database, source, target) == Matching(w.database, source, target)
  {
    if exists name, row :: Commits(w, v, name, row) {
      var name, row :| Commits(w, v, name, row);
      assert v.database[..|w.database|] == w.database;
    }
  }

  // ----- the checks on one receipt

  predicate FullySuccessful(f: Facts, source: string, target: string) {
    && ForUpgrade(f, source, target) && f.status == "succeeded" && f.migrationStatus == "completed"
    && f.artifactsVerified && f.failureCode == ""
  }

  function OutcomeOf(status: string): Option<string> {
    if status == "succeeded" then Some("applied")
    else if status == "failed" then Some("failed")
    else if status == "rolled_back" then Some("revoked")
    else None
  }

  /** scripts/check_upgrade_receipt.py `_validate_attempt`. */
  function Attempt(row: Row, source: string, target: string): Result<string, ReceiptError>
    requires row.facts.Some?
  {
    var f := row.facts.value;
    if !ForUpgrade(f, source, target) then Err(BadAttempt)
    else if f.receiptId != row.id || row.eventSource != "cli" || row.mandatory != 1 then Err(BadAttempt)
    else if !f.artifactsVerified || row.outcome.None? then Err(BadAttempt)
    else if OutcomeOf(f.status).None? then Err(BadAttempt)
    else if f.status == "succeeded" && !FullySuccessful(f, source, target) then Err(BadAttempt)
    else if f.status != "succeeded" && f.failureCode == "" then Err(BadAttempt)
    else if row.outcome != OutcomeOf(f.status) then Err(BadAttempt)
    else Ok(f.status)
  }

  /** The check on a queued receipt for the target. */
  predicate QueuedAttemptOk(f: Facts, source: string, target: string) {
    if f.status == "succeeded" then FullySuccessful(f, source, target)
    else
      (f.status == "failed" || f.status == "rolled_back") &&
      f.fromVersion == source && f.artifactsVerified && f.failureCode != ""
  }

  // ----- reading the queue

  ghost predicate Monotone(schedule: nat -> nat) {
    forall i: nat, j: nat | i <= j :: schedule(i) <= schedule(j)
  }

  /** The gateway behaves, and time does not run backwards. */
  ghost predicate Behaves(world: nat -> World, schedule: nat -> nat) {
    Runs(world) && Monotone(schedule)
  }

  /** The listed entries still queued at access `k` have all been read. */
  ghost predicate Covered(world: nat -> World, schedule: nat -> nat, names: seq<string>, k: nat, receipts: seq<Facts>) {
    Behaves(world, schedule) ==>
      forall name | name in names && name in world(schedule(k)).queue ::
        world(schedule(k)).queue[name].Receipt? && world(schedule(k)).queue[name].facts in receipts
  }

  lemma StaysCovered(world: nat -> World, schedule: nat -> nat, names: seq<string>, k: nat, l: nat,
                     receipts: seq<Facts>)
    requires k <= l && Covered(world, schedule, names, k, receipts)
    ensures Covered(world, schedule, names, l, receipts)
  {
    if Behaves(world, schedule) {
      QueueShrinks(world, schedule(k), schedule(l));
    }
  }

  lemma CoveredGone(world: nat -> World, schedule: nat -> nat, names: seq<string>, name: string, k: nat,
                    receipts: seq<Facts>)
    requires Covered(world, schedule, names, k, receipts) && name !in world(schedule(k)).queue
    ensures Covered(world, schedule, names + [name], k, receipts)
  {
    hide Behaves;
    assert forall n :: n in names + [name] <==> n in names || n == name;
  }

  lemma CoveredRead(world: nat -> World, schedule: nat -> nat, names: seq<string>, name: string, k: nat,
                    receipts: seq<Facts>, f: Facts)
    requires Covered(world, schedule, names, k, receipts)
    requires name in world(schedule(k)).queue && world(schedule(k)).queue[name] == Receipt(f)
    ensures Covered(world, schedule, names + [name], k, receipts + [f])
  {
    hide Behaves;
    assert forall n :: n in names + [name] <==> n in names || n == name;
  }

  /** The queue directory, in the order of the names. */
  function Listing(queue: map<string, Entry>): seq<string> {
    SortedSet(queue.Keys)
  }

  /** The receipt was queued at some access between numbers `start` and `k`. */
  ghost predicate WasQueued(world: nat -> World, schedule: nat -> nat, start: nat, k: nat, f: Facts) {
    exists l: nat, name | start <= l <= k && name in world(schedule(l)).queue ::
        world(schedule(l)).queue[name] == Receipt(f)
  }

  ghost predicate AllSeen(world: nat -> World, schedule: nat -> nat, start: nat, k: nat, receipts: seq<Facts>) {
    forall f | f in receipts :: WasQueued(world, schedule, start, k, f)
  }

  ghost predicate UnreadableSeen(world: nat -> World, schedule: nat -> nat, start: nat, k: nat) {
    exists l: nat, name | start <= l <= k && name in world(schedule(l)).queue ::
        world(schedule(l)).queue[name].Unreadable?
  }

  lemma StaysSeen(world: nat -> World, schedule: nat -> nat, start: nat, k: nat, l: nat, receipts: seq<Facts>)
    requires start <= k <= l && AllSeen(world, schedule, start, k, receipts)
    ensures AllSeen(world, schedule, start, l, receipts)
  {
    forall f | f in receipts ensures WasQueued(world, schedule, start, l, f) {
      assert WasQueued(world, schedule, start, k, f);
    }
  }

  lemma SeenMore(world: nat -> World, schedule: nat -> nat, start: nat, k: nat, name: string, receipts: seq<Facts>,
                 f: Facts)
    requires start <= k && AllSeen(world, schedule, start, k, receipts)
    requires name in world(schedule(k)).queue && world(schedule(k)).queue[name] == Receipt(f)
    ensures AllSeen(world, schedule, start, k, receipts + [f])
  {
    assert WasQueued(world, schedule, start, k, f);
    hide WasQueued;
  }

  /** The first files listed at access `start` have been looked at, up to access `k`. */
  ghost predicate Reading(world: nat -> World, schedule: nat -> nat, start: nat, names: seq<string>, k: nat,
                          receipts: seq<Facts>) {
    && k > start && |receipts| <= |names| && |receipts| <= MAX_RECEIPTS
    && Covered(world, schedule, names, k, receipts) && AllSeen(world, schedule, start, k, receipts)
  }

  lemma ReadingStarts(world: nat -> World, schedule: nat -> nat, start: nat)
    ensures Reading(world, schedule, start, [], start + 1, [])
  {
  }

  lemma ReadingLater(world: nat -> World, schedule: nat -> nat, start: nat, names: seq<string>, k: nat,
                     receipts: seq<Facts>)
    requires Reading(world, schedule, start, names, k, receipts)
    ensures Reading(world, schedule, start, names, k + 1, receipts)
  {
    hide AllSeen, Covered;
    StaysCovered(world, schedule, names, k, k + 1, receipts);
    StaysSeen(world, schedule, start, k, k + 1, receipts);
  }

  lemma ReadingGone(world: nat -> World, schedule: nat -> nat, start: nat, names: seq<string>, name: string, k: nat,
                    receipts: seq<Facts>)
    requires Reading(world, schedule, start, names, k, receipts) && name !in world(schedule(k)).queue
    ensures Reading(world, schedule, start, names + [name], k, receipts)
  {
    hide AllSeen, Covered;
    CoveredGone(world, schedule, names, name, k, receipts);
  }

  lemma ReadingMore(world: nat -> World, schedule: nat -> nat, start: nat, names: seq<string>, name: string, k: nat,
                    receipts: seq<Facts>, f: Facts)
    requires Reading(world, schedule, start, names, k, receipts) && |receipts| < MAX_RECEIPTS
    requires name in world(schedule(k)).queue && world(schedule(k)).queue[name] == Receipt(f)
    ensures Reading(world, schedule, start, names + [name], k, receipts + [f])
  {
    hide AllSeen, Covered;
    CoveredRead(world, schedule, names, name, k, receipts, f);
    SeenMore(world, schedule, start, k, name, receipts, f);
  }

  /** Everything still queued at access `k` is among the receipts read. */
  ghost predicate AllRead(world: nat -> World, schedule: nat -> nat, k: nat, receipts: seq<Facts>) {
    Behaves(world, schedule) ==>
      forall name | name in world(schedule(k)).queue ::
        world(schedule(k)).queue[name].Receipt? && world(schedule(k)).queue[name].facts in receipts
  }

  /**
   What reading the queue from access `start` to access `k` has to give: receipts that were queued meanwhile,
   with every one that is queued still among them; or an error for which there is a reason.
   */
  ghost predicate QueueRead(world: nat -> World, schedule: nat -> nat, start: nat, k: nat,
                            r: Result<seq<Facts>, ReceiptError>) {
    && k > start
    && match r
       case Ok(receipts) => |receipts| <= 64 && AllRead(world, schedule, k, receipts) &&
           AllSeen(world, schedule, start, k, receipts)
       case Err(QueueFull) => |world(schedule(start)).queue| > 64
       case Err(BadEntry) => UnreadableSeen(world, schedule, start, k)
       case Err(_) => false
  }

  lemma ReadAll(world: nat -> World, schedule: nat -> nat, start: nat, names: seq<string>, k: nat, receipts: seq<Facts>)
    requires Reading(world, schedule, start, names, k, receipts) && names == Listing(world(schedule(start)).queue)
    ensures QueueRead(world, schedule, start, k, Ok(receipts))
  {
    hide AllSeen, Covered, AllRead;
    AllCovered(world, schedule, start, k, names, receipts);
  }

  lemma ReadTooMany(world: nat -> World, schedule: nat -> nat, start: nat, names: seq<string>, k: nat,
                    receipts: seq<Facts>)
    requires Reading(world, schedule, start, names, k, receipts) && |receipts| >= MAX_RECEIPTS
    requires |names| < |Listing(world(schedule(start)).queue)|
    ensures QueueRead(world, schedule, start, k, Err(QueueFull))
  {
    SortedSetSize(world(schedule(start)).queue.Keys);
  }

  lemma ReadUnreadable(world: nat -> World, schedule: nat -> nat, start: nat, k: nat, name: string)
    requires start < k && name in world(schedule(k)).queue && world(schedule(k)).queue[name].Unreadable?
    ensures QueueRead(world, schedule, start, k, Err(BadEntry))
  {
  }

  /**
   scripts/check_upgrade_receipt.py `_queued_receipts`. Access number `k` happens at moment `schedule(k)`;
   every listed file is looked at and then read in accesses of their own.
   */
  method QueuedReceipts(world: nat -> World, schedule: nat -> nat, start: nat)
    returns (r: Result<seq<Facts>, ReceiptError>, k: nat)
    ensures QueueRead(world, schedule, start, k, r)
  {
    hide *;
    var names := Listing(world(schedule(start)).queue);
    var receipts: seq<Facts> := [];
    k := start + 1;
    assert names[..0] == [];
    ReadingStarts(world, schedule, start);
    for i := 0 to |names|
      invariant Reading(world, schedule, start, names[..i], k, receipts)
    {
      var name := names[i];
      assert names[..i + 1] == names[..i] + [name];
      if |receipts| >= MAX_RECEIPTS {
        ReadTooMany(world, schedule, start, names[..i], k, receipts);
        return Err(QueueFull), k;
      }
      ReadingLater(world, schedule, start, names[..i], k, receipts);
      k := k + 1;
      if name !in world(schedule(k)).queue {
        ReadingGone(world, schedule, start, names[..i], name, k, receipts);
        continue;
      }
      ReadingLater(world, schedule, start, names[..i], k, receipts);
      k := k + 1;
      if name !in world(schedule(k)).queue {
        ReadingGone(world, schedule, start, names[..i], name, k, receipts);
        continue;
      }
      var entry := world(schedule(k)).queue[name];
      if entry.Unreadable? {
        ReadingAfter(world, schedule, start, names[..i], k, receipts);
        ReadUnreadable(world, schedule, start, k, name);
        return Err(BadEntry), k;
      }
      ReadingMore(world, schedule, start, names[..i], name, k, receipts, entry.facts);
      receipts := receipts + [entry.facts];
    }
    assert names[..|names|] == names;
    ReadAll(world, schedule, start, names, k, receipts);
    return Ok(receipts), k;
  }

  lemma ReadingAfter(world: nat -> World, schedule: nat -> nat, start: nat, names: seq<string>, k: nat,
                     receipts: seq<Facts>)
    requires Reading(world, schedule, start, names, k, receipts)
    ensures k > start
  {
  }

  lemma AllCovered(world: nat -> World, schedule: nat -> nat, start: nat, k: nat, names: seq<string>,
                   receipts: seq<Facts>)
    requires start <= k && Covered(world, schedule, names, k, receipts)
    requires forall name :: name in names <==> name in world(schedule(start)).queue
    ensures AllRead(world, schedule, k, receipts)
  {
    if Behaves(world, schedule) {
      QueueShrinks(world, schedule(start), schedule(k));
    }
  }

  // ----- the check

  predicate HalfDone(f: Facts) {
    f.status == "pending" || f.status == "partial"
  }

  predicate AnyUnfinished(receipts: seq<Facts>) {
    exists f | f in receipts :: HalfDone(f)
  }

  function ForTarget(receipts: seq<Facts>, target: string): (found: seq<Facts>)
    ensures forall f :: f in found <==> f in receipts && f.targetVersion == target
  {
    if receipts == [] then []
    else
      var n := |receipts| - 1;
      assert forall f :: f in receipts <==> f in receipts[..n] || f == receipts[n];
      ForTarget(receipts[..n], target) + if receipts[n].targetVersion == target then [receipts[n]] else []
  }

  function Succeeded(receipts: seq<Facts>): seq<Facts> {
    if receipts == [] then []
    else
      var n := |receipts| - 1;
      Succeeded(receipts[..n]) + if receipts[n].status == "succeeded" then [receipts[n]] else []
  }

  /** scripts/check_upgrade_receipt.py `_canonical_receipts`, on the selected rows. */
  function CanonicalReceipts(rows: seq<Row>, source: string, target: string): Result<seq<Row>, ReceiptError> {
    if exists row | row in rows :: row.facts.None? then Err(BadRow) else Ok(Matching(rows, source, target))
  }

  /** What one look at the queue and the database leads to, before the deadline is considered. */
  datatype Verdict = Reject(error: ReceiptError) | Settled | NotYet

  function Judge(receipts: seq<Facts>, rows: Option<seq<Row>>, source: string, target: string): Verdict {
    var queued := ForTarget(receipts, target);
    var queuedSuccess := Succeeded(queued);
    if AnyUnfinished(receipts) then Reject(Unfinished)
    else if |queuedSuccess| > 1 then Reject(Duplicate)
    else if exists f | f in queued :: !QueuedAttemptOk(f, source, target) then Reject(BadAttempt)
    else
      var canonical := if rows.Some? then CanonicalReceipts(rows.value, source, target) else Ok([]);
      if canonical.Err? then Reject(canonical.error)
      else if exists row | row in canonical.value :: row.facts.None? || Attempt(row, source, target).Err?
          then Reject(BadAttempt)
      else
        var successes := Successes(canonical.value);
        if |successes| > 1 then Reject(Duplicate)
        else if successes == [] then NotYet
        else if queuedSuccess != [] && queuedSuccess[0].receiptId != successes[0].id then Reject(Disagreement)
        else if queued == [] then Settled
        else NotYet
  }

  /**
   The upgrade is over: no receipt for the target is queued, no other one is half done or unreadable, every
   row can be read, and the database admits the upgrade once.
   */
  ghost predicate Done(w: World, source: string, target: string) {
    && |w.queue| <= 64 && NoneQueued(w, target)
    && (forall name | name in w.queue :: w.queue[name].Receipt? && !HalfDone(w.queue[name].facts))
    && (forall row | row in w.database :: row.facts.Some?)
    && AdmittedOnce(w.database, source, target)
  }

  lemma {:induction false} DoneStays(world: nat -> World, i: nat, j: nat, source: string, target: string)
    requires Runs(world) && i <= j && Done(world(i), source, target)
    ensures Done(world(j), source, target)
  {
    hide Done, Step;
    if i < j {
      DoneStays(world, i, j - 1, source, target);
      assert Step(world(j - 1), world(j - 1 + 1));
      StepKeepsDone(world(j - 1), world(j), source, target);
    }
  }

  lemma StepKeepsDone(w: World, v: World, source: string, target: string)
    requires Step(w, v) && Done(w, source, target)
    ensures Done(v, source, target)
  {
    StepAddsNothing(w, v, source, target);
    StepKeepsReadable(w, v);
    SameMatching(w.database, v.database, source, target);
    hide AdmittedOnce, Step, HalfDone, Matching;
  }

  lemma SameMatching(rows: seq<Row>, more: seq<Row>, source: string, target: string)
    requires AdmittedOnce(rows, source, target) && Matching(more, source, target) == Matching(rows, source, target)
    ensures AdmittedOnce(more, source, target)
  {
    hide Matching, Successes, Attempt;
  }

  lemma StepKeepsReadable(w: World, v: World)
    requires Step(w, v)
    ensures |v.queue| <= |w.queue| && Fewer(w.queue, v.queue)
    ensures (forall row | row in w.database :: row.facts.Some?) ==> forall row | row in v.database :: row.facts.Some?
  {
    if exists name :: Unlinks(w, v, name) {
      var name :| Unlinks(w, v, name);
      KeysFewer(w.queue, name);
    }
  }

  lemma KeysFewer(queue: map<string, Entry>, name: string)
    ensures |queue - {name}| <= |queue|
  {
    assert (queue - {name}).Keys == queue.Keys - {name};
  }

  /** The database is never locked at an access. */
  ghost predicate Unlocked(locked: nat -> bool) {
    forall k: nat :: !locked(k)
  }

  /** Reading a world that is done finds nothing wrong in the queue. */
  lemma DoneReadsWell(world: nat -> World, schedule: nat -> nat, start: nat, k: nat,
                      r: Result<seq<Facts>, ReceiptError>, source: string, target: string)
    requires Behaves(world, schedule) && start < k && Done(world(schedule(start)), source, target)
    requires QueueRead(world, schedule, start, k, r)
    ensures r.Ok?
  {
    hide AdmittedOnce;
    if r.Err? {
      var l: nat, name :| start <= l <= k && name in world(schedule(l)).queue &&
          world(schedule(l)).queue[name].Unreadable?;
      QueueShrinks(world, schedule(start), schedule(l));
      assert false;
    }
  }

  /** A check with this error had a reason to stop: a queue too long or unreadable, or a look it had to reject. */
  ghost predicate Refused(world: nat -> World, schedule: nat -> nat, access: nat, source: string, target: string,
                          error: ReceiptError) {
    || (error.QueueFull? && exists l: nat :: l <= access && |world(schedule(l)).queue| > 64)
    || (error.BadEntry? && UnreadableSeen(world, schedule, 0, access))
    || exists receipts, rows :: RefusedOn(world, schedule, access, receipts, rows, source, target, error)
  }

  ghost predicate RefusedOn(world: nat -> World, schedule: nat -> nat, access: nat, receipts: seq<Facts>,
                            rows: Option<seq<Row>>,
                            source: string, target: string, error: ReceiptError) {
    && AllSeen(world, schedule, 0, access, receipts) && (rows.Some? ==> rows.value == world(schedule(access)).database)
    && Judge(receipts, rows, source, target) == Reject(error)
  }

  lemma DoneLater(world: nat -> World, schedule: nat -> nat, n: nat, m: nat, source: string, target: string)
    requires Behaves(world, schedule) && n <= m && Done(world(schedule(n)), source, target)
    ensures Done(world(schedule(m)), source, target)
  {
    hide Done, Runs;
    assert schedule(n) <= schedule(m);
    DoneStays(world, schedule(n), schedule(m), source, target);
  }

  /** A look at a world that is done settles. */
  lemma DoneSettles(world: nat -> World, schedule: nat -> nat, start: nat, readAt: nat, receipts: seq<Facts>,
                    source: string, target: string)
    requires Behaves(world, schedule) && start < readAt && Done(world(schedule(start)), source, target)
    requires AllSeen(world, schedule, start, readAt, receipts)
    ensures Judge(receipts, Some(world(schedule(readAt + 1)).database), source, target).Settled?
  {
    DoneLater(world, schedule, start, readAt + 1, source, target);
    SettledWhenDone(receipts, world(schedule(readAt + 1)).database, source, target);
    hide Judge, AdmittedOnce, Runs;
    forall f | f in receipts ensures f.targetVersion != target && !HalfDone(f) {
      assert WasQueued(world, schedule, start, readAt, f);
      var l: nat, name :| start <= l <= readAt && name in world(schedule(l)).queue &&
          world(schedule(l)).queue[name] == Receipt(f);
      QueueShrinks(world, schedule(start), schedule(l));
      assert world(schedule(start)).queue[name] == Receipt(f);
    }
  }

  /** The upgrade was over at none of the first `n` accesses. */
  ghost predicate NeverDone(world: nat -> World, schedule: nat -> nat, n: nat, source: string, target: string) {
    forall i: nat | i < n :: !Done(world(schedule(i)), source, target)
  }

  /** A look that does not settle on a readable database was made before the upgrade was over. */
  lemma LookMisses(world: nat -> World, schedule: nat -> nat, start: nat, readAt: nat,
                   queued: Result<seq<Facts>, ReceiptError>,
                   source: string, target: string)
    requires Behaves(world, schedule) && QueueRead(world, schedule, start, readAt, queued)
    requires queued.Ok? ==> !Judge(queued.value, Some(world(schedule(readAt + 1)).database), source, target).Settled?
    ensures NeverDone(world, schedule, start + 1, source, target)
  {
    hide Done, Judge, AllSeen, AllRead, UnreadableSeen, Behaves;
    forall i: nat | i < start + 1 ensures !Done(world(schedule(i)), source, target) {
      if Done(world(schedule(i)), source, target) {
        DoneLater(world, schedule, i, start, source, target);
        DoneReadsWell(world, schedule, start, readAt, queued, source, target);
        DoneSettles(world, schedule, start, readAt, queued.value, source, target);
      }
    }
  }

  lemma LookRefused(world: nat -> World, schedule: nat -> nat, start: nat, readAt: nat,
                    queued: Result<seq<Facts>, ReceiptError>,
                    rows: Option<seq<Row>>, source: string, target: string, error: ReceiptError)
    requires QueueRead(world, schedule, start, readAt, queued) &&
              (rows.Some? ==> rows.value == world(schedule(readAt + 1)).database)
    requires if queued.Err? then queued.error == error else Judge(queued.value, rows, source, target) == Reject(error)
    ensures !error.TimedOut? && Refused(world, schedule,
              if queued.Err? then readAt else readAt + 1, source, target, error)
  {
    if queued.Ok? {
      hide Done, AllRead;
      forall f | f in queued.value ensures WasQueued(world, schedule, 0, readAt + 1, f) {
        assert WasQueued(world, schedule, start, readAt, f);
      }
      assert AllSeen(world, schedule, 0, readAt + 1, queued.value);
      assert RefusedOn(world, schedule, readAt + 1, queued.value, rows, source, target, error);
    }
  }

  /**
   scripts/check_upgrade_receipt.py `check_upgrade_receipt`, with `polls` looks before the deadline and one
   after it. The database is read in one access, and is locked at some of them.
   */
  method CheckUpgradeReceipt(world: nat -> World, schedule: nat -> nat, locked: nat -> bool, source: string,
                             target: string, polls: nat)
    returns (r: Result<(), ReceiptError>, access: nat)
    ensures r.Ok? && Behaves(world, schedule) ==>
              forall moment: nat | moment >= schedule(access) ::
                NoneQueued(world(moment), target) && AdmittedOnce(world(moment).database, source, target)
    ensures Behaves(world, schedule) && Unlocked(locked) && polls > 0 && Done(world(schedule(0)), source, target) ==>
              r.Ok?
    ensures Behaves(world, schedule) && Unlocked(locked) && r == Err(TimedOut) ==>
              NeverDone(world, schedule, polls, source, target)
    ensures r.Err? && r.error != TimedOut ==> Refused(world, schedule, access, source, target, r.error)
  {
    hide *;
    var k := 0;
    ghost var calm := Behaves(world, schedule) && Unlocked(locked);
    NoneDoneYet(world, schedule, source, target);
    for poll := 0 to polls + 1
      invariant k >= poll
      invariant calm ==> NeverDone(world, schedule, if poll < polls then poll else polls, source, target)
    {
      ghost var start := k;
      var queued;
      queued, k := QueuedReceipts(world, schedule, k);
      ghost var readAt := k;
      ReadingTakesTime(world, schedule, start, k, queued);
      if queued.Err? {
        if calm {
          LookMisses(world, schedule, start, readAt, queued, source, target);
          NotFirst(world, schedule, start + 1, source, target);
        }
        LookRefused(world, schedule, start, readAt, queued, None, source, target, queued.error);
        return Err(queued.error), k;
      }
      k := k + 1;
      var rows := if locked(k) then None else Some(world(schedule(k)).database);
      var verdict := Judge(queued.value, rows, source, target);
      if verdict.Settled? && poll < polls {
        SettledForGood(world, schedule, start, readAt, k, queued.value, rows, source, target);
        return Ok(()), k;
      }
      if calm && !verdict.Settled? {
        ReadableAt(locked, k);
        LookMisses(world, schedule, start, readAt, queued, source, target);
        FewerDone(world, schedule, start + 1, poll + 1, source, target);
        NotFirst(world, schedule, start + 1, source, target);
      }
      if verdict.Reject? {
        LookRefused(world, schedule, start, readAt, queued, rows, source, target, verdict.error);
        return Err(verdict.error), k;
      }
    }
    if calm && polls > 0 {
      NotFirst(world, schedule, polls, source, target);
    }
    return Err(TimedOut), k;
  }

  lemma ReadingTakesTime(world: nat -> World, schedule: nat -> nat, start: nat, k: nat,
                         r: Result<seq<Facts>, ReceiptError>)
    requires QueueRead(world, schedule, start, k, r)
    ensures k > start
  {
  }

  lemma NoneDoneYet(world: nat -> World, schedule: nat -> nat, source: string, target: string)
    ensures NeverDone(world, schedule, 0, source, target)
  {
  }

  lemma NotFirst(world: nat -> World, schedule: nat -> nat, n: nat, source: string, target: string)
    requires n > 0 && NeverDone(world, schedule, n, source, target)
    ensures !Done(world(schedule(0)), source, target)
  {
    hide Done;
  }

  lemma ReadableAt(locked: nat -> bool, k: nat)
    requires Unlocked(locked)
    ensures !locked(k)
  {
  }

  lemma FewerDone(world: nat -> World, schedule: nat -> nat, n: nat, m: nat, source: string, target: string)
    requires m <= n && NeverDone(world, schedule, n, source, target)
    ensures NeverDone(world, schedule, m, source, target)
  {
    hide Done;
  }

  lemma SettledForGood(world: nat -> World, schedule: nat -> nat, start: nat, readAt: nat, k: nat, receipts: seq<Facts>,
                       rows: Option<seq<Row>>, source: string, target: string)
    requires readAt <= k && QueueRead(world, schedule, start, readAt, Ok(receipts))
    requires Judge(receipts, rows, source, target).Settled? &&
              (rows.Some? ==> rows.value == world(schedule(k)).database)
    ensures Behaves(world, schedule) ==>
              forall moment: nat | moment >= schedule(k) ::
                NoneQueued(world(moment), target) && AdmittedOnce(world(moment).database, source, target)
  {
    if Behaves(world, schedule) {
      SettledMeans(receipts, rows, source, target);
      QueueShrinks(world, schedule(readAt), schedule(k));
      hide Runs, Judge, Matching, Successes;
      assert NoneQueued(world(schedule(k)), target);
      forall moment: nat | moment >= schedule(k)
        ensures NoneQueued(world(moment), target) && AdmittedOnce(world(moment).database, source, target)
      {
        NothingFollows(world, schedule(k), moment, source, target);
      }
    }
  }

  /** A settled look saw one success in the database, all attempts valid, and no receipt for the target queued. */
  lemma SettledMeans(receipts: seq<Facts>, rows: Option<seq<Row>>, source: string, target: string)
    requires Judge(receipts, rows, source, target).Settled?
    ensures rows.Some? && AdmittedOnce(rows.value, source, target)
    ensures forall f | f in receipts :: f.targetVersion != target
  {
    hide Matching;
    assert ForTarget(receipts, target) == [];
    forall f | f in receipts ensures f.targetVersion != target {
      assert f !in ForTarget(receipts, target);
    }
  }

  /** Once the gateway is done and the database readable, the next look succeeds exactly when all is as it should be. */
  lemma SettledWhenDone(receipts: seq<Facts>, rows: seq<Row>, source: string, target: string)
    ensures (forall f | f in receipts :: f.targetVersion != target && !HalfDone(f))
            && (forall row | row in rows :: row.facts.Some?) ==>
              (Judge(receipts, Some(rows), source, target).Settled? <==> AdmittedOnce(rows, source, target))
  {
    hide Matching, Successes, Attempt;
    if (forall f | f in receipts :: f.targetVersion != target && !HalfDone(f))
       && (forall row | row in rows :: row.facts.Some?)
    {
      if ForTarget(receipts, target) != [] {
        assert ForTarget(receipts, target)[0] in ForTarget(receipts, target);
      }
      assert ForTarget(receipts, target) == [];
    }
  }

  // ----- what a look comes to, on the receipts and rows themselves

  /** A queued success of an upgrade to the target. */
  predicate QueuedSuccess(f: Facts, target: string) {
    f.targetVersion == target && f.status == "succeeded"
  }

  predicate RowSuccess(row: Row, source: string, target: string) {
    IsOf(row, source, target) && row.facts.value.status == "succeeded"
  }

  predicate IsOf(row: Row, source: string, target: string) {
    row.facts.Some? && row.facts.value.fromVersion == source && row.facts.value.targetVersion == target
  }

  /** Completed and verified without a failure, or verified and ended with one. */
  predicate EndedWell(f: Facts) {
    f.artifactsVerified &&
    ((f.status == "succeeded" && f.migrationStatus == "completed" && f.failureCode == "") ||
     (f.status in {"failed", "rolled_back"} && f.failureCode != ""))
  }

  /** A row that says the same three times: by its identity, its facts and its outcome. */
  predicate ValidRow(row: Row)
    requires row.facts.Some?
  {
    && row.id == row.facts.value.receiptId && row.eventSource == "cli" && row.mandatory == 1
    && EndedWell(row.facts.value)
    && (row.facts.value.status == "succeeded" ==> row.outcome == Some("applied"))
    && (row.facts.value.status == "failed" ==> row.outcome == Some("failed"))
    && (row.facts.value.status == "rolled_back" ==> row.outcome == Some("revoked"))
  }

  /** No two receipts are queued successes. */
  ghost predicate OneQueued(receipts: seq<Facts>, target: string) {
    forall i, j | 0 <= i < j < |receipts| :: !QueuedSuccess(receipts[i], target) || !QueuedSuccess(receipts[j], target)
  }

  ghost predicate OneRow(rows: seq<Row>, source: string, target: string) {
    forall i, j | 0 <= i < j < |rows| :: !RowSuccess(rows[i], source, target) || !RowSuccess(rows[j], source, target)
  }

  ghost predicate SomeRow(rows: seq<Row>, source: string, target: string) {
    exists row | row in rows :: RowSuccess(row, source, target)
  }

  lemma {:induction false} MatchingIs(rows: seq<Row>, source: string, target: string)
    ensures forall row :: row in Matching(rows, source, target) <==> row in rows && IsOf(row, source, target)
  {
    if rows != [] {
      var n := |rows| - 1;
      MatchingIs(rows[..n], source, target);
      assert forall row :: row in rows <==> row in rows[..n] || row == rows[n];
    }
  }

  lemma RowsMore(rows: seq<Row>, row: Row, source: string, target: string)
    ensures OneRow(rows + [row], source, target) <==>
              OneRow(rows, source, target) && !(RowSuccess(row, source, target) && SomeRow(rows, source, target))
    ensures SomeRow(rows + [row], source, target) <==> SomeRow(rows, source, target) || RowSuccess(row, source, target)
  {
    hide RowSuccess;
    var all := rows + [row];
    assert all[|rows|] == row && forall i | 0 <= i < |rows| :: all[i] == rows[i];
    assert forall r :: r in all <==> r in rows || r == row;
  }

  /** The successful rows of the upgrade are these. */
  ghost predicate AreSuccesses(found: seq<Row>, rows: seq<Row>, source: string, target: string) {
    && (forall row :: row in found <==> row in rows && RowSuccess(row, source, target))
    && (found != [] <==> SomeRow(rows, source, target)) && (|found| <= 1 <==> OneRow(rows, source, target))
  }

  lemma SuccessesMore(found: seq<Row>, rows: seq<Row>, row: Row, source: string, target: string)
    requires AreSuccesses(found, rows, source, target)
    ensures AreSuccesses(found + if RowSuccess(row, source, target) then [row] else [], rows + [row], source, target)
  {
    RowsMore(rows, row, source, target);
    hide RowSuccess, OneRow, SomeRow;
    if RowSuccess(row, source, target) {
      assert forall r :: r in found + [row] <==> r in found || r == row;
    } else {
      assert found + [] == found;
    }
  }

  lemma SuccessStep(rows: seq<Row>, source: string, target: string)
    requires rows != []
    ensures var row := rows[|rows| - 1];
            Successes(Matching(rows, source, target)) ==
            Successes(Matching(rows[..|rows| - 1], source, target)) +
            if RowSuccess(row, source, target) then [row] else []
  {
    var n := |rows| - 1;
    var before := Matching(rows[..n], source, target);
    assert (before + [rows[n]])[..|before|] == before;
  }

  lemma {:induction false} RowsCounted(rows: seq<Row>, source: string, target: string)
    ensures AreSuccesses(Successes(Matching(rows, source, target)), rows, source, target)
  {
    if rows != [] {
      var n := |rows| - 1;
      RowsCounted(rows[..n], source, target);
      assert rows == rows[..n] + [rows[n]];
      SuccessStep(rows, source, target);
      SuccessesMore(Successes(Matching(rows[..n], source, target)), rows[..n], rows[n], source, target);
      hide *;
    }
  }

  /** The valid rows of an upgrade admit it once. */
  lemma AdmittedIff(rows: seq<Row>, source: string, target: string)
    ensures AdmittedOnce(rows, source, target) <==>
              && OneRow(rows, source, target) && SomeRow(rows, source, target)
              && forall row | row in rows && IsOf(row, source, target) :: ValidRow(row)
  {
    MatchingIs(rows, source, target);
    RowsCounted(rows, source, target);
    forall row: Row | IsOf(row, source, target)
      ensures Attempt(row, source, target).Ok? <==> ValidRow(row)
    {
    }
    hide Matching, Successes, Attempt, ValidRow, OneRow, SomeRow;
  }

  /** The queued successes of an upgrade to the target are these. */
  ghost predicate AreQueued(found: seq<Facts>, receipts: seq<Facts>, target: string) {
    && (forall f :: f in found <==> f in receipts && QueuedSuccess(f, target))
    && (|found| <= 1 <==> OneQueued(receipts, target))
  }

  lemma QueuedMore(receipts: seq<Facts>, f: Facts, target: string)
    ensures OneQueued(receipts + [f], target) <==>
              OneQueued(receipts, target) && !(QueuedSuccess(f, target) &&
                exists g | g in receipts :: QueuedSuccess(g, target))
  {
    hide QueuedSuccess;
    var all := receipts + [f];
    assert all[|receipts|] == f && forall i | 0 <= i < |receipts| :: all[i] == receipts[i];
  }

  lemma QueuedGrows(found: seq<Facts>, receipts: seq<Facts>, f: Facts, target: string)
    requires AreQueued(found, receipts, target)
    ensures AreQueued(found + if QueuedSuccess(f, target) then [f] else [], receipts + [f], target)
  {
    QueuedMore(receipts, f, target);
    hide QueuedSuccess, OneQueued;
    if QueuedSuccess(f, target) {
      assert forall g :: g in found + [f] <==> g in found || g == f;
      assert found == [] <==> forall g | g in receipts :: !QueuedSuccess(g, target) by {
        assert found != [] ==> found[0] in found;
      }
    } else {
      assert found + [] == found;
    }
  }

  lemma QueuedStep(receipts: seq<Facts>, target: string)
    requires receipts != []
    ensures var f := receipts[|receipts| - 1];
            Succeeded(ForTarget(receipts, target)) ==
            Succeeded(ForTarget(receipts[..|receipts| - 1], target)) + if QueuedSuccess(f, target) then [f] else []
  {
    var n := |receipts| - 1;
    SucceededMore(ForTarget(receipts[..n], target), receipts[n]);
    hide Succeeded;
    assert ForTarget(receipts[..n], target) + [] == ForTarget(receipts[..n], target);
  }

  lemma SucceededMore(receipts: seq<Facts>, f: Facts)
    ensures Succeeded(receipts + [f]) == Succeeded(receipts) + if f.status == "succeeded" then [f] else []
  {
    assert (receipts + [f])[..|receipts|] == receipts;
  }

  lemma {:induction false} QueuedCounted(receipts: seq<Facts>, target: string)
    ensures AreQueued(Succeeded(ForTarget(receipts, target)), receipts, target)
  {
    if receipts != [] {
      var n := |receipts| - 1;
      QueuedCounted(receipts[..n], target);
      assert receipts == receipts[..n] + [receipts[n]];
      QueuedStep(receipts, target);
      QueuedGrows(Succeeded(ForTarget(receipts[..n], target)), receipts[..n], receipts[n], target);
      hide *;
    }
  }

  /** A look finds nothing to reject. */
  ghost predicate Orderly(receipts: seq<Facts>, rows: seq<Row>, source: string, target: string) {
    && QueuedOk(receipts, source, target)
    && (forall row | row in rows :: row.facts.Some?)
    && (forall row | row in rows && IsOf(row, source, target) :: ValidRow(row))
    && OneQueued(receipts, target) && OneRow(rows, source, target) && SameIdentity(receipts, rows, source, target)
  }

  ghost predicate RowsOk(rows: seq<Row>, source: string, target: string) {
    && (forall row | row in rows :: row.facts.Some?)
    && forall row | row in Matching(rows, source, target) :: Attempt(row, source, target).Ok?
  }

  lemma RowsValid(rows: seq<Row>, source: string, target: string)
    ensures RowsOk(rows, source, target) <==>
              && (forall row | row in rows :: row.facts.Some?)
              && forall row | row in rows && IsOf(row, source, target) :: ValidRow(row)
  {
    MatchingIs(rows, source, target);
    forall row: Row | IsOf(row, source, target)
      ensures Attempt(row, source, target).Ok? <==> ValidRow(row)
    {
    }
    hide Attempt, ValidRow, Matching;
  }

  lemma JudgeParts(receipts: seq<Facts>, rows: Option<seq<Row>>, source: string, target: string)
    ensures var seen := if rows.Some? then rows.value else [];
            var queued, done := Succeeded(ForTarget(receipts, target)), Successes(Matching(seen, source, target));
            var verdict := Judge(receipts, rows, source, target);
            && (verdict.Reject? <==>
                  || AnyUnfinished(receipts) || |queued| > 1 || |done| > 1 || !RowsOk(seen, source, target)
                  || (exists f | f in ForTarget(receipts, target) :: !QueuedAttemptOk(f, source, target))
                  || (queued != [] && done != [] && queued[0].receiptId != done[0].id))
            && (verdict.Settled? <==> !verdict.Reject? && done != [] && ForTarget(receipts, target) == [])
  {
    hide Matching, Successes, Succeeded, ForTarget, Attempt, QueuedAttemptOk, AnyUnfinished;
    if rows.None? {
      assert Matching([], source, target) == [] by {
        NoRows(source, target);
      }
    }
  }

  lemma NoRows(source: string, target: string)
    ensures Matching([], source, target) == []
  {
  }

  /** Every queued success has the identity of every successful row. */
  ghost predicate SameIdentity(receipts: seq<Facts>, rows: seq<Row>, source: string, target: string) {
    forall f, row | f in receipts && QueuedSuccess(f, target) && row in rows && RowSuccess(row, source, target) ::
      f.receiptId == row.id
  }

  lemma IdentityIff(queued: seq<Facts>, done: seq<Row>, receipts: seq<Facts>, rows: seq<Row>, source: string,
                    target: string)
    requires AreQueued(queued, receipts, target) && AreSuccesses(done, rows, source, target)
    requires |queued| <= 1 && |done| <= 1
    ensures SameIdentity(receipts, rows, source, target) <==>
              queued == [] || done == [] || queued[0].receiptId == done[0].id
  {
    hide QueuedSuccess, RowSuccess, OneRow, SomeRow, OneQueued;
    assert (queued != [] ==> queued[0] in queued) && (done != [] ==> done[0] in done);
  }

  ghost predicate QueuedOk(receipts: seq<Facts>, source: string, target: string) {
    && (forall f | f in receipts :: f.status !in {"pending", "partial"})
    && forall f | f in receipts && f.targetVersion == target :: f.fromVersion == source && EndedWell(f)
  }

  lemma QueuedValid(receipts: seq<Facts>, source: string, target: string)
    ensures QueuedOk(receipts, source, target) <==>
              !AnyUnfinished(receipts) &&
              forall f | f in ForTarget(receipts, target) :: QueuedAttemptOk(f, source, target)
    ensures ForTarget(receipts, target) == [] <==> forall f | f in receipts :: f.targetVersion != target
  {
    forall f: Facts | f.targetVersion == target
      ensures QueuedAttemptOk(f, source, target) <==> f.fromVersion == source && EndedWell(f)
    {
    }
    hide QueuedAttemptOk, EndedWell;
    var found := ForTarget(receipts, target);
    assert found != [] ==> found[0] in found;
  }

  /** A look with a locked database sees no rows. It is rejected, or settled, for these reasons. */
  lemma LookIff(receipts: seq<Facts>, rows: Option<seq<Row>>, source: string, target: string)
    ensures var seen := if rows.Some? then rows.value else [];
            var verdict := Judge(receipts, rows, source, target);
            && (verdict.Reject? <==> !Orderly(receipts, seen, source, target))
            && (verdict.Settled? <==>
                  && Orderly(receipts, seen, source, target) && SomeRow(seen, source, target)
                  && forall f | f in receipts :: f.targetVersion != target)
  {
    var seen := if rows.Some? then rows.value else [];
    JudgeParts(receipts, rows, source, target);
    RowsCounted(seen, source, target);
    QueuedCounted(receipts, target);
    RowsValid(seen, source, target);
    QueuedValid(receipts, source, target);
    var queued, done := Succeeded(ForTarget(receipts, target)), Successes(Matching(seen, source, target));
    if |queued| <= 1 && |done| <= 1 {
      IdentityIff(queued, done, receipts, seen, source, target);
    }
    hide Judge, RowsOk, ValidRow, QueuedOk, QueuedAttemptOk, OneRow, SomeRow, OneQueued, Matching, Successes, Succeeded,
      ForTarget, SameIdentity, AnyUnfinished, QueuedSuccess, RowSuccess;
  }
}
