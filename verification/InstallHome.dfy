/**
 scripts/e2e-source-install.py: the install home of one slot as a directory transaction. Every change to
 the file system is one step that costs one unit of an arbitrary budget; the process is killed when the
 budget is used up, so what a command guarantees when it is killed holds at every crash point.
 */
module InstallHome {

  /** The slot's three recovery names, the random names of unfinished work, and everything else. */
  datatype Name = Root | Staging | Tombstone | Build(n: nat) | Garbage(n: nat) | Foreign(path: string)

  datatype Marker = NoMarker | NotRegular | NotMine | Holds(text: string)

  /** `pieces` descendants can be removed before the entry itself, which cannot when it is stuck. */
  datatype Child = Child(pieces: nat, stuck: bool)

  datatype Entry = NotDirectory | Directory(mine: bool, marker: Marker, contents: map<string, Child>)

  type FileSystem = map<Name, Entry>

  datatype Status = Done | Refused | Failed | Killed

  predicate Private(n: Name) {
    n.Build? || n.Garbage?
  }

  /** `_validate_owned`. */
  predicate Owned(e: Entry, slot: string) {
    e.Directory? && e.mine && e.marker == Holds(slot + "\n")
  }

  /** `_validate_staging`. */
  predicate MarkerOnly(e: Entry, slot: string) {
    Owned(e, slot) && e.contents == map[]
  }

  function FreshHome(slot: string): Entry {
    Directory(true, Holds(slot + "\n"), map[])
  }

  /** Each recovery name is absent or carries the marker, staging holds nothing else, and not both homes exist. */
  predicate Consistent(fs: FileSystem, slot: string) {
    && (Root in fs ==> Owned(fs[Root], slot))
    && (Staging in fs ==> MarkerOnly(fs[Staging], slot))
    && (Tombstone in fs ==> Owned(fs[Tombstone], slot))
    && !(Root in fs && Tombstone in fs)
  }

  /** Only the listed names and new private names may differ. */
  ghost predicate OnlyChanges(before: FileSystem, after: FileSystem, names: set<Name>) {
    && (forall n | !Private(n) && n !in names :: n in after <==> n in before)
    && (forall n | n in before && n !in names :: n in after && after[n] == before[n])
  }

  /** Names of unfinished work carry numbers already handed out. */
  ghost predicate Numbered(fs: FileSystem, serial: nat) {
    forall n | n in fs && Private(n) :: n.n < serial
  }

  predicate NothingStuck(e: Entry) {
    e.Directory? ==> forall c | c in e.contents :: !e.contents[c].stuck
  }

  function Moved(fs: FileSystem, a: Name, b: Name): FileSystem
    requires a in fs
  {
    (fs - {a})[b := fs[a]]
  }

  /** A tree that lost some of its contents but kept its marker. */
  ghost predicate Drained(before: Entry, after: Entry) {
    && before.Directory? && after.Directory? && after.mine == before.mine && after.marker == before.marker
    && after.contents.Keys <= before.contents.Keys
    && forall c | c in after.contents :: after.contents[c].stuck == before.contents[c].stuck
  }

  /** Nothing of unfinished work is left that was not there. */
  ghost predicate NothingLeft(before: FileSystem, after: FileSystem) {
    forall n | n in after && Private(n) :: n in before
  }

  /** Whatever is left of unfinished work is an empty directory. */
  ghost predicate OnlyEmptyLeft(before: FileSystem, after: FileSystem) {
    forall n | n in after && n !in before && Private(n) :: after[n].Directory? && after[n].contents == map[]
  }

  /** A kill leaves at most one of them. */
  ghost predicate OneLeft(before: FileSystem, after: FileSystem) {
    && OnlyEmptyLeft(before, after)
    && forall m, n | m in after && m !in before && Private(m) && n in after && n !in before && Private(n) :: m == n
  }

  // ----- how many steps a command takes

  /** The steps that remove the named children: their pieces, then each of them. */
  ghost function ChildSteps(contents: map<string, Child>, names: set<string>): nat
    requires names <= contents.Keys
  {
    if names == {} then 0
    else
      var c :| c in names;
      contents[c].pieces + 1 + ChildSteps(contents, names - {c})
  }

  lemma {:induction false} ChildStepsSplit(contents: map<string, Child>, names: set<string>, child: string)
    requires names <= contents.Keys && child in names
    ensures ChildSteps(contents, names) == contents[child].pieces + 1 + ChildSteps(contents, names - {child})
  {
    var c :| c in names && ChildSteps(contents, names) == contents[c].pieces + 1 + ChildSteps(contents, names - {c});
    if c != child {
      ChildStepsSplit(contents, names - {c}, child);
      ChildStepsSplit(contents, names - {child}, c);
      assert names - {c} - {child} == names - {child} - {c};
    }
  }

  const BUILD_STEPS := 4
  const DISCARD_STEPS := 3

  ghost function RemovalSteps(e: Entry): nat {
    if e.Directory? then ChildSteps(e.contents, e.contents.Keys) + DISCARD_STEPS else 0
  }

  ghost function PrepareSteps(fs: FileSystem): nat {
    (if Staging in fs then 0 else BUILD_STEPS) + (if Root in fs then 1 + RemovalSteps(fs[Root]) else 0) + 1
  }

  ghost function CleanupSteps(fs: FileSystem): nat {
    (if Staging in fs then DISCARD_STEPS else 0) + if Root in fs then 1 + RemovalSteps(fs[Root]) else 0
  }

  /** The state that authorizing leaves. */
  function Authorized(fs: FileSystem): FileSystem {
    if Tombstone in fs then Moved(fs, Tombstone, Root) else fs
  }

  class Workspace {
    const slot: string
    var fs: FileSystem
    var budget: nat
    var serial: nat

    ghost predicate Valid()
      reads this
    {
      Numbered(fs, serial)
    }

    constructor (slot: string, fs: FileSystem, budget: nat, serial: nat)
      requires Numbered(fs, serial)
      ensures Valid() && this.slot == slot && this.fs == fs && this.budget == budget
    {
      this.slot, this.fs, this.budget, this.serial := slot, fs, budget, serial;
    }

    /** One step of the file system; false when the process is killed before it. */
    method Step() returns (alive: bool)
      modifies this`budget
      ensures alive <==> old(budget) > 0
      ensures budget == if alive then old(budget) - 1 else 0
    {
      alive := budget > 0;
      if alive {
        budget := budget - 1;
      }
    }

    method Rename(a: Name, b: Name) returns (alive: bool)
      requires a in fs && b !in fs
      modifies this`fs, this`budget
      ensures alive <==> old(budget) > 0
      ensures alive ==> fs == Moved(old(fs), a, b) && budget == old(budget) - 1
      ensures !alive ==> fs == old(fs) && budget == 0
    {
      alive := Step();
      if alive {
        fs := Moved(fs, a, b);
      }
    }

    /** `shutil.rmtree` or `unlink` of one child: piece by piece, then the entry itself unless it is stuck. */
    method RemoveChild(path: Name, child: string) returns (status: Status)
      requires path in fs && fs[path].Directory? && child in fs[path].contents
      modifies this`fs, this`budget
      ensures status == Done || status == Failed || status == Killed
      ensures OnlyChanges(old(fs), fs, {path}) && fs.Keys == old(fs).Keys && Drained(old(fs)[path], fs[path])
      ensures status == Done ==> fs[path].contents == old(fs)[path].contents - {child}
      ensures status == Done ==> !old(fs)[path].contents[child].stuck
      ensures status == Failed ==> old(fs)[path].contents[child].stuck
      ensures status != Done ==> fs[path].contents.Keys == old(fs)[path].contents.Keys
      ensures status == Killed ==> budget == 0 && old(budget) <= old(fs)[path].contents[child].pieces
      ensures status == Done ==> budget == old(budget) - old(fs)[path].contents[child].pieces - 1
      ensures status == Failed ==> budget == old(budget) - old(fs)[path].contents[child].pieces
    {
      ghost var before := fs;
      while fs[path].contents[child].pieces > 0
        invariant fs.Keys == before.Keys && path in fs && Drained(before[path], fs[path])
        invariant OnlyChanges(before, fs, {path}) && fs[path].contents.Keys == before[path].contents.Keys
        invariant forall c | c in fs[path].contents && c != child :: fs[path].contents[c] == before[path].contents[c]
        invariant budget + before[path].contents[child].pieces == old(budget) + fs[path].contents[child].pieces
        decreases fs[path].contents[child].pieces
      {
        var alive := Step();
        if !alive {
          return Killed;
        }
        var tree := fs[path];
        var left := Child(tree.contents[child].pieces - 1, tree.contents[child].stuck);
        fs := fs[path := tree.(contents := tree.contents[child := left])];
      }
      if fs[path].contents[child].stuck {
        return Failed;
      }
      var alive := Step();
      if !alive {
        return Killed;
      }
      fs := fs[path := fs[path].(contents := fs[path].contents - {child})];
      return Done;
    }

    /** scripts/e2e-source-install.py `_remove_owned_tree`. */
    method RemoveOwnedTree(path: Name) returns (status: Status)
      requires Valid() && !Private(path) && path in fs && Owned(fs[path], slot)
      modifies this`fs, this`budget, this`serial
      ensures Valid() && OnlyChanges(old(fs), fs, {path})
      ensures status == Done || status == Failed || status == Killed
      ensures status == Done ==> fs == old(fs) - {path} && NothingStuck(old(fs)[path])
      ensures status == Failed ==> path in fs && !NothingStuck(old(fs)[path])
      ensures path in fs ==> Drained(old(fs)[path], fs[path])
      ensures OneLeft(old(fs), fs) && (status == Failed ==> NothingLeft(old(fs), fs))
      ensures status == Killed ==> budget == 0 && old(budget) < RemovalSteps(old(fs)[path])
      ensures status == Done ==> budget == old(budget) - RemovalSteps(old(fs)[path])
    {
      ghost var before := fs;
      ghost var all := fs[path].contents;
      var names := fs[path].contents.Keys;
      EmptyingStarts(before, path);
      while names != {}
        invariant Valid() && path in fs && fs[path].Directory? && fs[path].contents.Keys == names <= all.Keys
        invariant Emptying(before, fs, path, names)
        invariant budget + ChildSteps(all, all.Keys) == old(budget) + ChildSteps(all, names)
        decreases |names|
      {
        var child :| child in names;
        ChildStepsSplit(all, names, child);
        ghost var now := fs;
        EmptyingKeeps(before, now, path, names, child);
        status := RemoveChild(path, child);
        hide Drained, OnlyChanges, OneLeft, NothingLeft;
        if status != Done {
          EmptyingStops(before, now, fs, path, names);
          return;
        }
        EmptyingMore(before, now, fs, path, names, child);
        names := names - {child};
      }
      Emptied(before, fs, path);
      if !Owned(fs[path], slot) || fs[path].contents != map[] {
        assert false;
      }
      ghost var empty := fs;
      status := Discard(path);
      hide Drained, OnlyChanges, OneLeft, NothingLeft;
      EmptyDiscarded(before, empty, fs, path);
    }

    /** The end of `_remove_owned_tree`: the empty marked tree leaves its recovery name, then goes away. */
    method Discard(path: Name) returns (status: Status)
      requires Valid() && !Private(path) && path in fs && MarkerOnly(fs[path], slot)
      modifies this`fs, this`budget, this`serial
      ensures Valid() && OnlyChanges(old(fs), fs, {path})
      ensures status == Done || status == Killed
      ensures status == Done ==> fs == old(fs) - {path}
      ensures OneLeft(old(fs), fs)
      ensures path in fs ==> fs[path] == old(fs)[path]
      ensures status == Killed ==> budget == 0 && old(budget) < DISCARD_STEPS
      ensures status == Done ==> budget == old(budget) - DISCARD_STEPS
    {
      var garbage := Garbage(serial);
      serial := serial + 1;
      var alive := Rename(path, garbage);
      if !alive {
        return Killed;
      }
      alive := Step();
      if !alive {
        return Killed;
      }
      fs := fs[garbage := fs[garbage].(marker := NoMarker)];
      alive := Step();
      if !alive {
        return Killed;
      }
      fs := fs - {garbage};
      return Done;
    }

    /** scripts/e2e-source-install.py `_build_staging`. */
    method BuildStaging() returns (status: Status)
      requires Valid() && Staging !in fs
      modifies this`fs, this`budget, this`serial
      ensures Valid() && OnlyChanges(old(fs), fs, {Staging})
      ensures status == Done || status == Killed
      ensures status == Done ==> fs == old(fs)[Staging := FreshHome(slot)]
      ensures OneLeft(old(fs), fs)
      ensures status == Killed ==> Staging !in fs && budget == 0 && old(budget) < BUILD_STEPS
      ensures status == Done ==> budget == old(budget) - BUILD_STEPS
    {
      var temporary := Build(serial);
      serial := serial + 1;
      var alive := Step();
      if !alive {
        return Killed;
      }
      fs := fs[temporary := Directory(true, NoMarker, map[])];
      alive := Step();
      if !alive {
        return Killed;
      }
      fs := fs[temporary := Directory(true, Holds(""), map[])];
      alive := Step();
      if !alive {
        return Killed;
      }
      fs := fs[temporary := Directory(true, Holds(slot + "\n"), map[])];
      if !MarkerOnly(fs[temporary], slot) || Staging in fs {
        assert false;
      }
      alive := Rename(temporary, Staging);
      return if alive then Done else Killed;
    }

    /** scripts/e2e-source-install.py `_retire`. */
    method Retire() returns (status: Status)
      requires Valid() && Root in fs && Owned(fs[Root], slot) && Tombstone !in fs
      modifies this`fs, this`budget, this`serial
      ensures Valid() && OnlyChanges(old(fs), fs, {Root, Tombstone})
      ensures status == Done || status == Failed || status == Killed
      ensures status == Done ==> fs == old(fs) - {Root} && NothingStuck(old(fs)[Root])
      ensures OneLeft(old(fs), fs) && (status == Failed ==> NothingLeft(old(fs), fs))
      ensures status == Failed ==> Root !in fs && Tombstone in fs && !NothingStuck(old(fs)[Root])
      ensures Root in fs ==> Tombstone !in fs && fs[Root] == old(fs)[Root]
      ensures Tombstone in fs ==> Drained(old(fs)[Root], fs[Tombstone])
      ensures status == Killed ==> budget == 0 && old(budget) < 1 + RemovalSteps(old(fs)[Root])
      ensures status == Done ==> budget == old(budget) - 1 - RemovalSteps(old(fs)[Root])
    {
      var alive := Rename(Root, Tombstone);
      if !alive {
        return Killed;
      }
      status := RemoveOwnedTree(Tombstone);
    }

    /** scripts/e2e-source-install.py `prepare`. */
    method Prepare() returns (status: Status)
      requires Valid()
      modifies this`fs, this`budget, this`serial
      ensures Valid()
      ensures status == Refused <==> !Consistent(old(fs), slot) || Tombstone in old(fs)
      ensures status == Refused ==> fs == old(fs)
      ensures status != Refused ==> Prepared(old(fs), fs, slot, status)
      ensures status == Done ==> budget == old(budget) - PrepareSteps(old(fs))
      ensures status == Killed ==> budget == 0 && old(budget) < PrepareSteps(old(fs))
    {
      if Root in fs && !Owned(fs[Root], slot) {
        return Refused;
      }
      if Staging in fs && !MarkerOnly(fs[Staging], slot) {
        return Refused;
      }
      if Tombstone in fs && !Owned(fs[Tombstone], slot) {
        return Refused;
      }
      if Tombstone in fs {
        return Refused;
      }
      hide Prepared, OneLeft, NothingLeft, OnlyChanges, Drained, RemovalSteps, NothingStuck, Numbered;
      ghost var before := fs;
      StagedStarts(before, slot);
      if Staging !in fs {
        status := BuildStaging();
        if status != Done {
          BuildingEnds(before, fs, slot);
          return;
        }
        StagedBuilt(before, slot);
      }
      ghost var staged := fs;
      if Root in fs {
        status := Retire();
        if status != Done {
          RetiringEnds(before, staged, fs, slot, status);
          return;
        }
      }
      if Root in fs {
        assert false;
      }
      WithoutHome(before, staged, fs, slot);
      var alive := Rename(Staging, Root);
      if alive {
        Published(before, staged, fs, slot);
      }
      return if alive then Done else Killed;
    }

    /** scripts/e2e-source-install.py `cleanup`. */
    method Cleanup() returns (status: Status)
      requires Valid()
      modifies this`fs, this`budget, this`serial
      ensures Valid() && OnlyChanges(old(fs), fs, {Root, Staging, Tombstone})
      ensures status == Refused <==> !Consistent(old(fs), slot) || Tombstone in old(fs)
      ensures status == Refused ==> fs == old(fs)
      ensures Consistent(old(fs), slot) ==> Consistent(fs, slot)
      ensures status == Done ==> fs == old(fs) - {Root, Staging}
      ensures status == Done ==> budget == old(budget) - CleanupSteps(old(fs))
      ensures OneLeft(old(fs), fs) && (status == Failed ==> NothingLeft(old(fs), fs))
      ensures Root in old(fs) && Root !in fs ==> Staging !in fs
      ensures status == Failed ==> Tombstone in fs && Root in old(fs) && !NothingStuck(old(fs)[Root])
      ensures status == Done && Root in old(fs) ==> NothingStuck(old(fs)[Root])
      ensures status == Killed ==> budget == 0 && old(budget) < CleanupSteps(old(fs))
      ensures Root in fs ==> Root in old(fs) && fs[Root] == old(fs)[Root]
    {
      if Staging in fs && !MarkerOnly(fs[Staging], slot) {
        return Refused;
      }
      if Tombstone in fs && !Owned(fs[Tombstone], slot) {
        return Refused;
      }
      if Root in fs && !Owned(fs[Root], slot) {
        return Refused;
      }
      if Tombstone in fs {
        return Refused;
      }
      if Staging in fs {
        status := RemoveOwnedTree(Staging);
        if status != Done {
          return;
        }
      }
      if Root in fs {
        status := Retire();
        return;
      }
      return Done;
    }

    /** scripts/e2e-source-install.py `authorize_cleanup`. */
    method AuthorizeCleanup() returns (status: Status)
      requires Valid()
      modifies this`fs, this`budget
      ensures Valid() && OnlyChanges(old(fs), fs, {Root, Tombstone})
      ensures status == Refused <==> !Consistent(old(fs), slot)
      ensures status == Refused || status == Killed ==> fs == old(fs)
      ensures status != Failed && (status == Killed ==> old(budget) == 0 && Tombstone in old(fs))
      ensures Consistent(old(fs), slot) ==> Consistent(fs, slot)
      ensures status == Done ==> fs == Authorized(old(fs)) && Tombstone !in fs
    {
      if Root in fs && !Owned(fs[Root], slot) {
        return Refused;
      }
      if Staging in fs && !MarkerOnly(fs[Staging], slot) {
        return Refused;
      }
      if Tombstone in fs && !Owned(fs[Tombstone], slot) {
        return Refused;
      }
      if Root in fs && Tombstone in fs {
        return Refused;
      }
      if Tombstone in fs {
        var alive := Rename(Tombstone, Root);
        if !alive {
          return Killed;
        }
      }
      return Done;
    }

    /** The E2E job works inside the published home; it never touches the marker. */
    method Workload(contents: map<string, Child>)
      requires Valid()
      modifies this`fs
      ensures Valid()
      ensures fs == if Root in old(fs) && Owned(old(fs)[Root], slot)
                    then old(fs)[Root := old(fs)[Root].(contents := contents)] else old(fs)
    {
      if Root in fs && Owned(fs[Root], slot) {
        fs := fs[Root := fs[Root].(contents := contents)];
      }
    }

    /** Any sequence of commands, each killed after any number of steps, with jobs in between. */
    method Session(events: seq<Event>)
      requires Valid()
      modifies this
      ensures Valid() && OnlyChanges(old(fs), fs, {Root, Staging, Tombstone})
      ensures Consistent(old(fs), slot) ==> Consistent(fs, slot)
      ensures OnlyEmptyLeft(old(fs), fs)
    {
      for i := 0 to |events|
        invariant Valid() && OnlyChanges(old(fs), fs, {Root, Staging, Tombstone})
        invariant Consistent(old(fs), slot) ==> Consistent(fs, slot)
        invariant OnlyEmptyLeft(old(fs), fs)
      {
        ghost var before := fs;
        match events[i] {
          case Job(contents) =>
            Workload(contents);
          case Command(command, steps) =>
            budget := steps;
            var _ := Perform(command);
        }
        ChangesAddUp(old(fs), before, fs, {Root, Staging, Tombstone});
        LeftoversAddUp(old(fs), before, fs, {Root, Staging, Tombstone});
      }
    }

    method Perform(command: Verb) returns (status: Status)
      requires Valid()
      modifies this`fs, this`budget, this`serial
      ensures Valid() && OnlyChanges(old(fs), fs, {Root, Staging, Tombstone})
      ensures Consistent(old(fs), slot) ==> Consistent(fs, slot)
      ensures OnlyEmptyLeft(old(fs), fs)
      ensures status == Refused ==> fs == old(fs)
      ensures !Consistent(old(fs), slot) ==> status == Refused
    {
      match command
      case PrepareHome => status := Prepare();
      case CleanUpHome => status := Cleanup();
      case AuthorizeHome => status := AuthorizeCleanup();
    }

    /** From whatever a crash left, authorizing and preparing again ends with a fresh home and nothing else. */
    method RecoverAndPrepare(first: nat, second: nat) returns (status: Status)
      requires Valid()
      modifies this
      ensures Valid()
      ensures status == Killed ==> first == 0 || second < PrepareSteps(Authorized(old(fs)))
      ensures Consistent(old(fs), slot) && status != Killed ==>
                (status == Done <==> forall n | n in {Root, Tombstone} && n in old(fs) :: NothingStuck(old(fs)[n]))
      ensures Consistent(old(fs), slot) && status == Done ==>
                fs == (old(fs) - {Staging, Tombstone})[Root := FreshHome(slot)]
      ensures !Consistent(old(fs), slot) ==> status == Refused && fs == old(fs)
    {
      budget := first;
      status := AuthorizeCleanup();
      if status != Done {
        return;
      }
      budget := second;
      status := Prepare();
    }

    /** From whatever a crash left, authorizing and cleaning up ends with none of the three names. */
    method RecoverAndCleanUp(first: nat, second: nat) returns (status: Status)
      requires Valid()
      modifies this
      ensures Valid()
      ensures status == Killed ==> first == 0 || second < CleanupSteps(Authorized(old(fs)))
      ensures Consistent(old(fs), slot) && status != Killed ==>
                (status == Done <==> forall n | n in {Root, Tombstone} && n in old(fs) :: NothingStuck(old(fs)[n]))
      ensures Consistent(old(fs), slot) && status == Done ==> fs == old(fs) - {Root, Staging, Tombstone}
      ensures !Consistent(old(fs), slot) ==> status == Refused && fs == old(fs)
    {
      budget := first;
      status := AuthorizeCleanup();
      if status != Done {
        return;
      }
      budget := second;
      status := Cleanup();
    }
  }

  /**
   What `prepare` leaves unless it refuses: a consistent state in which the home is the old tree intact, absent, or
   the fresh tree, and is only absent for the old one once its replacement is staged; after a success the fresh home
   in place of the old one and of the staged one, and nothing else changed; after a failure the old tree, which held
   something undeletable, under the tombstone.
   */
  ghost predicate Prepared(before: FileSystem, after: FileSystem, slot: string, status: Status) {
    && OnlyChanges(before, after, {Root, Staging, Tombstone}) && OneLeft(before, after)
    && Consistent(after, slot)
    && (Root in after ==> (Root in before && after[Root] == before[Root]) || after[Root] == FreshHome(slot))
    && (Root in before && Root !in after ==> Staging in after && after[Staging] == FreshHome(slot))
    && (status == Done ==> after == (before - {Staging})[Root := FreshHome(slot)])
    && (status == Done && Root in before ==> NothingStuck(before[Root]))
    && (status == Failed ==> Tombstone in after && Root in before && !NothingStuck(before[Root]))
    && (status == Failed ==> NothingLeft(before, after))
  }

  /** The fresh home is staged, and nothing else has changed. */
  ghost predicate Staged(before: FileSystem, staged: FileSystem, slot: string) {
    staged == before[Staging := FreshHome(slot)]
  }

  lemma StagedStarts(before: FileSystem, slot: string)
    ensures Staging in before && MarkerOnly(before[Staging], slot) ==> Staged(before, before, slot)
  {
  }

  lemma StagedBuilt(before: FileSystem, slot: string)
    ensures Staged(before, before[Staging := FreshHome(slot)], slot)
  {
  }

  lemma BuildingEnds(before: FileSystem, after: FileSystem, slot: string)
    requires Consistent(before, slot) && Tombstone !in before && OnlyChanges(before, after, {Staging})
    requires OneLeft(before, after) && Staging !in after
    ensures Prepared(before, after, slot, Killed)
  {
    hide OneLeft;
  }

  lemma RetiringEnds(before: FileSystem, staged: FileSystem, after: FileSystem, slot: string, status: Status)
    requires Consistent(before, slot) && Tombstone !in before && Staged(before, staged, slot) && Root in staged
    requires OnlyChanges(staged, after, {Root, Tombstone}) && OneLeft(staged, after)
    requires Root in after ==> Tombstone !in after && after[Root] == staged[Root]
    requires Tombstone in after ==> Drained(staged[Root], after[Tombstone])
    requires status == Failed || status == Killed
    requires status == Failed ==> Root !in after && Tombstone in after && !NothingStuck(staged[Root])
    requires status == Failed ==> NothingLeft(staged, after)
    ensures Prepared(before, after, slot, status)
  {
  }

  lemma WithoutHome(before: FileSystem, staged: FileSystem, after: FileSystem, slot: string)
    requires Consistent(before, slot) && Tombstone !in before && Staged(before, staged, slot)
    requires after == staged - {Root}
    ensures Prepared(before, after, slot, Killed) && Staging in after && after[Staging] == FreshHome(slot)
  {
  }

  lemma Published(before: FileSystem, staged: FileSystem, after: FileSystem, slot: string)
    requires Consistent(before, slot) && Tombstone !in before && Staged(before, staged, slot)
    requires Root in before ==> NothingStuck(before[Root])
    requires after == (staged - {Root, Staging})[Root := FreshHome(slot)]
    ensures Prepared(before, after, slot, Done)
  {
    assert after == (before - {Staging})[Root := FreshHome(slot)];
  }

  /** While a tree is emptied the named children are still there as they were, and no stuck one is gone. */
  ghost predicate Emptying(before: FileSystem, now: FileSystem, path: Name, names: set<string>)
    requires path in before && before[path].Directory?
  {
    && now.Keys == before.Keys && OnlyChanges(before, now, {path}) && Drained(before[path], now[path])
    && now[path].contents.Keys == names
    && (forall c | c in names :: now[path].contents[c] == before[path].contents[c])
    && forall c | c in before[path].contents && c !in names :: !before[path].contents[c].stuck
  }

  lemma EmptyingStarts(before: FileSystem, path: Name)
    requires path in before && before[path].Directory?
    ensures Emptying(before, before, path, before[path].contents.Keys)
  {
  }

  lemma EmptyingKeeps(before: FileSystem, now: FileSystem, path: Name, names: set<string>, child: string)
    requires path in before && before[path].Directory? && Emptying(before, now, path, names) && child in names
    ensures path in now && now[path].Directory? && child in now[path].contents && child in before[path].contents
    ensures now[path].contents[child] == before[path].contents[child]
  {
  }

  lemma EmptyingStops(before: FileSystem, now: FileSystem, after: FileSystem, path: Name, names: set<string>)
    requires path in before && before[path].Directory? && Emptying(before, now, path, names)
    requires path in now && now[path].Directory?
    requires OnlyChanges(now, after, {path}) && after.Keys == now.Keys && Drained(now[path], after[path])
    ensures OnlyChanges(before, after, {path}) && Drained(before[path], after[path])
    ensures OneLeft(before, after) && NothingLeft(before, after)
  {
  }

  lemma EmptyingMore(before: FileSystem, now: FileSystem, after: FileSystem, path: Name, names: set<string>,
                     child: string)
    requires path in before && before[path].Directory? && Emptying(before, now, path, names)
    requires path in now && now[path].Directory? && child in names && child in now[path].contents
    requires OnlyChanges(now, after, {path}) && after.Keys == now.Keys && Drained(now[path], after[path])
    requires after[path].contents == now[path].contents - {child} && !now[path].contents[child].stuck
    ensures Emptying(before, after, path, names - {child})
  {
  }

  lemma Emptied(before: FileSystem, now: FileSystem, path: Name)
    requires path in before && before[path].Directory? && Emptying(before, now, path, {})
    ensures path in now && now[path] == Directory(before[path].mine, before[path].marker, map[])
    ensures OnlyChanges(before, now, {path}) && now.Keys == before.Keys
    ensures Drained(before[path], now[path]) && NothingStuck(before[path])
  {
    assert now[path].contents == map[];
  }

  lemma EmptyDiscarded(before: FileSystem, empty: FileSystem, after: FileSystem, path: Name)
    requires path in before && before[path].Directory? && path in empty
    requires OnlyChanges(before, empty, {path}) && empty.Keys == before.Keys
    requires OnlyChanges(empty, after, {path}) && OneLeft(empty, after)
    ensures OnlyChanges(before, after, {path}) && OneLeft(before, after)
    ensures after == empty - {path} ==> after == before - {path}
  {
    if after == empty - {path} {
      assert forall n | n in before - {path} :: n in after && after[n] == before[n];
    }
  }

  datatype Verb = PrepareHome | CleanUpHome | AuthorizeHome

  /** A command that is killed after `steps` steps, unless it ends before; or a job in the home. */
  datatype Event = Command(verb: Verb, steps: nat) | Job(contents: map<string, Child>)

  lemma ChangesAddUp(a: FileSystem, b: FileSystem, c: FileSystem, names: set<Name>)
    requires OnlyChanges(a, b, names) && OnlyChanges(b, c, names)
    ensures OnlyChanges(a, c, names)
  {
  }

  lemma LeftoversAddUp(a: FileSystem, b: FileSystem, c: FileSystem, names: set<Name>)
    requires OnlyChanges(b, c, names) && OnlyEmptyLeft(a, b) && OnlyEmptyLeft(b, c)
    requires forall n | n in names :: !Private(n)
    ensures OnlyEmptyLeft(a, c)
  {
  }
}
