/**
 Preparing a workspace for a sandbox run: the permission changes of a tree walk, the log that undoes them
 in reverse, exactly when the undo restores everything, and which error returns of the preparation run it.
 */
module UndoLog {
  import opened Wrappers

  /** The nine permission bits; a mode is the set of those it has, so `|` is union. */
  datatype Bit =
    | UserRead | UserWrite | UserExec
    | GroupRead | GroupWrite | GroupExec
    | OtherRead | OtherWrite | OtherExec

  type Perm = set<Bit>

  const FILE_READABLE: Perm := {UserRead, UserWrite, GroupRead, OtherRead}                    // 0644
  const ANY_EXEC: Perm := {UserExec, GroupExec, OtherExec}                                    // 0111
  const DIR_READABLE: Perm := FILE_READABLE + ANY_EXEC                                        // 0755
  const OTHERS_WRITE_SEARCH: Perm := {OtherWrite, OtherExec}                                  // 0003

  datatype Kind = Directory | Regular | Symlink | Other

  /**
   One name met by the walk: the inode it denotes (a symlink's own), and the inode a chmod of that name acts on,
   which for a symlink is what it leads to, inside the workspace or not, if anything.
   */
  datatype Name = Name(kind: Kind, inode: nat, target: Option<nat>)

  type Perms = map<nat, Perm>

  /**
   What a tree looks like to the walk: hard-linked names may share inodes; no chmod can act on a symlink's own
   inode.
   */
  ghost predicate Walkable(perms: Perms, walk: seq<Name>) {
    && (forall i :: 0 <= i < |walk| ==> walk[i].inode in perms)
    && (forall i :: 0 <= i < |walk| && !walk[i].kind.Symlink? ==> walk[i].target == Some(walk[i].inode))
    && (forall i :: 0 <= i < |walk| && walk[i].target.Some? ==> walk[i].target.value in perms)
    && (forall i, j :: 0 <= i < |walk| && 0 <= j < |walk| && walk[i].kind.Symlink? ==>
          walk[j].target != Some(walk[i].inode))
  }

  /** Root containers get a readable tree; rootless nerdctl gets directories its user can write. */
  datatype Profile = Readable | Writable

  predicate Visits(profile: Profile, n: Name) {
    profile.Readable? || n.kind.Directory?
  }

  /** The mode a visited name is given, if it is given one. */
  function NewMode(profile: Profile, kind: Kind, mode: Perm): Option<Perm> {
    match (profile, kind)
    case (Readable, Directory) => Some(mode + DIR_READABLE)
    case (Readable, Regular) => Some(if mode * ANY_EXEC != {} then mode + DIR_READABLE else mode + FILE_READABLE)
    case (Writable, Directory) => Some(mode + OTHERS_WRITE_SEARCH)
    case _ => None
  }

  datatype Record = Record(target: Option<nat>, mode: Perm)

  function Chmod(perms: Perms, r: Record): Perms {
    if r.target.Some? && r.target.value in perms then perms[r.target.value := r.mode] else perms
  }

  datatype Walked = Walked(perms: Perms, log: seq<Record>)

  /** The state and log after the walk has passed all of `walk`. */
  function Walk(profile: Profile, perms: Perms, walk: seq<Name>): (w: Walked)
    ensures w.perms.Keys == perms.Keys
  {
    if walk == [] then Walked(perms, [])
    else
      var before := Walk(profile, perms, walk[..|walk| - 1]);
      var n := walk[|walk| - 1];
      if !Visits(profile, n) || n.inode !in before.perms then before
      else
        var mode := before.perms[n.inode];
        Walked(match NewMode(profile, n.kind, mode)
               case Some(m) => Chmod(before.perms, Record(n.target, m))
               case None => before.perms,
               before.log + [Record(n.target, mode)])
  }

  /** The log replayed from its end. */
  function Replay(perms: Perms, log: seq<Record>): (p: Perms)
    ensures p.Keys == perms.Keys
  {
    if log == [] then perms
    else Replay(Chmod(perms, log[|log| - 1]), log[..|log| - 1])
  }

  /** The mode of the earliest record that acts on `x`. */
  function First(log: seq<Record>, x: nat): Option<Perm> {
    if log == [] then None
    else
      var earlier := First(log[..|log| - 1], x);
      if earlier.Some? then earlier
      else if log[|log| - 1].target == Some(x) then Some(log[|log| - 1].mode) else None
  }

  /** Replaying in reverse leaves each inode the mode of the earliest record that acts on it. */
  lemma {:induction false} ReplayLeavesFirst(perms: Perms, log: seq<Record>, x: nat)
    requires x in perms
    ensures Replay(perms, log)[x] == match First(log, x) case Some(m) => m case None => perms[x]
    decreases |log|
  {
    if log != [] {
      ReplayLeavesFirst(Chmod(perms, log[|log| - 1]), log[..|log| - 1], x);
    }
  }

  /** The first visited name that acts on `x`, as an index of the walk. */
  function FirstName(profile: Profile, walk: seq<Name>, x: nat): Option<nat> {
    if walk == [] then None
    else
      var earlier := FirstName(profile, walk[..|walk| - 1], x);
      if earlier.Some? then earlier
      else
        var n := walk[|walk| - 1];
        if Visits(profile, n) && n.target == Some(x) then Some(|walk| - 1) else None
  }

  lemma {:induction false} FirstNameIs(profile: Profile, walk: seq<Name>, x: nat)
    ensures var i := FirstName(profile, walk, x);
            && (i.Some? ==> i.value < |walk| && Visits(profile, walk[i.value]) && walk[i.value].target == Some(x))
            && forall j :: 0 <= j < (if i.Some? then i.value else |walk|) ==>
                 !(Visits(profile, walk[j]) && walk[j].target == Some(x))
  {
    if walk != [] {
      FirstNameIs(profile, walk[..|walk| - 1], x);
    }
  }

  lemma WalkablePrefix(perms: Perms, walk: seq<Name>, n: nat)
    requires Walkable(perms, walk) && n <= |walk|
    ensures Walkable(perms, walk[..n])
  {
  }

  lemma FirstOfAppend(log: seq<Record>, r: Record, x: nat)
    ensures First(log + [r], x) ==
            if First(log, x).Some? then First(log, x) else if r.target == Some(x) then Some(r.mode) else None
  {
    assert (log + [r])[..|log|] == log;
  }

  /** What passing one more name adds. */
  lemma WalkStep(profile: Profile, perms: Perms, walk: seq<Name>, x: nat)
    requires Walkable(perms, walk) && walk != [] && x in perms
    ensures var n := walk[|walk| - 1];
            var before, w := Walk(profile, perms, walk[..|walk| - 1]), Walk(profile, perms, walk);
            && (Visits(profile, n) ==> w.log == before.log + [Record(n.target, before.perms[n.inode])])
            && (!Visits(profile, n) ==> w == before)
            && (n.target != Some(x) ==> w.perms[x] == before.perms[x])
  {
  }

  /**
   An inode no visited name acts on keeps its mode and is not in the log; otherwise the first such name
   recorded its own inode's mode.
   */
  lemma {:induction false} LogStartsWithOriginal(profile: Profile, perms: Perms, walk: seq<Name>, x: nat)
    requires Walkable(perms, walk) && x in perms
    ensures var w := Walk(profile, perms, walk);
            match FirstName(profile, walk, x) {
              case None => First(w.log, x) == None && w.perms[x] == perms[x]
              case Some(i) => i < |walk| && First(w.log, x) == Some(perms[walk[i].inode])
            }
  {
    if walk != [] {
      var n := walk[|walk| - 1];
      var front := walk[..|walk| - 1];
      WalkablePrefix(perms, walk, |walk| - 1);
      LogStartsWithOriginal(profile, perms, front, x);
      FirstNameIs(profile, front, x);
      WalkStep(profile, perms, walk, x);
      if Visits(profile, n) {
        var before := Walk(profile, perms, front);
        FirstOfAppend(before.log, Record(n.target, before.perms[n.inode]), x);
        if n.target == Some(x) && FirstName(profile, front, x).None? {
          RecordedMode(profile, perms, walk, x);
        }
      }
    }
  }

  /** When the last name is the first to act on `x`, the mode it records is its own inode's original one. */
  lemma {:induction false} RecordedMode(profile: Profile, perms: Perms, walk: seq<Name>, x: nat)
    requires Walkable(perms, walk) && walk != [] && x in perms
    requires walk[|walk| - 1].target == Some(x) && FirstName(profile, walk[..|walk| - 1], x).None?
    ensures Walk(profile, perms, walk[..|walk| - 1]).perms[walk[|walk| - 1].inode] == perms[walk[|walk| - 1].inode]
  {
    var n := |walk| - 1;
    var y := walk[n].inode;
    WalkablePrefix(perms, walk, n);
    FirstNameIs(profile, walk[..n], x);
    assert forall j :: 0 <= j < n && Visits(profile, walk[..n][j]) ==> walk[..n][j].target != Some(y) by {
      assert forall j :: 0 <= j < n ==> walk[..n][j] == walk[j];
      if walk[n].kind.Symlink? {
        assert forall j :: 0 <= j < n ==> walk[j].target != Some(y);
      } else {
        assert y == x;
      }
    }
    NotActedOn(profile, perms, walk[..n], y);
  }

  lemma {:induction false} NotActedOn(profile: Profile, perms: Perms, walk: seq<Name>, y: nat)
    requires y in perms && forall j :: 0 <= j < |walk| && Visits(profile, walk[j]) ==> walk[j].target != Some(y)
    ensures Walk(profile, perms, walk).perms[y] == perms[y]
  {
    if walk != [] {
      NotActedOn(profile, perms, walk[..|walk| - 1], y);
    }
  }

  /** A visited symlink that is the first visited name to act on an inode whose mode is not its own. */
  ghost predicate Harmful(profile: Profile, perms: Perms, walk: seq<Name>, i: nat)
    requires Walkable(perms, walk) && i < |walk|
  {
    && walk[i].kind.Symlink? && walk[i].target.Some?
    && FirstName(profile, walk, walk[i].target.value) == Some(i)
    && perms[walk[i].inode] != perms[walk[i].target.value]
  }

  /** What the undo log needs of the tree, and a caller can check before the walk. */
  ghost predicate SymlinksHarmless(profile: Profile, perms: Perms, walk: seq<Name>)
    requires Walkable(perms, walk)
  {
    forall i :: 0 <= i < |walk| ==> !Harmful(profile, perms, walk, i)
  }

  /** One inode after the undo: untouched if no visited name acts on it, else given the first such name's own mode. */
  lemma ReplayedMode(profile: Profile, perms: Perms, walk: seq<Name>, x: nat)
    requires Walkable(perms, walk) && x in perms
    ensures var w := Walk(profile, perms, walk);
            Replay(w.perms, w.log)[x] == match FirstName(profile, walk, x) {
                                           case Some(i) => if i < |walk| then perms[walk[i].inode] else perms[x]
                                           case None => perms[x]
                                         }
  {
    var w := Walk(profile, perms, walk);
    ReplayLeavesFirst(w.perms, w.log, x);
    LogStartsWithOriginal(profile, perms, walk, x);
    FirstNameIs(profile, walk, x);
  }

  /**
   Replaying the log in reverse restores every inode's bits, inside the tree and out, exactly when symlinks are
   harmless.
   */
  lemma ReplayRestores(profile: Profile, perms: Perms, walk: seq<Name>)
    requires Walkable(perms, walk)
    ensures var w := Walk(profile, perms, walk);
            Replay(w.perms, w.log) == perms <==> SymlinksHarmless(profile, perms, walk)
  {
    var w := Walk(profile, perms, walk);
    var back := Replay(w.perms, w.log);
    if i :| 0 <= i < |walk| && Harmful(profile, perms, walk, i) {
      var x := walk[i].target.value;
      ReplayedMode(profile, perms, walk, x);
      assert back[x] != perms[x];
    } else {
      forall x | x in perms
        ensures back[x] == perms[x]
      {
        ReplayedMode(profile, perms, walk, x);
        FirstNameIs(profile, walk, x);
        var i := FirstName(profile, walk, x);
        if i.Some? {
          assert !Harmful(profile, perms, walk, i.value);
        }
      }
    }
  }

  /**
   Trees of directories and regular files, hard links included, are always restored; so is any tree by the
   writable profile.
   */
  lemma PlainTreesRestore(profile: Profile, perms: Perms, walk: seq<Name>)
    requires Walkable(perms, walk)
    requires profile.Writable? || forall i :: 0 <= i < |walk| ==> !walk[i].kind.Symlink?
    ensures Replay(Walk(profile, perms, walk).perms, Walk(profile, perms, walk).log) == perms
  {
    forall i | 0 <= i < |walk|
      ensures !Harmful(profile, perms, walk, i)
    {
      if walk[i].target.Some? {
        FirstNameIs(profile, walk, walk[i].target.value);
      }
    }
    ReplayRestores(profile, perms, walk);
  }

  /** A single symlink to a private file: the walk changes nothing, and the undo opens the file to everyone. */
  lemma SymlinkBreaksUndo(all: Perm, private: Perm)
    requires all != private
    ensures var perms: Perms := map[1 := all, 2 := private];
            var walk := [Name(Symlink, 1, Some(2))];
            && Walkable(perms, walk)
            && Walk(Readable, perms, walk).perms == perms
            && Replay(perms, Walk(Readable, perms, walk).log) == map[1 := all, 2 := all] != perms
  {
    var perms: Perms := map[1 := all, 2 := private];
    OneSymlink(perms, 1, 2);
    OneRecord(perms, Record(Some(2), all));
    assert perms[2] == private && perms[2 := all] == map[1 := all, 2 := all];
  }

  lemma OneSymlink(perms: Perms, link: nat, target: nat)
    requires link in perms
    ensures Walk(Readable, perms, [Name(Symlink, link, Some(target))]) ==
            Walked(perms, [Record(Some(target), perms[link])])
  {
    var walk := [Name(Symlink, link, Some(target))];
    assert walk[..0] == [];
    assert Walk(Readable, perms, walk[..0]) == Walked(perms, []);
  }

  lemma OneRecord(perms: Perms, r: Record)
    ensures Replay(perms, [r]) == Chmod(perms, r)
  {
    assert [r][..0] == [];
  }

  // ----- when a walk whose cleanup never runs is still harmless

  ghost predicate Fixed(profile: Profile, perms: Perms, n: Name)
    requires n.inode in perms
  {
    Visits(profile, n) ==> NewMode(profile, n.kind, perms[n.inode]) in {None, Some(perms[n.inode])}
  }

  /** No visited name needs another mode than it has. */
  ghost predicate NothingToDo(profile: Profile, perms: Perms, walk: seq<Name>)
    requires Walkable(perms, walk)
  {
    forall i :: 0 <= i < |walk| ==> Fixed(profile, perms, walk[i])
  }

  /** Every inode still has at least its original bits. */
  ghost predicate OnlyAdded(after: Perms, perms: Perms) {
    after.Keys == perms.Keys && forall x :: x in perms ==> perms[x] <= after[x]
  }

  lemma UpdateAdds(before: Perms, perms: Perms, k: nat, m: Perm)
    requires OnlyAdded(before, perms) && k in perms && before[k] <= m
    ensures OnlyAdded(before[k := m], perms)
    ensures before != perms ==> before[k := m] != perms
    ensures before == perms ==> (before[k := m] == perms <==> m == perms[k])
  {
    if before != perms {
      var x :| x in perms && before[x] != perms[x];
      assert before[k := m][x] != perms[x];
    } else if m == perms[k] {
      assert before[k := m] == perms;
    } else {
      assert before[k := m][k] != perms[k];
    }
  }

  lemma NothingToDoStep(profile: Profile, perms: Perms, walk: seq<Name>)
    requires Walkable(perms, walk) && walk != []
    ensures Walkable(perms, walk[..|walk| - 1])
    ensures NothingToDo(profile, perms, walk) <==>
            NothingToDo(profile, perms, walk[..|walk| - 1]) && Fixed(profile, perms, walk[|walk| - 1])
  {
    var front := walk[..|walk| - 1];
    assert forall i :: 0 <= i < |front| ==> front[i] == walk[i];
    if NothingToDo(profile, perms, walk) {
      assert Fixed(profile, perms, walk[|walk| - 1]);
    }
  }

  /** While nothing was to be done nothing changes; once something was, some inode has gained a bit for good. */
  lemma {:induction false} WalkAddsBits(profile: Profile, perms: Perms, walk: seq<Name>)
    requires Walkable(perms, walk)
    ensures OnlyAdded(Walk(profile, perms, walk).perms, perms)
    ensures Walk(profile, perms, walk).perms == perms <==> NothingToDo(profile, perms, walk)
  {
    if walk != [] {
      var front, name := walk[..|walk| - 1], walk[|walk| - 1];
      NothingToDoStep(profile, perms, walk);
      WalkAddsBits(profile, perms, front);
      var before := Walk(profile, perms, front).perms;
      if Visits(profile, name) && NewMode(profile, name.kind, before[name.inode]).Some? {
        var m := NewMode(profile, name.kind, before[name.inode]).value;
        UpdateAdds(before, perms, name.inode, m);
        assert Walk(profile, perms, walk).perms == before[name.inode := m];
      }
    }
  }

  // ----- what a walk achieves

  /** Some visited name denotes this inode as a directory, or as a regular file. */
  ghost predicate NamedAs(profile: Profile, walk: seq<Name>, x: nat, kind: Kind) {
    exists i :: 0 <= i < |walk| && walk[i].inode == x && walk[i].kind == kind && Visits(profile, walk[i])
  }

  /** The bits a mode ends with: what the source promises a directory, an executable file and another file. */
  ghost function Given(profile: Profile, walk: seq<Name>, x: nat, mode: Perm): Perm {
    if profile.Writable? then
      if NamedAs(profile, walk, x, Directory) then mode + {OtherWrite, OtherExec} else mode
    else if NamedAs(profile, walk, x, Directory)
            || (NamedAs(profile, walk, x, Regular) && mode * {UserExec, GroupExec, OtherExec} != {}) then
      mode + {UserRead, UserWrite, UserExec, GroupRead, GroupExec, OtherRead, OtherExec}
    else if NamedAs(profile, walk, x, Regular) then mode + {UserRead, UserWrite, GroupRead, OtherRead}
    else mode
  }

  lemma NamedAsStep(profile: Profile, walk: seq<Name>, x: nat, kind: Kind)
    requires walk != []
    ensures var n := walk[|walk| - 1];
            NamedAs(profile, walk, x, kind) <==>
            NamedAs(profile, walk[..|walk| - 1], x, kind) || (n.inode == x && n.kind == kind && Visits(profile, n))
  {
    var front := walk[..|walk| - 1];
    assert forall i :: 0 <= i < |front| ==> front[i] == walk[i];
    if i :| 0 <= i < |walk| && walk[i].inode == x && walk[i].kind == kind && Visits(profile, walk[i]) {
      assert i < |front| ==> front[i] == walk[i];
    }
  }

  /**
   The whole effect of a walk on every inode, whatever names it has, hard links included: 0755 for a directory and for a
   file that had any execute bit, 0644 for any other file, 0003 for a directory of the writable walk, each on top of
   the mode it had, and nothing for anything else.
   */
  lemma {:induction false} WalkGives(profile: Profile, perms: Perms, walk: seq<Name>, x: nat)
    requires Walkable(perms, walk) && x in perms
    ensures Walk(profile, perms, walk).perms[x] == Given(profile, walk, x, perms[x])
  {
    if walk != [] {
      var front, n := walk[..|walk| - 1], walk[|walk| - 1];
      WalkablePrefix(perms, walk, |walk| - 1);
      WalkGives(profile, perms, front, x);
      NamedAsStep(profile, walk, x, Directory);
      NamedAsStep(profile, walk, x, Regular);
      OneName(profile, Walk(profile, perms, front), n, x);
    }
  }

  /** One more name changes the mode of its own inode only, and only if it is a directory or a regular file. */
  lemma OneName(profile: Profile, before: Walked, n: Name, x: nat)
    requires x in before.perms && n.inode in before.perms && (!n.kind.Symlink? ==> n.target == Some(n.inode))
    ensures var mode := before.perms[x];
            var m := NewMode(profile, n.kind, before.perms[n.inode]);
            (if m.Some? then Chmod(before.perms, Record(n.target, m.value)) else before.perms)[x] ==
            if n.inode != x then mode
            else match (profile, n.kind)
                 case (Readable, Directory) => mode + DIR_READABLE
                 case (Readable, Regular) => mode + (if mode * ANY_EXEC != {} then DIR_READABLE else FILE_READABLE)
                 case (Writable, Directory) => mode + OTHERS_WRITE_SEARCH
                 case _ => mode
  {
  }

  /** A name's inode has at least the bits its kind is to be given. */
  ghost predicate Granted(profile: Profile, n: Name, mode: Perm) {
    match (profile, n.kind)
    case (Readable, Directory) => DIR_READABLE <= mode
    case (Readable, Regular) => FILE_READABLE <= mode && (mode * ANY_EXEC != {} ==> DIR_READABLE <= mode)
    case (Writable, Directory) => OTHERS_WRITE_SEARCH <= mode
    case _ => true
  }

  /** After the walk every name has what it is to be given, and walking further takes nothing away. */
  lemma WalkGrants(profile: Profile, perms: Perms, walk: seq<Name>, i: nat)
    requires Walkable(perms, walk) && i < |walk|
    ensures Granted(profile, walk[i], Walk(profile, perms, walk).perms[walk[i].inode])
  {
    var x := walk[i].inode;
    WalkGives(profile, perms, walk, x);
    if Visits(profile, walk[i]) {
      assert NamedAs(profile, walk, x, walk[i].kind);
    }
  }

  /** Nothing beyond that is given, by either walk: an inode that no name of a changing kind denotes keeps its mode. */
  lemma WalkGrantsNoMore(profile: Profile, perms: Perms, walk: seq<Name>, x: nat)
    requires Walkable(perms, walk) && x in perms
    ensures var after := Walk(profile, perms, walk).perms[x];
            && (profile.Readable? ==> after <= perms[x] + DIR_READABLE)
            && (profile.Writable? ==> after <= perms[x] + OTHERS_WRITE_SEARCH)
            && (!NamedAs(profile, walk, x, Directory) && perms[x] * ANY_EXEC == {} ==>
                  after <= perms[x] + FILE_READABLE)
            && (!NamedAs(profile, walk, x, Directory) && !NamedAs(profile, walk, x, Regular) ==> after == perms[x])
  {
    WalkGives(profile, perms, walk, x);
  }
}
