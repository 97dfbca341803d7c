/**
 The preparation of a run as it changes the host: workspace permissions and the env file, with the cleanup
 it hands back, and which of its error returns leave the host as they found it.
 */
module Preparation {
  import opened Wrappers
  import opened UndoLog

  /** Where a walk stops early: the directory read, or a chmod of a name it has already logged. */
  datatype Stop = WalkFails(at: nat) | ChmodFails(at: nat)

  /** The env file's fate: no variables, a file at a fresh path, or a refused or failed write. */
  datatype EnvFile = NoEnv | Written(path: string) | EnvFails

  /** A run request as the preparation's tests see it, in the order it makes them. */
  datatype Request = Request(
    workspaceGiven: bool,
    readOnly: bool,
    admitted: bool,
    runAsRoot: bool,
    nerdctl: bool,
    networkSupported: bool,
    argumentsAccepted: bool,
    env: EnvFile,
    commandAccepted: bool,
    scopeAccepted: bool)
  {
    /** The walk this request makes over the workspace, if any. */
    function Profile(): Option<Profile> {
      if runAsRoot then Some(Readable)
      else if nerdctl && !readOnly then Some(Writable)
      else None
    }
  }

  /** What `cleanup` will undo: the env file first, then the permissions. */
  datatype Cleanup = Cleanup(log: seq<Record>, envFile: Option<string>)

  /** Whether a walk meets its stop: a failing read of a name it comes to, or a failing chmod of one it is to change. */
  predicate Stops(profile: Profile, walk: seq<Name>, stop: Option<Stop>) {
    match stop
    case None => false
    case Some(WalkFails(at)) => at < |walk|
    case Some(ChmodFails(at)) => at < |walk| && Changes(profile, walk[at].kind)
  }

  /** The kinds of name a profile changes. */
  predicate Changes(profile: Profile, kind: Kind) {
    kind.Directory? || (profile.Readable? && kind.Regular?)
  }

  /** The names a walk has passed when it ends, by itself or at its stop. */
  function Passed(profile: Profile, walk: seq<Name>, stop: Option<Stop>): (passed: seq<Name>)
    ensures passed <= walk
  {
    if Stops(profile, walk, stop) then walk[..stop.value.at] else walk
  }

  /** Undoing a record of the mode an inode still has changes nothing. */
  lemma ReplayOfNoChange(perms: Perms, log: seq<Record>, r: Record)
    requires r.target.Some? && r.target.value in perms && perms[r.target.value] == r.mode
    ensures Replay(perms, log + [r]) == Replay(perms, log)
  {
    assert (log + [r])[..|log|] == log;
    assert Chmod(perms, r) == perms;
  }

  lemma AllGranted(profile: Profile, perms: Perms, walk: seq<Name>)
    requires Walkable(perms, walk)
    ensures forall i :: 0 <= i < |walk| ==> Granted(profile, walk[i], Walk(profile, perms, walk).perms[walk[i].inode])
  {
    forall i | 0 <= i < |walk|
      ensures Granted(profile, walk[i], Walk(profile, perms, walk).perms[walk[i].inode])
    {
      WalkGrants(profile, perms, walk, i);
    }
  }

  class Host {
    var perms: Perms
    var envFiles: set<string>

    constructor (perms: Perms)
      ensures this.perms == perms && envFiles == {}
    {
      this.perms := perms;
      envFiles := {};
    }

    /** The restoring loop, from the end of the log to its beginning. */
    method Undo(log: seq<Record>)
      modifies this`perms
      ensures perms == Replay(old(perms), log)
    {
      var i := |log|;
      assert log[..i] == log;
      while i > 0
        invariant 0 <= i <= |log| && Replay(perms, log[..i]) == Replay(old(perms), log)
      {
        i := i - 1;
        assert log[..i + 1][..i] == log[..i];
        perms := Chmod(perms, log[i]);
      }
    }

    /**
     The walk. A completed one returns the log that undoes it; one stopped at any name, before or after logging it,
     undoes itself, and has then restored everything exactly when the symlinks it passed are harmless.
     */
    method ChmodTree(profile: Profile, walk: seq<Name>, stop: Option<Stop>) returns (ok: bool, log: seq<Record>)
      requires Walkable(perms, walk)
      modifies this`perms
      ensures perms.Keys == old(perms).Keys
      ensures ok ==> Walked(perms, log) == Walk(profile, old(perms), walk)
      ensures ok <==> !Stops(profile, walk, stop)
      ensures !ok ==> log == []
      ensures !ok ==> (perms == old(perms) <==> SymlinksHarmless(profile, old(perms), Passed(profile, walk, stop)))
    {
      ghost var start := perms;
      log := [];
      for i := 0 to |walk|
        invariant Walked(perms, log) == Walk(profile, start, walk[..i])
        invariant Stops(profile, walk, stop) ==> i <= stop.value.at
      {
        assert walk[..i + 1][..i] == walk[..i];
        if stop == Some(WalkFails(i)) {
          WalkablePrefix(start, walk, i);
          ReplayRestores(profile, start, walk[..i]);
          Undo(log);
          return false, [];
        }
        var n := walk[i];
        if Visits(profile, n) {
          var record := Record(n.target, perms[n.inode]);
          var mode := NewMode(profile, n.kind, record.mode);
          if mode.Some? && stop == Some(ChmodFails(i)) {
            WalkablePrefix(start, walk, i);
            ReplayRestores(profile, start, walk[..i]);
            ReplayOfNoChange(perms, log, record);
            Undo(log + [record]);
            return false, [];
          }
          log := log + [record];
          if mode.Some? {
            perms := Chmod(perms, Record(n.target, mode.value));
          }
        }
      }
      assert walk[..|walk|] == walk;
      return true, log;
    }

    method RunCleanup(c: Cleanup)
      modifies this
      ensures perms == Replay(old(perms), c.log)
      ensures envFiles == if c.envFile.Some? then old(envFiles) - {c.envFile.value} else old(envFiles)
    {
      if c.envFile.Some? {
        envFiles := envFiles - {c.envFile.value};
      }
      Undo(c.log);
    }

    /** The walk a run makes over its workspace, if it makes one: what it grants, and what its log is good for. */
    method OpenWorkspace(profile: Option<Profile>, walk: seq<Name>, stop: Option<Stop>)
      returns (ok: bool, log: seq<Record>)
      requires Walkable(perms, walk)
      modifies this`perms
      ensures perms.Keys == old(perms).Keys
      ensures ok <==> profile.None? || !Stops(profile.value, walk, stop)
      ensures profile.None? ==> log == [] && perms == old(perms)
      ensures !ok ==>
                && log == []
                && (perms == old(perms) <==>
                    SymlinksHarmless(profile.value, old(perms), Passed(profile.value, walk, stop)))
      ensures ok ==>
                (Replay(perms, log) == old(perms) <==>
                 profile.None? || SymlinksHarmless(profile.value, old(perms), walk))
      ensures ok && profile.Some? ==>
                && (perms == old(perms) <==> NothingToDo(profile.value, old(perms), walk))
                && forall i :: 0 <= i < |walk| ==> Granted(profile.value, walk[i], perms[walk[i].inode])
    {
      if profile.None? {
        return true, [];
      }
      ok, log := ChmodTree(profile.value, walk, stop);
      ReplayRestores(profile.value, old(perms), walk);
      WalkAddsBits(profile.value, old(perms), walk);
      AllGranted(profile.value, old(perms), walk);
    }

    /** The tests before the walk pass, and the request asks for one. */
    predicate Walks(req: Request) {
      req.workspaceGiven && (req.readOnly ==> req.admitted) && req.Profile().Some?
    }

    /** What makes an error return leave permissions alone: no walk, or one that undid itself, or had nothing to do. */
    ghost predicate Unchanged(req: Request, walk: seq<Name>, stop: Option<Stop>, before: Perms)
      requires Walkable(before, walk)
    {
      Walks(req) ==>
        var profile := req.Profile().value;
        if Stops(profile, walk, stop) || req.networkSupported
        then SymlinksHarmless(profile, before, Passed(profile, walk, stop))
        else NothingToDo(profile, before, walk)
    }

    /**
     Every error return leaves the env files as they were. With an accepted network, or from a stopped walk, it
     leaves the permissions so too exactly when the symlinks the walk has passed are harmless. An unsupported network
     is refused after a completed walk and hands the cleanup back unrun: then exactly when the walk had nothing to do.
     A successful return hands back a cleanup that restores both, exactly when the symlinks are harmless.
     */
    method PrepareRun(req: Request, walk: seq<Name>, stop: Option<Stop>) returns (ok: bool, cleanup: Cleanup)
      requires Walkable(perms, walk)
      requires req.env.Written? ==> req.env.path !in envFiles
      modifies this
      ensures !ok ==> envFiles == old(envFiles)
      ensures perms.Keys == old(perms).Keys
      ensures !ok ==> (perms == old(perms) <==> Unchanged(req, walk, stop, old(perms)))
      ensures ok ==> cleanup.envFile == (if req.env.Written? then Some(req.env.path) else None)
                     && envFiles == old(envFiles) + (if req.env.Written? then {req.env.path} else {})
      ensures ok ==>
                (Replay(perms, cleanup.log) == old(perms) <==>
                 req.Profile().None? || SymlinksHarmless(req.Profile().value, old(perms), walk))
      ensures ok && req.runAsRoot ==> forall i :: 0 <= i < |walk| ==> Granted(Readable, walk[i], perms[walk[i].inode])
      ensures ok && !req.runAsRoot && req.nerdctl && !req.readOnly ==>
                forall i :: 0 <= i < |walk| ==> Granted(Writable, walk[i], perms[walk[i].inode])
      ensures !req.runAsRoot && (!req.nerdctl || req.readOnly) ==> perms == old(perms)
      ensures ok <==> && req.workspaceGiven && (req.readOnly ==> req.admitted) && req.networkSupported
                      && req.argumentsAccepted && !req.env.EnvFails? && req.commandAccepted && req.scopeAccepted
                      && (req.Profile().Some? ==> !Stops(req.Profile().value, walk, stop))
    {
      cleanup := Cleanup([], None);
      if !req.workspaceGiven || (req.readOnly && !req.admitted) {
        return false, cleanup;
      }
      var done, log := OpenWorkspace(req.Profile(), walk, stop);
      if !done {
        return false, cleanup;
      }
      cleanup := Cleanup(log, None);
      if !req.networkSupported {
        return false, cleanup;
      }
      if !req.argumentsAccepted || req.env.EnvFails? {
        RunCleanup(cleanup);
        return false, cleanup;
      }
      if req.env.Written? {
        envFiles := envFiles + {req.env.path};
        cleanup := Cleanup(cleanup.log, Some(req.env.path));
      }
      if !req.commandAccepted || !req.scopeAccepted {
        RunCleanup(cleanup);
        return false, cleanup;
      }
      return true, cleanup;
    }
  }
}
