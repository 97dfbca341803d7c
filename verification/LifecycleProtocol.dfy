/**
 Installs and uninstalls of one install root by any number of processes, interleaved call by call.
 Each action is one file-system call, except that `RenameOld` is the stat of the root with the rename that follows it,
 and `Validate` the stat with the reading of the manifest: under the lock only a process whose backup name this is
 could come between. Any call may fail, a recursive removal may be seen while it goes on and may stop anywhere, and
 a process that crashes is one that is never scheduled again.
 */
module LifecycleProtocol {
  import opened Wrappers
  import opened FileTree
  import opened ManagedRuntime

  datatype Job = InstallJob(id: string) | UninstallJob(id: string)

  datatype Pc =
    | Start
    | Held
    | Validated
    | Staging
    | Sealed
    | Cleared
    | OldMoved(had: bool)
    | RollingBack
    | Promoted(had: bool)
    | Discarding(lost: bool)
    | Removing
    | Closing(ok: bool, lost: bool)
    | Ended

  /** `entry` is the bundle root's tree as validated under the lock, `whole` the finished stage. */
  datatype Proc = Proc(job: Job, pc: Pc, entry: Option<Tree>, dir: string, whole: Tree)

  datatype World = World(tops: Tops, stages: Tops, locks: set<string>)

  datatype Local = Local(proc: Proc, world: World)

  datatype Action =
    | Lock
    | Validate
    | Refuse
    | MakeStage(dir: string)
    | Fill(tree: Tree)
    | Seal
    | ClearBackup(left: Option<Tree>)
    | RenameOld(works: bool)
    | RenameNew(works: bool)
    | Rollback(works: bool)
    | Remove(left: Option<Tree>)
    | DropStage(left: Option<Tree>)
    | Finish
    | Unlock

  /** One call of one process, or nothing when its program is not at that call. */
  function Act(site: Site, p: Proc, w: World, a: Action): Option<Local> {
    var id := p.job.id;
    match (p.pc, a)
    case (Start, Lock) =>
      if id in w.locks then Some(Local(p.(pc := Ended), w))
      else Some(Local(p.(pc := Held), w.(locks := w.locks + {id})))
    case (Held, Refuse) => Some(Local(p.(pc := Closing(false, false), entry := Top(w.tops, id)), w))
    case (Held, Validate) =>
      if id in w.tops then
        if !Claims(site, w.tops[id], id) then None
        else Some(Local(p.(pc := if p.job.InstallJob? then Validated else Removing, entry := Some(w.tops[id])), w))
      else
        Some(Local(p.(pc := if p.job.InstallJob? then Validated else Closing(true, false), entry := None), w))
    case (Validated, Refuse) => Some(Local(p.(pc := Closing(false, false)), w))
    case (Validated, MakeStage(dir)) =>
      if dir in w.stages then None else Some(Local(p.(pc := Staging, dir := dir), w.(stages := w.stages[dir := map[]])))
    case (Staging, Fill(tree)) => Some(Local(p, w.(stages := w.stages[p.dir := tree])))
    case (Staging, Refuse) => Some(Local(p.(pc := Discarding(false)), w))
    case (Staging, Seal) =>
      if p.dir !in w.stages then None else Some(Local(p.(pc := Sealed, whole := w.stages[p.dir]), w))
    case (Sealed, ClearBackup(left)) =>
      Some(Local(p.(pc := Cleared), w.(tops := RemoveAll(w.tops, Previous(id), left))))
    case (Cleared, ClearBackup(left)) => Some(Local(p, w.(tops := RemoveAll(w.tops, Previous(id), left))))
    case (Cleared, RenameOld(works)) =>
      if !works then Some(Local(p.(pc := Discarding(false)), w))
      else if id !in w.tops then Some(Local(p.(pc := OldMoved(false)), w))
      else (match Rename(w.tops, id, Previous(id))
            case None => Some(Local(p.(pc := Discarding(false)), w))
            case Some(tops) => Some(Local(p.(pc := OldMoved(true)), w.(tops := tops))))
    case (OldMoved(had), RenameNew(works)) =>
      if works && p.dir in w.stages && id !in w.tops then
        Some(Local(p.(pc := Promoted(had)),
                   w.(tops := w.tops[id := w.stages[p.dir]], stages := w.stages - {p.dir})))
      else Some(Local(p.(pc := if had then RollingBack else Discarding(false)), w))
    case (RollingBack, Rollback(works)) =>
      (match Rename(w.tops, Previous(id), id)
       case Some(tops) =>
         if works then Some(Local(p.(pc := Discarding(false)), w.(tops := tops)))
         else Some(Local(p.(pc := Discarding(true)), w))
       case None => Some(Local(p.(pc := Discarding(true)), w)))
    case (Promoted(had), ClearBackup(left)) =>
      if !had then None else Some(Local(p, w.(tops := RemoveAll(w.tops, Previous(id), left))))
    case (Promoted(_), Finish) => Some(Local(p.(pc := Closing(true, false)), w))
    case (Discarding(lost), DropStage(left)) =>
      Some(Local(if left.None? then p.(pc := Closing(false, lost)) else p,
                 w.(stages := RemoveAll(w.stages, p.dir, left))))
    case (Discarding(lost), Finish) => Some(Local(p.(pc := Closing(false, lost)), w))
    case (Removing, Remove(left)) => Some(Local(p, w.(tops := RemoveAll(w.tops, id, left))))
    case (Removing, Finish) => Some(Local(p.(pc := Closing(id !in w.tops, false)), w))
    case (Closing(_, _), Unlock) => Some(Local(p.(pc := Ended), w.(locks := w.locks - {id})))
    case _ => None
  }

  predicate Holding(p: Proc) {
    !p.pc.Start? && !p.pc.Ended?
  }

  predicate HasStage(p: Proc) {
    p.pc.Staging? || p.pc.Sealed? || p.pc.Cleared? || p.pc.OldMoved? || p.pc.RollingBack? || p.pc.Discarding?
  }

  // ----- what one process may rely on

  ghost predicate EntryKept(p: Proc, w: World, lost: bool) {
    if lost then
      p.entry.Some? && p.job.id !in w.tops && Top(w.tops, Previous(p.job.id)) == p.entry
    else
      Top(w.tops, p.job.id) == p.entry
  }

  /** The root is in `tops` and `stages` what the process's program counter says it is. */
  ghost predicate Relies(site: Site, p: Proc, w: World) {
    var id := p.job.id;
    && (p.entry.Some? && !p.pc.Closing? && !p.pc.Ended? ==> Claims(site, p.entry.value, id))
    && match p.pc {
      case Start => p.entry.None?
      case Held => p.entry.None?
      case Validated => Top(w.tops, id) == p.entry
      case Staging => Top(w.tops, id) == p.entry && p.dir in w.stages
      case Sealed => Top(w.tops, id) == p.entry && Top(w.stages, p.dir) == Some(p.whole)
      case Cleared => Top(w.tops, id) == p.entry && Top(w.stages, p.dir) == Some(p.whole)
      case OldMoved(had) =>
        && id !in w.tops && Top(w.stages, p.dir) == Some(p.whole) && had == p.entry.Some?
        && (p.entry.Some? ==> Top(w.tops, Previous(id)) == p.entry)
      case RollingBack => EntryKept(p, w, true) && p.dir in w.stages
      case Promoted(had) => Top(w.tops, id) == Some(p.whole) && had == p.entry.Some?
      case Discarding(lost) => EntryKept(p, w, lost) && p.dir in w.stages
      case Removing => p.entry.Some? && (id in w.tops ==> Remnant(w.tops[id], p.entry.value))
      case Closing(ok, lost) =>
        if p.job.UninstallJob? then ok ==> id !in w.tops
        else if ok then Top(w.tops, id) == Some(p.whole)
        else EntryKept(p, w, lost)
      case Ended => true
    }
  }

  /** Which program counters belong to which job. */
  ghost predicate Program(p: Proc) {
    match p.job
    case UninstallJob(_) => p.pc in {Start, Held, Removing, Ended} || p.pc.Closing?
    case InstallJob(_) => !p.pc.Removing?
  }

  lemma PreviousIsOther(id: string)
    ensures Previous(id) != id
  {
    assert |Previous(id)| > |id|;
  }

  lemma PreviousIsInjective(a: string, b: string)
    ensures Previous(a) == Previous(b) ==> a == b
  {
    if Previous(a) == Previous(b) {
      assert |a| == |b|;
      assert a == Previous(a)[..|a|] && b == Previous(b)[..|b|];
    }
  }

  lemma RemnantOfRemnant(rest: Tree, t: Tree, entry: Tree)
    requires Remnant(t, entry)
    ensures Remnant(map q | q in rest && q in t :: t[q], entry)
  {
  }

  lemma KeepsBeforeStage(site: Site, p: Proc, w: World, a: Action)
    requires p.pc.Start? || p.pc.Held? || p.pc.Validated?
    requires Relies(site, p, w) && Program(p) && Act(site, p, w, a).Some?
    ensures Relies(site, Act(site, p, w, a).value.proc, Act(site, p, w, a).value.world)
    ensures Program(Act(site, p, w, a).value.proc)
  {
  }

  lemma KeepsStaging(site: Site, p: Proc, w: World, a: Action)
    requires p.pc.Staging? || p.pc.Sealed? || (p.pc.Cleared? && !a.RenameOld?)
    requires Relies(site, p, w) && Program(p) && Act(site, p, w, a).Some?
    ensures Relies(site, Act(site, p, w, a).value.proc, Act(site, p, w, a).value.world)
    ensures Program(Act(site, p, w, a).value.proc)
  {
    PreviousIsOther(p.job.id);
  }

  lemma KeepsRenameOld(site: Site, p: Proc, w: World, a: Action)
    requires p.pc.Cleared? && a.RenameOld?
    requires Relies(site, p, w) && Program(p) && Act(site, p, w, a).Some?
    ensures Relies(site, Act(site, p, w, a).value.proc, Act(site, p, w, a).value.world)
    ensures Program(Act(site, p, w, a).value.proc)
  {
    PreviousIsOther(p.job.id);
  }

  lemma KeepsRenameNew(site: Site, p: Proc, w: World, a: Action)
    requires p.pc.OldMoved? || p.pc.RollingBack?
    requires Relies(site, p, w) && Program(p) && Act(site, p, w, a).Some?
    ensures Relies(site, Act(site, p, w, a).value.proc, Act(site, p, w, a).value.world)
    ensures Program(Act(site, p, w, a).value.proc)
  {
    PreviousIsOther(p.job.id);
  }

  lemma KeepsAfterwards(site: Site, p: Proc, w: World, a: Action)
    requires p.pc.Promoted? || p.pc.Discarding? || p.pc.Removing? || p.pc.Closing? || p.pc.Ended?
    requires Relies(site, p, w) && Program(p) && Act(site, p, w, a).Some?
    ensures Relies(site, Act(site, p, w, a).value.proc, Act(site, p, w, a).value.world)
    ensures Program(Act(site, p, w, a).value.proc)
  {
    PreviousIsOther(p.job.id);
    if p.pc.Removing? && a.Remove? && a.left.Some? && p.job.id in w.tops {
      RemnantOfRemnant(a.left.value, w.tops[p.job.id], p.entry.value);
    }
  }

  /** A process's own calls carry it from what it relied on to what it relies on next. */
  lemma ActKeepsOwn(site: Site, p: Proc, w: World, a: Action)
    requires Relies(site, p, w) && Program(p) && Act(site, p, w, a).Some?
    ensures Relies(site, Act(site, p, w, a).value.proc, Act(site, p, w, a).value.world)
    ensures Program(Act(site, p, w, a).value.proc)
  {
    match p.pc
    case Start => KeepsBeforeStage(site, p, w, a);
    case Held => KeepsBeforeStage(site, p, w, a);
    case Validated => KeepsBeforeStage(site, p, w, a);
    case Staging => KeepsStaging(site, p, w, a);
    case Sealed => KeepsStaging(site, p, w, a);
    case Cleared => if a.RenameOld? { KeepsRenameOld(site, p, w, a); } else { KeepsStaging(site, p, w, a); }
    case OldMoved(_) => KeepsRenameNew(site, p, w, a);
    case RollingBack => KeepsRenameNew(site, p, w, a);
    case _ => KeepsAfterwards(site, p, w, a);
  }

  lemma ActFrameTops(site: Site, p: Proc, w: World, a: Action)
    requires Act(site, p, w, a).Some?
    ensures forall n :: n != p.job.id && n != Previous(p.job.id) ==>
              Top(Act(site, p, w, a).value.world.tops, n) == Top(w.tops, n)
  {
  }

  /** A call touches its own bundle root, that root's backup name, its own stage, and its own lock; nothing else. */
  lemma ActFrame(site: Site, p: Proc, w: World, a: Action)
    requires Act(site, p, w, a).Some?
    ensures var l := Act(site, p, w, a).value;
            && l.proc.job == p.job
            && (forall n :: n != p.job.id && n != Previous(p.job.id) ==> Top(l.world.tops, n) == Top(w.tops, n))
            && (forall d :: d != p.dir && a != MakeStage(d) ==> Top(l.world.stages, d) == Top(w.stages, d))
            && (forall i :: i != p.job.id ==> (i in l.world.locks <==> i in w.locks))
            && (l.proc.dir == p.dir || (a == MakeStage(l.proc.dir) && l.proc.dir !in w.stages))
  {
    ActFrameTops(site, p, w, a);
  }

  /** A name changes only by a process of that id past validation, or by an install whose backup name it is. */
  lemma WhoTouches(site: Site, p: Proc, w: World, a: Action, n: string)
    requires Act(site, p, w, a).Some? && Program(p)
    requires Top(Act(site, p, w, a).value.world.tops, n) != Top(w.tops, n)
    ensures p.job.id == n ==> p.pc.Cleared? || p.pc.OldMoved? || p.pc.RollingBack? || p.pc.Removing?
    ensures p.job.id != n ==>
              && Previous(p.job.id) == n && p.job.InstallJob?
              && (p.pc.Sealed? || p.pc.Cleared? || p.pc.RollingBack? || p.pc.Promoted?)
  {
    PreviousIsOther(p.job.id);
  }

  /** What a process relies on is a matter of its own bundle root, its stage and, for an install, its backup name. */
  lemma ReliesIsLocal(site: Site, q: Proc, w: World, w': World)
    requires Relies(site, q, w) && Program(q)
    requires Holding(q) ==> Top(w'.tops, q.job.id) == Top(w.tops, q.job.id)
    requires Holding(q) && q.job.InstallJob? ==> Top(w'.tops, Previous(q.job.id)) == Top(w.tops, Previous(q.job.id))
    requires HasStage(q) ==> Top(w'.stages, q.dir) == Top(w.stages, q.dir)
    ensures Relies(site, q, w')
  {
  }

  // ----- all processes together

  datatype State = State(world: World, procs: map<nat, Proc>)

  datatype Event = Event(pid: nat, action: Action)

  predicate Enabled(site: Site, st: State, e: Event) {
    e.pid in st.procs && Act(site, st.procs[e.pid], st.world, e.action).Some?
  }

  function Apply(site: Site, st: State, e: Event): State
    requires Enabled(site, st, e)
  {
    var l := Act(site, st.procs[e.pid], st.world, e.action).value;
    State(l.world, st.procs[e.pid := l.proc])
  }

  /** This process's bundle is no install's backup, and its own backup, if it installs, is nobody's bundle. */
  ghost predicate Apart(procs: map<nat, Proc>, p: nat)
    requires p in procs
  {
    forall q :: q in procs ==>
      && (procs[q].job.InstallJob? ==> procs[p].job.id != Previous(procs[q].job.id))
      && (procs[p].job.InstallJob? ==> procs[q].job.id != Previous(procs[p].job.id))
  }

  /** At most one process is between lock and unlock of a bundle id, and it owns the lock. */
  ghost predicate Exclusive(st: State) {
    && (forall p :: p in st.procs && Holding(st.procs[p]) ==> st.procs[p].job.id in st.world.locks)
    && (forall p, q :: p in st.procs && q in st.procs && p != q && Holding(st.procs[p]) && Holding(st.procs[q]) ==>
          st.procs[p].job.id != st.procs[q].job.id)
  }

  /** Every process that has a stage has one of its own, and it is there. */
  ghost predicate OwnStages(st: State) {
    && (forall p :: p in st.procs && HasStage(st.procs[p]) ==> st.procs[p].dir in st.world.stages)
    && forall p, q :: p in st.procs && q in st.procs && p != q && HasStage(st.procs[p]) && HasStage(st.procs[q]) ==>
         st.procs[p].dir != st.procs[q].dir
  }

  /**
   Exclusion and stages for all processes, whatever their names; what each relies on for those whose names are
   apart.
   */
  ghost predicate Inv(site: Site, st: State) {
    && Exclusive(st) && OwnStages(st)
    && (forall p :: p in st.procs ==> Program(st.procs[p]))
    && (forall p :: p in st.procs && Apart(st.procs, p) ==> Relies(site, st.procs[p], st.world))
  }

  lemma StepKeepsExclusive(site: Site, st: State, e: Event)
    requires Exclusive(st) && Enabled(site, st, e)
    ensures Exclusive(Apply(site, st, e))
  {
    var p := st.procs[e.pid];
    var l := Act(site, p, st.world, e.action).value;
    ActFrame(site, p, st.world, e.action);
    assert Holding(l.proc) ==> p.job.id in l.world.locks && (Holding(p) || p.job.id !in st.world.locks);
    assert !Holding(l.proc) && !Holding(p) ==> l.world.locks == st.world.locks;
  }

  lemma StageFrame(site: Site, p: Proc, w: World, a: Action, dir: string)
    requires Act(site, p, w, a).Some? && dir in w.stages && (HasStage(p) ==> p.dir != dir)
    ensures Top(Act(site, p, w, a).value.world.stages, dir) == Top(w.stages, dir)
  {
  }

  lemma OwnStage(site: Site, p: Proc, w: World, a: Action)
    requires Act(site, p, w, a).Some? && (HasStage(p) ==> p.dir in w.stages)
    ensures var l := Act(site, p, w, a).value;
            HasStage(l.proc) ==>
              l.proc.dir in l.world.stages && (if HasStage(p) then l.proc.dir == p.dir else l.proc.dir !in w.stages)
  {
  }

  lemma StageOfOther(site: Site, st: State, e: Event, q: nat)
    requires OwnStages(st) && Enabled(site, st, e) && q in st.procs && q != e.pid && HasStage(st.procs[q])
    ensures Top(Apply(site, st, e).world.stages, st.procs[q].dir) == Top(st.world.stages, st.procs[q].dir)
  {
    StageFrame(site, st.procs[e.pid], st.world, e.action, st.procs[q].dir);
  }

  lemma StepKeepsOwnStages(site: Site, st: State, e: Event)
    requires OwnStages(st) && Enabled(site, st, e)
    ensures OwnStages(Apply(site, st, e))
  {
    var st' := Apply(site, st, e);
    OwnStage(site, st.procs[e.pid], st.world, e.action);
    forall q | q in st'.procs && q != e.pid && HasStage(st'.procs[q])
      ensures st'.procs[q].dir in st'.world.stages
    {
      StageOfOther(site, st, e, q);
    }
  }

  lemma TopsOfOther(site: Site, st: State, e: Event, q: nat)
    requires Inv(site, st) && Enabled(site, st, e) && q in st.procs && q != e.pid && Holding(st.procs[q])
    requires Apart(st.procs, q)
    ensures var id := st.procs[q].job.id;
            var tops := Apply(site, st, e).world.tops;
            && Top(tops, id) == Top(st.world.tops, id)
            && (st.procs[q].job.InstallJob? ==> Top(tops, Previous(id)) == Top(st.world.tops, Previous(id)))
  {
    var p, id := st.procs[e.pid], st.procs[q].job.id;
    var tops := Apply(site, st, e).world.tops;
    PreviousIsInjective(p.job.id, id);
    if Top(tops, id) != Top(st.world.tops, id) {
      WhoTouches(site, p, st.world, e.action, id);
    }
    if st.procs[q].job.InstallJob? && Top(tops, Previous(id)) != Top(st.world.tops, Previous(id)) {
      WhoTouches(site, p, st.world, e.action, Previous(id));
    }
  }

  /** One process's call leaves what every other process relies on alone, if that one's names are apart. */
  lemma StepKeepsOther(site: Site, st: State, e: Event, q: nat)
    requires Inv(site, st) && Enabled(site, st, e) && q in st.procs && q != e.pid && Apart(st.procs, q)
    ensures Relies(site, st.procs[q], Apply(site, st, e).world)
  {
    assert Relies(site, st.procs[q], st.world);
    if Holding(st.procs[q]) {
      TopsOfOther(site, st, e, q);
    }
    if HasStage(st.procs[q]) {
      StageOfOther(site, st, e, q);
    }
    ReliesIsLocal(site, st.procs[q], st.world, Apply(site, st, e).world);
  }

  lemma ActKeepsProgram(site: Site, p: Proc, w: World, a: Action)
    requires Program(p) && Act(site, p, w, a).Some?
    ensures Act(site, p, w, a).value.proc.job == p.job && Program(Act(site, p, w, a).value.proc)
  {
  }

  lemma ApartStays(before: map<nat, Proc>, after: map<nat, Proc>, p: nat)
    requires before.Keys == after.Keys && p in before && forall q :: q in before ==> after[q].job == before[q].job
    ensures Apart(before, p) <==> Apart(after, p)
  {
  }

  lemma StepKeepsInv(site: Site, st: State, e: Event)
    requires Inv(site, st) && Enabled(site, st, e)
    ensures Inv(site, Apply(site, st, e))
  {
    var st' := Apply(site, st, e);
    ActKeepsProgram(site, st.procs[e.pid], st.world, e.action);
    StepKeepsExclusive(site, st, e);
    StepKeepsOwnStages(site, st, e);
    forall q | q in st'.procs && Apart(st'.procs, q)
      ensures Relies(site, st'.procs[q], st'.world)
    {
      ApartStays(st.procs, st'.procs, q);
      if q == e.pid {
        ActKeepsOwn(site, st.procs[q], st.world, e.action);
      } else {
        StepKeepsOther(site, st, e, q);
      }
    }
  }

  // ----- runs

  /** Any start: whatever is on disk, whatever stale locks are left, every process yet to begin. */
  ghost predicate Fresh(st: State) {
    forall p :: p in st.procs ==> st.procs[p].pc.Start? && st.procs[p].entry.None?
  }

  /** `trace[i + 1]` is the effect of `events[i]` on `trace[i]`. */
  ghost predicate Steps(site: Site, trace: seq<State>, events: seq<Event>) {
    && |trace| == |events| + 1
    && forall i :: 0 <= i < |events| ==>
         Enabled(site, trace[i], events[i]) && trace[i + 1] == Apply(site, trace[i], events[i])
  }

  ghost predicate Run(site: Site, trace: seq<State>, events: seq<Event>) {
    Steps(site, trace, events) && Fresh(trace[0])
  }

  lemma {:induction false} RunKeepsInv(site: Site, trace: seq<State>, events: seq<Event>, i: nat)
    requires Run(site, trace, events) && i < |trace|
    ensures Inv(site, trace[i])
  {
    if i > 0 {
      RunKeepsInv(site, trace, events, i - 1);
      StepKeepsInv(site, trace[i - 1], events[i - 1]);
    }
  }

  /** Over every interleaving, and for all ids, two processes between lock and unlock work on different bundles. */
  lemma MutualExclusion(site: Site, trace: seq<State>, events: seq<Event>, i: nat, p: nat, q: nat)
    requires Run(site, trace, events) && i < |trace|
    requires p in trace[i].procs && q in trace[i].procs && p != q
    requires Holding(trace[i].procs[p]) && Holding(trace[i].procs[q])
    ensures trace[i].procs[p].job.id != trace[i].procs[q].job.id
  {
    RunKeepsInv(site, trace, events, i);
  }

  /**
   The tree present on entry is whole at the root or at its backup name, or the finished stage is whole at the
   root.
   */
  ghost predicate Survives(p: Proc, w: World) {
    || Top(w.tops, p.job.id) == p.entry
    || (p.job.id !in w.tops && Top(w.tops, Previous(p.job.id)) == p.entry)
    || Top(w.tops, p.job.id) == Some(p.whole)
  }

  lemma ReliantSurvives(site: Site, p: Proc, w: World)
    requires Relies(site, p, w) && Program(p) && p.job.InstallJob? && Holding(p) && !p.pc.Held?
    ensures Survives(p, w)
    ensures p.pc.Closing? && p.pc.ok ==> Top(w.tops, p.job.id) == Some(p.whole)
    ensures p.pc.Closing? && !p.pc.ok && !p.pc.lost ==> Top(w.tops, p.job.id) == p.entry
  {
  }

  lemma ReliesInRun(site: Site, trace: seq<State>, events: seq<Event>, i: nat, p: nat)
    requires Run(site, trace, events) && i < |trace| && p in trace[i].procs && Apart(trace[i].procs, p)
    ensures Relies(site, trace[i].procs[p], trace[i].world) && Program(trace[i].procs[p])
  {
    RunKeepsInv(site, trace, events, i);
  }

  /**
   Crash safety of the promotion: at every point of every run, and so wherever an install stops for good, the
   validated tree or its finished replacement is there in one piece. Only this install's own names need be apart from
   those of the others.
   */
  lemma PromotionIsCrashSafe(site: Site, trace: seq<State>, events: seq<Event>, i: nat, p: nat)
    requires Run(site, trace, events) && i < |trace| && p in trace[i].procs
    requires Apart(trace[i].procs, p)
    requires trace[i].procs[p].job.InstallJob? && Holding(trace[i].procs[p]) && !trace[i].procs[p].pc.Held?
    ensures Survives(trace[i].procs[p], trace[i].world)
    ensures trace[i].procs[p].pc.Closing? ==>
              var proc := trace[i].procs[p];
              && (proc.pc.ok ==> Top(trace[i].world.tops, proc.job.id) == Some(proc.whole))
              && (!proc.pc.ok && !proc.pc.lost ==> Top(trace[i].world.tops, proc.job.id) == proc.entry)
  {
    ReliesInRun(site, trace, events, i, p);
    ReliantSurvives(site, trace[i].procs[p], trace[i].world);
  }

  /** A rollback whose rename works puts the validated tree back at the root. */
  lemma WorkingRollbackRestores(site: Site, p: Proc, w: World)
    requires Relies(site, p, w) && p.pc.RollingBack?
    ensures Act(site, p, w, Rollback(true)).Some?
    ensures var l := Act(site, p, w, Rollback(true)).value;
            l.proc.pc == Discarding(false) && Top(l.world.tops, p.job.id) == p.entry && p.entry.Some?
  {
    PreviousIsOther(p.job.id);
  }

  /**
   What is renamed away or removed at a bundle root is the tree whose manifest this same process validated
   under the lock, or part of it; no other process has touched the root since.
   */
  lemma OnlyTheValidatedTreeGoes(site: Site, trace: seq<State>, events: seq<Event>, i: nat)
    requires Run(site, trace, events) && i < |events| && Apart(trace[i].procs, events[i].pid)
    requires var p := trace[i].procs[events[i].pid];
             && p.job.id in trace[i].world.tops
             && Top(trace[i + 1].world.tops, p.job.id) != Top(trace[i].world.tops, p.job.id)
    ensures var p := trace[i].procs[events[i].pid];
            && Holding(p) && p.entry.Some? && Claims(site, p.entry.value, p.job.id)
            && Remnant(trace[i].world.tops[p.job.id], p.entry.value)
            && (p.job.InstallJob? ==> trace[i].world.tops[p.job.id] == p.entry.value)
  {
    ReliesInRun(site, trace, events, i, events[i].pid);
    var p := trace[i].procs[events[i].pid];
    PreviousIsOther(p.job.id);
  }

  // ----- other bundles, and backup names that are bundle ids

  /**
   What clearing the backup name does to another bundle: nothing, unless it has that name and the removal takes
   any of it.
   */
  lemma ClearingTakesTheNamesake(site: Site, p: Proc, w: World, left: Option<Tree>, n: string)
    requires (p.pc.Sealed? || p.pc.Cleared?) && n in w.tops && n != p.job.id
    ensures Act(site, p, w, ClearBackup(left)).Some?
    ensures Top(Act(site, p, w, ClearBackup(left)).value.world.tops, n) == Top(w.tops, n) <==>
            n != Previous(p.job.id) || LeftOf(w.tops[n], left) == Some(w.tops[n])
  {
  }

  lemma {:induction false} JobsStay(site: Site, trace: seq<State>, events: seq<Event>, i: nat)
    requires Run(site, trace, events) && i < |trace|
    ensures trace[i].procs.Keys == trace[0].procs.Keys
    ensures forall p :: p in trace[i].procs ==>
              trace[i].procs[p].job == trace[0].procs[p].job && Program(trace[i].procs[p])
  {
    if i > 0 {
      JobsStay(site, trace, events, i - 1);
      ActKeepsProgram(site, trace[i - 1].procs[events[i - 1].pid], trace[i - 1].world, events[i - 1].action);
    }
  }

  const SUFFIX := ".previous"

  predicate IsBackupName(n: string) {
    |SUFFIX| <= |n| && n[|n| - |SUFFIX|..] == SUFFIX
  }

  /** The bundle whose backup name this is. */
  function Stem(n: string): string
    requires IsBackupName(n)
  {
    n[..|n| - |SUFFIX|]
  }

  lemma StemOfPrevious(id: string, n: string)
    ensures Previous(id) == n <==> IsBackupName(n) && Stem(n) == id
  {
    assert Previous(id)[|id|..] == SUFFIX && Previous(id)[..|id|] == id;
    if IsBackupName(n) {
      assert n == Stem(n) + SUFFIX;
    }
  }

  ghost predicate HasInstall(procs: map<nat, Proc>, id: string) {
    exists p :: p in procs && procs[p].job == InstallJob(id)
  }

  /**
   Whether some install of this bundle can get past validation, read off the start: there is one, no stale lock is
   held, and the root is free, or claimed, or the backup name of a bundle of which the same can be said.
   */
  ghost predicate CanPass(site: Site, st: State, id: string)
    decreases |id|
  {
    && HasInstall(st.procs, id) && id !in st.world.locks
    && (id in st.world.tops ==>
          Claims(site, st.world.tops[id], id) || (IsBackupName(id) && CanPass(site, st, Stem(id))))
  }

  /** A root at the start that is not this bundle's, and whose name no install that can pass has as its backup. */
  ghost predicate Foreign(site: Site, st: State, id: string) {
    && id in st.world.tops && !Claims(site, st.world.tops[id], id)
    && !(IsBackupName(id) && CanPass(site, st, Stem(id)))
  }

  /** The states of a process that a stale lock or a foreign root keeps out. */
  predicate KeptOut(p: Proc) {
    p.pc.Start? || p.pc.Held? || p.pc.Closing? || p.pc.Ended?
  }

  /** What never changes in a run that began in `st0`: stale locks, foreign roots, and who they keep out. */
  ghost predicate Halted(site: Site, st0: State, st: State) {
    && st0.world.locks <= st.world.locks
    && (forall p :: p in st.procs && st.procs[p].job.id in st0.world.locks ==> !Holding(st.procs[p]))
    && (forall p :: p in st.procs && Foreign(site, st0, st.procs[p].job.id) ==> KeptOut(st.procs[p]))
    && (forall id :: Foreign(site, st0, id) ==> Top(st.world.tops, id) == Top(st0.world.tops, id))
  }

  lemma HaltedKeepsOut(site: Site, st0: State, st: State, p: nat)
    requires Halted(site, st0, st) && p in st.procs && st.procs[p].job.InstallJob?
    requires HasInstall(st0.procs, st.procs[p].job.id) && !CanPass(site, st0, st.procs[p].job.id)
    ensures KeptOut(st.procs[p])
  {
  }

  /** In such a run a name changes only by its own bundle's processes, or by an install that can pass. */
  lemma WhoCanTouch(site: Site, st0: State, st: State, e: Event, n: string)
    requires Halted(site, st0, st) && Enabled(site, st, e) && Program(st.procs[e.pid])
    requires HasInstall(st0.procs, st.procs[e.pid].job.id) || st.procs[e.pid].job.UninstallJob?
    requires Top(Apply(site, st, e).world.tops, n) != Top(st.world.tops, n)
    ensures !KeptOut(st.procs[e.pid])
    ensures st.procs[e.pid].job.id == n || (IsBackupName(n) && CanPass(site, st0, Stem(n)))
  {
    var p := st.procs[e.pid];
    WhoTouches(site, p, st.world, e.action, n);
    StemOfPrevious(p.job.id, n);
    if p.job.id != n && !CanPass(site, st0, p.job.id) {
      HaltedKeepsOut(site, st0, st, e.pid);
    }
  }

  lemma StepKeepsHalted(site: Site, st0: State, st: State, e: Event)
    requires Halted(site, st0, st) && Enabled(site, st, e) && Program(st.procs[e.pid])
    requires HasInstall(st0.procs, st.procs[e.pid].job.id) || st.procs[e.pid].job.UninstallJob?
    ensures Halted(site, st0, Apply(site, st, e))
  {
    var p := st.procs[e.pid];
    var st' := Apply(site, st, e);
    var id := p.job.id;
    ActFrame(site, p, st.world, e.action);
    assert id in st0.world.locks ==> !Holding(p) && !Holding(st'.procs[e.pid]) && st'.world.locks == st.world.locks;
    forall n | Foreign(site, st0, n)
      ensures Top(st'.world.tops, n) == Top(st0.world.tops, n)
    {
      if Top(st'.world.tops, n) != Top(st.world.tops, n) {
        WhoCanTouch(site, st0, st, e, n);
      }
    }
    if Foreign(site, st0, id) {
      assert id in st.world.tops && st.world.tops[id] == st0.world.tops[id];
      assert KeptOut(st'.procs[e.pid]);
    }
  }

  lemma {:induction false} RunKeepsHalted(site: Site, trace: seq<State>, events: seq<Event>, i: nat)
    requires Run(site, trace, events) && i < |trace|
    ensures Halted(site, trace[0], trace[i])
  {
    if i > 0 {
      RunKeepsHalted(site, trace, events, i - 1);
      HasOwnInstall(site, trace, events, i - 1);
      StepKeepsHalted(site, trace[0], trace[i - 1], events[i - 1]);
    }
  }

  lemma HasOwnInstall(site: Site, trace: seq<State>, events: seq<Event>, i: nat)
    requires Run(site, trace, events) && i < |events|
    ensures events[i].pid in trace[i].procs
    ensures var p := trace[i].procs[events[i].pid];
            Program(p) && (HasInstall(trace[0].procs, p.job.id) || p.job.UninstallJob?)
  {
    JobsStay(site, trace, events, i);
    var pid := events[i].pid;
    assert pid in trace[0].procs && trace[0].procs[pid].job == trace[i].procs[pid].job;
  }

  /** In every run from `st0` this name has at the end what it had at the start. */
  ghost predicate NeverTouched(site: Site, st0: State, n: string) {
    forall trace: seq<State>, events: seq<Event> :: Steps(site, trace, events) && trace[0] == st0 ==>
      Top(trace[|events|].world.tops, n) == Top(st0.world.tops, n)
  }

  lemma UntouchedEvent(site: Site, trace: seq<State>, events: seq<Event>, n: string, i: nat)
    requires Run(site, trace, events) && i < |events|
    requires forall p :: p in trace[0].procs ==> trace[0].procs[p].job.id != n
    requires !(IsBackupName(n) && CanPass(site, trace[0], Stem(n)))
    ensures Top(trace[i + 1].world.tops, n) == Top(trace[i].world.tops, n)
  {
    RunKeepsHalted(site, trace, events, i);
    HasOwnInstall(site, trace, events, i);
    if Top(trace[i + 1].world.tops, n) != Top(trace[i].world.tops, n) {
      WhoCanTouch(site, trace[0], trace[i], events[i], n);
      JobsStay(site, trace, events, i);
    }
  }

  lemma {:induction false} UntouchedSoFar(site: Site, trace: seq<State>, events: seq<Event>, n: string, i: nat)
    requires Run(site, trace, events) && i < |trace|
    requires forall p :: p in trace[0].procs ==> trace[0].procs[p].job.id != n
    requires !(IsBackupName(n) && CanPass(site, trace[0], Stem(n)))
    ensures Top(trace[i].world.tops, n) == Top(trace[0].world.tops, n)
  {
    if i > 0 {
      UntouchedSoFar(site, trace, events, n, i - 1);
      UntouchedEvent(site, trace, events, n, i - 1);
    }
  }

  // ----- runs built step by step

  function End(trace: seq<State>): State
    requires trace != []
  {
    trace[|trace| - 1]
  }

  /** The run goes on with calls of this process only. */
  ghost predicate Own(events: seq<Event>, events': seq<Event>, pid: nat) {
    events <= events' && forall k :: |events| <= k < |events'| ==> events'[k].pid == pid
  }

  lemma OneMoreStep(site: Site, trace: seq<State>, events: seq<Event>, pid: nat, a: Action)
    returns (trace': seq<State>, events': seq<Event>)
    requires Steps(site, trace, events) && Enabled(site, End(trace), Event(pid, a))
    ensures Steps(site, trace', events') && trace'[0] == trace[0] && Own(events, events', pid)
    ensures End(trace') == Apply(site, End(trace), Event(pid, a))
    ensures |trace'| == |trace| + 1 && trace'[|trace| - 1] == End(trace)
  {
    var e := Event(pid, a);
    trace', events' := trace + [Apply(site, End(trace), e)], events + [e];
  }

  lemma {:induction false} LongerThanAll(names: set<string>) returns (n: nat)
    ensures forall s :: s in names ==> |s| < n
    decreases |names|
  {
    if names == {} {
      return 0;
    }
    var s :| s in names;
    n := LongerThanAll(names - {s});
    n := if |s| < n then n else |s| + 1;
  }

  lemma UnusedName(names: set<string>) returns (dir: string)
    ensures dir !in names
  {
    var n := LongerThanAll(names);
    dir := seq(n, _ => 'x');
  }

  /** A process that is yet to begin an install which its lock and its root let pass. */
  ghost predicate Ready(site: Site, st: State, p: nat) {
    && p in st.procs && st.procs[p].job.InstallJob? && st.procs[p].pc.Start? && st.procs[p].entry.None?
    && st.procs[p].job.id !in st.world.locks
    && (st.procs[p].job.id in st.world.tops ==> Claims(site, st.world.tops[st.procs[p].job.id], st.procs[p].job.id))
  }

  /** An install that finds its lock free and its root free or claimed can go on to a finished stage, of any tree. */
  lemma PassAndSeal(site: Site, trace: seq<State>, events: seq<Event>, pid: nat, tree: Tree)
    returns (trace': seq<State>, events': seq<Event>, dir: string)
    requires Steps(site, trace, events)
    requires Ready(site, End(trace), pid)
    ensures Steps(site, trace', events') && trace'[0] == trace[0] && Own(events, events', pid)
    ensures var st := End(trace);
            var id := st.procs[pid].job.id;
            && dir !in st.world.stages
            && End(trace') == State(World(st.world.tops, st.world.stages[dir := tree], st.world.locks + {id}),
                                    st.procs[pid := Proc(InstallJob(id), Sealed, Top(st.world.tops, id), dir, tree)])
  {
    var st := End(trace);
    dir := UnusedName(st.world.stages.Keys);
    trace', events' := StageBegun(site, trace, events, pid, dir);
    trace', events' := OneMoreStep(site, trace', events', pid, Fill(tree));
    trace', events' := OneMoreStep(site, trace', events', pid, Seal);
    assert End(trace').procs == st.procs[pid := End(trace').procs[pid]];
    assert st.world.stages[dir := map[]][dir := tree] == st.world.stages[dir := tree];
  }

  lemma StageBegun(site: Site, trace: seq<State>, events: seq<Event>, pid: nat, dir: string)
    returns (trace': seq<State>, events': seq<Event>)
    requires Steps(site, trace, events)
    requires Ready(site, End(trace), pid) && dir !in End(trace).world.stages
    ensures Steps(site, trace', events') && trace'[0] == trace[0] && Own(events, events', pid)
    ensures var st := End(trace);
            var proc := st.procs[pid];
            var held := proc.(pc := Staging, entry := Top(st.world.tops, proc.job.id), dir := dir);
            End(trace') == State(World(st.world.tops, st.world.stages[dir := map[]], st.world.locks + {proc.job.id}),
                                 st.procs[pid := held])
  {
    var st := End(trace);
    trace', events' := OneMoreStep(site, trace, events, pid, Lock);
    trace', events' := OneMoreStep(site, trace', events', pid, Validate);
    trace', events' := OneMoreStep(site, trace', events', pid, MakeStage(dir));
    assert End(trace').procs == st.procs[pid := End(trace').procs[pid]];
  }

  lemma ClearStep(site: Site, trace: seq<State>, events: seq<Event>, pid: nat)
    returns (trace': seq<State>, events': seq<Event>)
    requires Steps(site, trace, events) && pid in End(trace).procs && End(trace).procs[pid].pc.Sealed?
    ensures Steps(site, trace', events') && trace'[0] == trace[0] && Own(events, events', pid)
    ensures var w := End(trace).world;
            End(trace') == State(w.(tops := w.tops - {Previous(End(trace).procs[pid].job.id)}),
                                 End(trace).procs[pid := End(trace).procs[pid].(pc := Cleared)])
  {
    var st := End(trace);
    trace', events' := OneMoreStep(site, trace, events, pid, ClearBackup(None));
    assert Previous(st.procs[pid].job.id) !in st.world.tops ==>
             st.world.tops - {Previous(st.procs[pid].job.id)} == st.world.tops;
  }

  /** ... and to a cleared backup. */
  lemma SealAndClear(site: Site, trace: seq<State>, events: seq<Event>, pid: nat, tree: Tree)
    returns (trace': seq<State>, events': seq<Event>, dir: string)
    requires Steps(site, trace, events)
    requires Ready(site, End(trace), pid)
    ensures Steps(site, trace', events') && trace'[0] == trace[0] && Own(events, events', pid)
    ensures var w, id := End(trace).world, End(trace).procs[pid].job.id;
            && dir !in w.stages
            && End(trace') == State(World(w.tops - {Previous(id)}, w.stages[dir := tree], w.locks + {id}),
                                    End(trace).procs[pid := Proc(InstallJob(id), Cleared, Top(w.tops, id), dir, tree)])
  {
    trace', events', dir := PassAndSeal(site, trace, events, pid, tree);
    trace', events' := ClearStep(site, trace', events', pid);
  }

  /** Only bundles with names no longer than `n` have been worked on. */
  ghost predicate UpTo(st0: State, st: State, n: nat) {
    && st.procs.Keys == st0.procs.Keys
    && (forall p :: p in st0.procs && |st0.procs[p].job.id| > n ==> st.procs[p] == st0.procs[p])
    && (forall id :: |id| > n ==> (id in st.world.locks <==> id in st0.world.locks))
    && (forall id :: |id| > n ==> Top(st.world.tops, id) == Top(st0.world.tops, id))
  }

  lemma UpToAfterClearing(st0: State, st: State, n: string, pid: nat)
    requires IsBackupName(n) && UpTo(st0, st, |Stem(n)|) && pid in st.procs && st.procs[pid].job == InstallJob(Stem(n))
    requires pid in st0.procs && st0.procs[pid].job == st.procs[pid].job
    ensures var procs := st.procs[pid := st.procs[pid].(pc := Cleared)];
            && UpTo(st0, State(st.world.(tops := st.world.tops - {n}), procs), |n|)
            && forall p :: p in st0.procs && st0.procs[p].job.id == n ==> p in procs && procs[p] == st0.procs[p]
    ensures n in st.world.locks <==> n in st0.world.locks
  {
    assert |Stem(n)| < |n|;
  }

  /** Whoever can pass does so in some run. */
  lemma {:induction false} PassesInARun(site: Site, st0: State, id: string)
    returns (trace: seq<State>, events: seq<Event>, pid: nat)
    requires Fresh(st0) && CanPass(site, st0, id)
    ensures Steps(site, trace, events) && trace[0] == st0 && UpTo(st0, End(trace), |id|)
    ensures pid in st0.procs && st0.procs[pid].job == InstallJob(id)
    ensures pid in End(trace).procs && End(trace).procs[pid].job == InstallJob(id) && End(trace).procs[pid].pc.Sealed?
    decreases |id|, 0
  {
    trace, events := [st0], [];
    if id in st0.world.tops && !Claims(site, st0.world.tops[id], id) {
      trace, events := BackupCleared(site, st0, id);
    }
    pid :| pid in st0.procs && st0.procs[pid].job == InstallJob(id);
    var dir: string;
    trace, events, dir := PassAndSeal(site, trace, events, pid, map[]);
  }

  /** ... and then clears its backup name, which leaves all processes of that name and longer ones where they were. */
  lemma {:induction false} BackupCleared(site: Site, st0: State, n: string)
    returns (trace: seq<State>, events: seq<Event>)
    requires Fresh(st0) && IsBackupName(n) && CanPass(site, st0, Stem(n))
    ensures Steps(site, trace, events) && trace[0] == st0 && n !in End(trace).world.tops
    ensures forall p :: p in st0.procs && st0.procs[p].job.id == n ==>
              p in End(trace).procs && End(trace).procs[p] == st0.procs[p]
    ensures n in End(trace).world.locks <==> n in st0.world.locks
    ensures UpTo(st0, End(trace), |n|)
    decreases |Stem(n)|, 1
  {
    var pid: nat;
    trace, events, pid := PassesInARun(site, st0, Stem(n));
    StemOfPrevious(Stem(n), n);
    UpToAfterClearing(st0, End(trace), n, pid);
    trace, events := ClearStep(site, trace, events, pid);
  }

  /**
   "Other bundles are untouched", exactly: a bundle no process works on stays as it is in every run, unless its name
   is the backup name of a bundle with an install that can get past validation; and then a run removes it.
   */
  lemma OtherBundlesUntouched(site: Site, st0: State, n: string)
    requires Fresh(st0) && n in st0.world.tops
    requires forall p :: p in st0.procs ==> st0.procs[p].job.id != n
    ensures NeverTouched(site, st0, n) <==> !(IsBackupName(n) && CanPass(site, st0, Stem(n)))
  {
    if IsBackupName(n) && CanPass(site, st0, Stem(n)) {
      var trace, events := BackupCleared(site, st0, n);
      assert Steps(site, trace, events) && trace[0] == st0 && End(trace) == trace[|events|];
    } else {
      forall trace: seq<State>, events: seq<Event> | Steps(site, trace, events) && trace[0] == st0
        ensures Top(trace[|events|].world.tops, n) == Top(st0.world.tops, n)
      {
        UntouchedSoFar(site, trace, events, n, |events|);
      }
    }
  }

  /** The collision on a run: one install alone removes the bundle that has its backup name, whatever that bundle is. */
  lemma CollidingBackup(site: Site, id: string, bundle: Tree) returns (trace: seq<State>, events: seq<Event>)
    ensures Steps(site, trace, events)
    ensures trace[0] == State(World(map[Previous(id) := bundle], map[], {}),
                              map[0 := Proc(InstallJob(id), Start, None, "", map[])])
    ensures Previous(id) !in End(trace).world.tops
  {
    var st0 := State(World(map[Previous(id) := bundle], map[], {}),
                     map[0 := Proc(InstallJob(id), Start, None, "", map[])]);
    PreviousIsOther(id);
    StemOfPrevious(id, Previous(id));
    assert st0.procs[0].job == InstallJob(id);
    trace, events := BackupCleared(site, st0, Previous(id));
  }

  // ----- what a process reaches by itself

  /** Between two states one process has come to its end, and no other has moved. */
  ghost predicate Finished(before: State, after: State, p: nat) {
    && p in before.procs && p in after.procs && after.procs[p].pc.Ended?
    && after.procs == before.procs[p := after.procs[p]]
  }

  /** The last call but the unlocking has decided what this process returns. */
  ghost predicate Returns(trace: seq<State>, p: nat, ok: bool, lost: bool) {
    |trace| >= 2 && p in trace[|trace| - 2].procs && trace[|trace| - 2].procs[p].pc == Closing(ok, lost)
  }

  /** The unlocking at the end. */
  lemma Unlocked(site: Site, trace: seq<State>, events: seq<Event>, p: nat)
    returns (trace': seq<State>, events': seq<Event>)
    requires Steps(site, trace, events) && p in End(trace).procs && End(trace).procs[p].pc.Closing?
    ensures Steps(site, trace', events') && trace'[0] == trace[0] && Own(events, events', p)
    ensures var w, proc := End(trace).world, End(trace).procs[p];
            && End(trace') == State(w.(locks := w.locks - {proc.job.id}), End(trace).procs[p := proc.(pc := Ended)])
            && Returns(trace', p, proc.pc.ok, proc.pc.lost)
  {
    trace', events' := OneMoreStep(site, trace, events, p, Unlock);
  }

  /** The end of a failed install: its stage removed, its lock released. */
  lemma Discarded(site: Site, trace: seq<State>, events: seq<Event>, p: nat)
    returns (trace': seq<State>, events': seq<Event>)
    requires Steps(site, trace, events) && p in End(trace).procs && End(trace).procs[p].pc.Discarding?
    ensures Steps(site, trace', events') && trace'[0] == trace[0] && Own(events, events', p)
    ensures var w, proc := End(trace).world, End(trace).procs[p];
            && End(trace') == State(World(w.tops, w.stages - {proc.dir}, w.locks - {proc.job.id}),
                                    End(trace).procs[p := proc.(pc := Ended)])
            && Returns(trace', p, false, proc.pc.lost)
  {
    var st := End(trace);
    var dir := st.procs[p].dir;
    trace', events' := OneMoreStep(site, trace, events, p, DropStage(None));
    assert dir !in st.world.stages ==> st.world.stages - {dir} == st.world.stages;
    trace', events' := Unlocked(site, trace', events', p);
  }

  /** From a cleared backup: the old tree out of the way, if there is one, and the stage renamed in. */
  lemma RenamedIn(site: Site, trace: seq<State>, events: seq<Event>, p: nat)
    returns (trace': seq<State>, events': seq<Event>)
    requires Steps(site, trace, events) && p in End(trace).procs && End(trace).procs[p].pc.Cleared?
    requires var w, proc := End(trace).world, End(trace).procs[p];
             Previous(proc.job.id) !in w.tops && Top(w.stages, proc.dir) == Some(proc.whole)
    ensures Steps(site, trace', events') && trace'[0] == trace[0] && Own(events, events', p)
    ensures var w, proc := End(trace).world, End(trace).procs[p];
            var id := proc.job.id;
            var aside := if id in w.tops then w.tops[Previous(id) := w.tops[id]] else w.tops;
            End(trace') == State(World(aside[id := proc.whole], w.stages - {proc.dir}, w.locks),
                                 End(trace).procs[p := proc.(pc := Promoted(id in w.tops))])
  {
    var w, proc := End(trace).world, End(trace).procs[p];
    var id := proc.job.id;
    PreviousIsOther(id);
    trace', events' := OneMoreStep(site, trace, events, p, RenameOld(true));
    trace', events' := OneMoreStep(site, trace', events', p, RenameNew(true));
    if id in w.tops {
      assert (w.tops - {id})[Previous(id) := w.tops[id]][id := proc.whole]
             == w.tops[Previous(id) := w.tops[id]][id := proc.whole];
    }
  }

  /** After the promotion: the backup cleared, if there is one, and the lock released. */
  lemma PromotionEnds(site: Site, trace: seq<State>, events: seq<Event>, p: nat)
    returns (trace': seq<State>, events': seq<Event>)
    requires Steps(site, trace, events) && p in End(trace).procs && End(trace).procs[p].pc.Promoted?
    requires End(trace).procs[p].pc.had || Previous(End(trace).procs[p].job.id) !in End(trace).world.tops
    ensures Steps(site, trace', events') && trace'[0] == trace[0] && Own(events, events', p)
    ensures var w, proc := End(trace).world, End(trace).procs[p];
            var id := proc.job.id;
            && End(trace') == State(World(w.tops - {Previous(id)}, w.stages, w.locks - {id}),
                                    End(trace).procs[p := proc.(pc := Ended)])
            && Returns(trace', p, true, false)
  {
    var st := End(trace);
    var id := st.procs[p].job.id;
    trace', events' := trace, events;
    if st.procs[p].pc.had {
      trace', events' := OneMoreStep(site, trace', events', p, ClearBackup(None));
      assert st.procs[p := st.procs[p]] == st.procs;
    }
    assert End(trace') == State(st.world.(tops := st.world.tops - {Previous(id)}), st.procs);
    trace', events' := OneMoreStep(site, trace', events', p, Finish);
    trace', events' := Unlocked(site, trace', events', p);
  }

  /**
   An install goes through: from any state in which its lock is free and its root free or claimed, for every tree, its
   own calls end with that tree at the root, nothing at the backup name, and stages and locks as before; it returns ok.
   */
  lemma InstallGoesThrough(site: Site, trace: seq<State>, events: seq<Event>, p: nat, tree: Tree)
    returns (trace': seq<State>, events': seq<Event>)
    requires Steps(site, trace, events) && Ready(site, End(trace), p)
    ensures Steps(site, trace', events') && trace'[0] == trace[0] && Own(events, events', p)
    ensures var w, id := End(trace).world, End(trace).procs[p].job.id;
            && End(trace').world == World((w.tops - {Previous(id)})[id := tree], w.stages, w.locks)
            && Finished(End(trace), End(trace'), p) && Returns(trace', p, true, false)
  {
    var w, id := End(trace).world, End(trace).procs[p].job.id;
    var dir: string;
    PreviousIsOther(id);
    trace', events', dir := SealAndClear(site, trace, events, p, tree);
    trace', events' := PromotionGoesThrough(site, trace', events', p);
    assert w.stages[dir := tree] - {dir} == w.stages && w.locks + {id} - {id} == w.locks;
  }

  lemma AsideAndCleared(tops: Tops, name: string, id: string, was: Option<Tree>, tree: Tree)
    requires name !in tops && name != id
    ensures (if was.Some? then tops[name := was.value] else tops)[id := tree] - {name} == tops[id := tree]
  {
    assert (if was.Some? then tops[name := was.value] else tops)[id := tree] - {name} == tops[id := tree];
  }

  lemma PromotionGoesThrough(site: Site, trace: seq<State>, events: seq<Event>, p: nat)
    returns (trace': seq<State>, events': seq<Event>)
    requires Steps(site, trace, events) && p in End(trace).procs && End(trace).procs[p].pc.Cleared?
    requires var w, proc := End(trace).world, End(trace).procs[p];
             Previous(proc.job.id) !in w.tops && Top(w.stages, proc.dir) == Some(proc.whole)
    ensures Steps(site, trace', events') && trace'[0] == trace[0] && Own(events, events', p)
    ensures var w, proc := End(trace).world, End(trace).procs[p];
            var id := proc.job.id;
            && End(trace') == State(World(w.tops[id := proc.whole], w.stages - {proc.dir}, w.locks - {id}),
                                    End(trace).procs[p := proc.(pc := Ended)])
            && Returns(trace', p, true, false)
  {
    var w, proc := End(trace).world, End(trace).procs[p];
    var id := proc.job.id;
    PreviousIsOther(id);
    AsideAndCleared(w.tops, Previous(id), id, Top(w.tops, id), proc.whole);
    trace', events' := RenamedIn(site, trace, events, p);
    trace', events' := PromotionEnds(site, trace', events', p);
  }

  /** A process that is yet to begin an uninstall whose lock is free. */
  ghost predicate ReadyToRemove(st: State, p: nat) {
    && p in st.procs && st.procs[p].job.UninstallJob? && st.procs[p].pc.Start? && st.procs[p].entry.None?
    && st.procs[p].job.id !in st.world.locks
  }

  /**
   An uninstall over a claimed or an empty root goes through: its own calls end with the root gone, and it
   returns ok.
   */
  lemma UninstallGoesThrough(site: Site, trace: seq<State>, events: seq<Event>, p: nat)
    returns (trace': seq<State>, events': seq<Event>)
    requires Steps(site, trace, events) && ReadyToRemove(End(trace), p)
    requires var w, id := End(trace).world, End(trace).procs[p].job.id;
             id in w.tops ==> Claims(site, w.tops[id], id)
    ensures Steps(site, trace', events') && trace'[0] == trace[0] && Own(events, events', p)
    ensures var w, id := End(trace).world, End(trace).procs[p].job.id;
            && End(trace').world == World(w.tops - {id}, w.stages, w.locks)
            && Finished(End(trace), End(trace'), p) && Returns(trace', p, true, false)
  {
    var st := End(trace);
    var w, id := st.world, st.procs[p].job.id;
    trace', events' := OneMoreStep(site, trace, events, p, Lock);
    trace', events' := Removed(site, trace', events', p);
    trace', events' := Unlocked(site, trace', events', p);
    assert w.locks + {id} - {id} == w.locks;
    assert End(trace').procs == st.procs[p := End(trace').procs[p]];
  }

  lemma ValidatedToRemove(site: Site, trace: seq<State>, events: seq<Event>, p: nat)
    returns (trace': seq<State>, events': seq<Event>)
    requires Steps(site, trace, events) && p in End(trace).procs
    requires End(trace).procs[p].job.UninstallJob? && End(trace).procs[p].pc.Held?
    requires var w, id := End(trace).world, End(trace).procs[p].job.id;
             id in w.tops && Claims(site, w.tops[id], id)
    ensures Steps(site, trace', events') && trace'[0] == trace[0] && Own(events, events', p)
    ensures var w, proc := End(trace).world, End(trace).procs[p];
            End(trace') == State(w, End(trace).procs[p := proc.(pc := Removing, entry := Top(w.tops, proc.job.id))])
  {
    trace', events' := OneMoreStep(site, trace, events, p, Validate);
  }

  /** The removal itself, which leaves nothing or a part. */
  lemma RemoveAndFinish(site: Site, trace: seq<State>, events: seq<Event>, p: nat, left: Option<Tree>)
    returns (trace': seq<State>, events': seq<Event>)
    requires Steps(site, trace, events) && p in End(trace).procs && End(trace).procs[p].pc.Removing?
    ensures Steps(site, trace', events') && trace'[0] == trace[0] && Own(events, events', p)
    ensures var w, proc := End(trace).world, End(trace).procs[p];
            var tops := RemoveAll(w.tops, proc.job.id, left);
            End(trace') ==
            State(w.(tops := tops), End(trace).procs[p := proc.(pc := Closing(proc.job.id !in tops, false))])
  {
    trace', events' := OneMoreStep(site, trace, events, p, Remove(left));
    trace', events' := OneMoreStep(site, trace', events', p, Finish);
  }

  /** Under the lock: the root validated and removed, or found to be empty. */
  lemma Removed(site: Site, trace: seq<State>, events: seq<Event>, p: nat)
    returns (trace': seq<State>, events': seq<Event>)
    requires Steps(site, trace, events) && p in End(trace).procs
    requires End(trace).procs[p].job.UninstallJob? && End(trace).procs[p].pc.Held?
    requires var w, id := End(trace).world, End(trace).procs[p].job.id;
             id in w.tops ==> Claims(site, w.tops[id], id)
    ensures Steps(site, trace', events') && trace'[0] == trace[0] && Own(events, events', p)
    ensures var w, proc := End(trace).world, End(trace).procs[p];
            var closing := proc.(pc := Closing(true, false), entry := Top(w.tops, proc.job.id));
            End(trace') == State(w.(tops := w.tops - {proc.job.id}), End(trace).procs[p := closing])
  {
    var w, id := End(trace).world, End(trace).procs[p].job.id;
    if id in w.tops {
      trace', events' := ValidatedToRemove(site, trace, events, p);
      trace', events' := RemoveAndFinish(site, trace', events', p, None);
    } else {
      trace', events' := OneMoreStep(site, trace, events, p, Validate);
      assert w.tops - {id} == w.tops;
    }
  }

  /** A process that finds its lock held has one call left, which ends it and changes nothing. */
  lemma HeldLockEnds(site: Site, p: Proc, w: World, a: Action)
    requires p.pc.Start? && p.job.id in w.locks
    ensures Act(site, p, w, a).Some? <==> a.Lock?
    ensures Act(site, p, w, Lock).value.proc.pc.Ended? && Act(site, p, w, Lock).value.world == w
  {
  }

  /** Over a root of another bundle, the only call a process has once it holds the lock is to refuse. */
  lemma ForeignRootRefuses(site: Site, p: Proc, w: World, a: Action)
    requires p.pc.Held? && p.job.id in w.tops && !Claims(site, w.tops[p.job.id], p.job.id)
    ensures Act(site, p, w, a).Some? <==> a.Refuse?
  {
  }

  /** ... and then its own calls end with nothing changed and an error. */
  lemma RefusalChangesNothing(site: Site, trace: seq<State>, events: seq<Event>, p: nat)
    returns (trace': seq<State>, events': seq<Event>)
    requires Steps(site, trace, events) && p in End(trace).procs && End(trace).procs[p].pc.Start?
    requires End(trace).procs[p].job.id !in End(trace).world.locks
    ensures Steps(site, trace', events') && trace'[0] == trace[0] && Own(events, events', p)
    ensures End(trace').world == End(trace).world
    ensures Finished(End(trace), End(trace'), p) && Returns(trace', p, false, false)
  {
    var st := End(trace);
    trace', events' := OneMoreStep(site, trace, events, p, Lock);
    trace', events' := OneMoreStep(site, trace', events', p, Refuse);
    trace', events' := Unlocked(site, trace', events', p);
    assert st.world.locks + {st.procs[p].job.id} - {st.procs[p].job.id} == st.world.locks;
    assert End(trace').procs == st.procs[p := End(trace').procs[p]];
  }

  /** An install that fails before it has a stage ends with nothing changed and an error. */
  lemma FailedFetch(site: Site, trace: seq<State>, events: seq<Event>, p: nat)
    returns (trace': seq<State>, events': seq<Event>)
    requires Steps(site, trace, events) && Ready(site, End(trace), p)
    ensures Steps(site, trace', events') && trace'[0] == trace[0] && Own(events, events', p)
    ensures End(trace').world == End(trace).world
    ensures Finished(End(trace), End(trace'), p) && Returns(trace', p, false, false)
  {
    var st := End(trace);
    trace', events' := OneMoreStep(site, trace, events, p, Lock);
    trace', events' := OneMoreStep(site, trace', events', p, Validate);
    trace', events' := OneMoreStep(site, trace', events', p, Refuse);
    trace', events' := Unlocked(site, trace', events', p);
    assert st.world.locks + {st.procs[p].job.id} - {st.procs[p].job.id} == st.world.locks;
    assert End(trace').procs == st.procs[p := End(trace').procs[p]];
  }

  /**
   An install that fails while its stage is being built ends with an error and no root changed; if the removal of the
   stage fails too, what it left of the stage stays.
   */
  lemma FailedStaging(site: Site, trace: seq<State>, events: seq<Event>, p: nat, left: bool)
    returns (trace': seq<State>, events': seq<Event>, dir: string)
    requires Steps(site, trace, events) && Ready(site, End(trace), p)
    ensures Steps(site, trace', events') && trace'[0] == trace[0] && Own(events, events', p)
    ensures dir !in End(trace).world.stages
    ensures var w := End(trace).world;
            End(trace').world == if left then w.(stages := w.stages[dir := map[]]) else w
    ensures Finished(End(trace), End(trace'), p) && Returns(trace', p, false, false)
  {
    var w, id := End(trace).world, End(trace).procs[p].job.id;
    dir := UnusedName(w.stages.Keys);
    trace', events' := StageBegun(site, trace, events, p, dir);
    trace', events' := OneMoreStep(site, trace', events', p, Refuse);
    if left {
      trace', events' := StageLeft(site, trace', events', p);
    } else {
      trace', events' := Discarded(site, trace', events', p);
    }
    assert w.stages[dir := map[]] - {dir} == w.stages && w.locks + {id} - {id} == w.locks;
  }

  lemma StageLeft(site: Site, trace: seq<State>, events: seq<Event>, p: nat)
    returns (trace': seq<State>, events': seq<Event>)
    requires Steps(site, trace, events) && p in End(trace).procs && End(trace).procs[p].pc.Discarding?
    ensures Steps(site, trace', events') && trace'[0] == trace[0] && Own(events, events', p)
    ensures var w, proc := End(trace).world, End(trace).procs[p];
            && End(trace') == State(w.(locks := w.locks - {proc.job.id}), End(trace).procs[p := proc.(pc := Ended)])
            && Returns(trace', p, false, proc.pc.lost)
  {
    trace', events' := OneMoreStep(site, trace, events, p, Finish);
    trace', events' := Unlocked(site, trace', events', p);
  }

  /** An install whose old root cannot be renamed away ends with an error and the root as it was. */
  lemma FailedFirstRename(site: Site, trace: seq<State>, events: seq<Event>, p: nat)
    returns (trace': seq<State>, events': seq<Event>)
    requires Steps(site, trace, events) && Ready(site, End(trace), p)
    ensures Steps(site, trace', events') && trace'[0] == trace[0] && Own(events, events', p)
    ensures var w, id := End(trace).world, End(trace).procs[p].job.id;
            && End(trace').world == w.(tops := w.tops - {Previous(id)})
            && Finished(End(trace), End(trace'), p) && Returns(trace', p, false, false)
  {
    var w, id := End(trace).world, End(trace).procs[p].job.id;
    var dir: string;
    trace', events', dir := SealAndClear(site, trace, events, p, map[]);
    trace', events' := OneMoreStep(site, trace', events', p, RenameOld(false));
    trace', events' := Discarded(site, trace', events', p);
    assert w.stages[dir := map[]] - {dir} == w.stages && w.locks + {id} - {id} == w.locks;
  }

  /** An uninstall whose removal fails leaves what it left of the tree, and returns an error. */
  lemma FailedRemoval(site: Site, trace: seq<State>, events: seq<Event>, p: nat, rest: Tree)
    returns (trace': seq<State>, events': seq<Event>)
    requires Steps(site, trace, events) && ReadyToRemove(End(trace), p)
    requires var w, id := End(trace).world, End(trace).procs[p].job.id;
             id in w.tops && Claims(site, w.tops[id], id) && Remnant(rest, w.tops[id])
    ensures Steps(site, trace', events') && trace'[0] == trace[0] && Own(events, events', p)
    ensures var w, id := End(trace).world, End(trace).procs[p].job.id;
            && End(trace').world == w.(tops := w.tops[id := rest])
            && Finished(End(trace), End(trace'), p) && Returns(trace', p, false, false)
  {
    var st := End(trace);
    var w, id := st.world, st.procs[p].job.id;
    AnyPartCanBeLeft(w.tops[id], rest);
    trace', events' := OneMoreStep(site, trace, events, p, Lock);
    trace', events' := RemovedInPart(site, trace', events', p, rest);
    trace', events' := Unlocked(site, trace', events', p);
    assert w.locks + {id} - {id} == w.locks;
    assert End(trace').procs == st.procs[p := End(trace').procs[p]];
  }

  lemma RemovedInPart(site: Site, trace: seq<State>, events: seq<Event>, p: nat, rest: Tree)
    returns (trace': seq<State>, events': seq<Event>)
    requires Steps(site, trace, events) && p in End(trace).procs
    requires End(trace).procs[p].job.UninstallJob? && End(trace).procs[p].pc.Held?
    requires var w, id := End(trace).world, End(trace).procs[p].job.id;
             id in w.tops && Claims(site, w.tops[id], id) && LeftOf(w.tops[id], Some(rest)) == Some(rest)
    ensures Steps(site, trace', events') && trace'[0] == trace[0] && Own(events, events', p)
    ensures var w, proc := End(trace).world, End(trace).procs[p];
            var closing := proc.(pc := Closing(false, false), entry := Top(w.tops, proc.job.id));
            End(trace') == State(w.(tops := w.tops[proc.job.id := rest]), End(trace).procs[p := closing])
  {
    trace', events' := ValidatedToRemove(site, trace, events, p);
    trace', events' := RemoveAndFinish(site, trace', events', p, Some(rest));
  }

  /**
   An install whose new tree is not renamed in, with a working rollback: the root is as before, and it returns
   an error.
   */
  lemma RollbackGoesThrough(site: Site, trace: seq<State>, events: seq<Event>, p: nat)
    returns (trace': seq<State>, events': seq<Event>)
    requires Steps(site, trace, events) && Ready(site, End(trace), p)
    requires End(trace).procs[p].job.id in End(trace).world.tops
    ensures Steps(site, trace', events') && trace'[0] == trace[0] && Own(events, events', p)
    ensures var w, id := End(trace).world, End(trace).procs[p].job.id;
            && End(trace').world == World(w.tops - {Previous(id)}, w.stages, w.locks)
            && Finished(End(trace), End(trace'), p) && Returns(trace', p, false, false)
  {
    var w, id := End(trace).world, End(trace).procs[p].job.id;
    var dir: string;
    PreviousIsOther(id);
    trace', events', dir := SealAndClear(site, trace, events, p, map[]);
    trace', events' := PutBack(site, trace', events', p);
    trace', events' := Discarded(site, trace', events', p);
    assert w.stages[dir := map[]] - {dir} == w.stages && w.locks + {id} - {id} == w.locks;
  }

  /** From a cleared backup: the old tree renamed away, and the new one not renamed in. */
  lemma MovedAside(site: Site, trace: seq<State>, events: seq<Event>, p: nat)
    returns (trace': seq<State>, events': seq<Event>)
    requires Steps(site, trace, events) && p in End(trace).procs && End(trace).procs[p].pc.Cleared?
    requires var id := End(trace).procs[p].job.id;
             id in End(trace).world.tops && Previous(id) !in End(trace).world.tops
    ensures Steps(site, trace', events') && trace'[0] == trace[0] && Own(events, events', p)
    ensures var w, proc := End(trace).world, End(trace).procs[p];
            var id := proc.job.id;
            End(trace') == State(w.(tops := (w.tops - {id})[Previous(id) := w.tops[id]]),
                                 End(trace).procs[p := proc.(pc := RollingBack)])
  {
    PreviousIsOther(End(trace).procs[p].job.id);
    trace', events' := OneMoreStep(site, trace, events, p, RenameOld(true));
    trace', events' := OneMoreStep(site, trace', events', p, RenameNew(false));
  }

  lemma PutBack(site: Site, trace: seq<State>, events: seq<Event>, p: nat)
    returns (trace': seq<State>, events': seq<Event>)
    requires Steps(site, trace, events) && p in End(trace).procs && End(trace).procs[p].pc.Cleared?
    requires var id := End(trace).procs[p].job.id;
             id in End(trace).world.tops && Previous(id) !in End(trace).world.tops
    ensures Steps(site, trace', events') && trace'[0] == trace[0] && Own(events, events', p)
    ensures var proc := End(trace).procs[p];
            End(trace') == State(End(trace).world, End(trace).procs[p := proc.(pc := Discarding(false))])
  {
    var w, id := End(trace).world, End(trace).procs[p].job.id;
    PreviousIsOther(id);
    trace', events' := MovedAside(site, trace, events, p);
    trace', events' := OneMoreStep(site, trace', events', p, Rollback(true));
    assert (w.tops - {id})[Previous(id) := w.tops[id]] - {Previous(id)} == w.tops - {id};
    assert (w.tops - {id})[id := w.tops[id]] == w.tops;
  }

  // ----- the backup as the only copy

  /**
   An install over an empty root: the states of its program after the lock, and its root still empty until
   promotion.
   */
  ghost predicate Retrying(p: Proc, w: World) {
    && p.job.InstallJob? && p.entry.None?
    && match p.pc {
      case Held => p.job.id !in w.tops
      case Validated => p.job.id !in w.tops
      case Staging => p.job.id !in w.tops
      case Sealed => p.job.id !in w.tops
      case Cleared => p.job.id !in w.tops
      case OldMoved(had) => !had
      case Promoted(had) => !had
      case Discarding(_) => true
      case Closing(_, _) => true
      case _ => false
    }
  }

  /** This event is a clearing of the backup by that process. */
  predicate Clears(e: Event, pid: nat) {
    e.pid == pid && e.action.ClearBackup?
  }

  /** Whether that process has come to the promotion, which begins with clearing the backup. */
  ghost predicate ComesToPromotion(events: seq<Event>, pid: nat, i: nat, j: nat)
    requires j <= |events|
  {
    exists k :: i <= k < j && Clears(events[k], pid)
  }

  /** This event is not a clearing of the backup by that process that removes anything of the tree. */
  ghost predicate CutsNothing(e: Event, pid: nat, t: Tree) {
    Clears(e, pid) ==> LeftOf(t, e.action.left) == Some(t)
  }

  /** None of these events is one. */
  ghost predicate ClearedNothing(events: seq<Event>, pid: nat, i: nat, j: nat, t: Tree)
    requires j <= |events|
  {
    forall k :: i <= k < j ==> CutsNothing(events[k], pid, t)
  }

  lemma ClearedOneMore(events: seq<Event>, pid: nat, i: nat, n: nat, t: Tree)
    requires i <= n < |events|
    ensures ClearedNothing(events, pid, i, n + 1, t) <==>
            ClearedNothing(events, pid, i, n, t) && CutsNothing(events[n], pid, t)
  {
  }

  /** Some of the tree is gone from the backup name, and what is left is part of it. */
  ghost predicate Damaged(backup: Option<Tree>, t: Tree) {
    backup.Some? ==> Remnant(backup.value, t) && backup.value != t
  }

  /** One of its clearings worked. */
  ghost predicate ClearedAll(events: seq<Event>, pid: nat, i: nat, j: nat)
    requires j <= |events|
  {
    exists k :: i <= k < j && events[k] == Event(pid, ClearBackup(None))
  }

  /** Before the promotion, and in it, as far as the program counter alone tells. */
  predicate Early(pc: Pc) {
    pc.Held? || pc.Validated? || pc.Staging? || pc.Sealed?
  }

  predicate Late(pc: Pc) {
    pc.Cleared? || pc.OldMoved? || pc.Promoted?
  }

  lemma RetryCall(site: Site, p: Proc, w: World, a: Action)
    requires Retrying(p, w) && Act(site, p, w, a).Some?
    ensures var l := Act(site, p, w, a).value;
            && l.proc.job == p.job && (Retrying(l.proc, l.world) || l.proc.pc.Ended?)
            && (!a.ClearBackup? ==> Top(l.world.tops, Previous(p.job.id)) == Top(w.tops, Previous(p.job.id)))
            && (a.ClearBackup? ==> l.world.tops == RemoveAll(w.tops, Previous(p.job.id), a.left))
            && (Early(l.proc.pc) ==> Early(p.pc) && !a.ClearBackup?)
            && (Late(l.proc.pc) ==> Late(p.pc) || a.ClearBackup?)
  {
    PreviousIsOther(p.job.id);
  }

  lemma ClearingOnce(tops: Tops, name: string, left: Option<Tree>, t: Tree)
    ensures Top(tops, name) == Some(t) ==>
              if LeftOf(t, left) == Some(t) then Top(RemoveAll(tops, name, left), name) == Some(t)
              else Damaged(Top(RemoveAll(tops, name, left), name), t)
    ensures Damaged(Top(tops, name), t) ==> Damaged(Top(RemoveAll(tops, name, left), name), t)
  {
    if name in tops && left.Some? {
      var rest := RemoveAll(tops, name, left)[name];
      assert rest.Keys <= tops[name].Keys;
      assert rest == t && Remnant(tops[name], t) ==> tops[name] == t;
    }
  }

  /** What one event of any process does to a retry and to the backup it runs over. */
  ghost predicate RetryMoves(e: Event, pid: nat, t: Tree, st: State, st': State) {
    && pid in st.procs && pid in st'.procs && st'.procs[pid].job == st.procs[pid].job
    && (Retrying(st'.procs[pid], st'.world) || st'.procs[pid].pc.Ended?)
    && (Early(st'.procs[pid].pc) ==> Early(st.procs[pid].pc) && !Clears(e, pid))
    && (Late(st'.procs[pid].pc) ==> Late(st.procs[pid].pc) || Clears(e, pid))
    && var name := Previous(st.procs[pid].job.id);
       var before, after := Top(st.world.tops, name), Top(st'.world.tops, name);
       && (before == Some(t) ==> if CutsNothing(e, pid, t) then after == Some(t) else Damaged(after, t))
       && (Damaged(before, t) ==> Damaged(after, t))
       && (before.None? || e == Event(pid, ClearBackup(None)) ==> after.None?)
  }

  lemma RetryStep(site: Site, st: State, e: Event, pid: nat, t: Tree)
    requires Inv(site, st) && Enabled(site, st, e) && pid in st.procs && Apart(st.procs, pid)
    requires Retrying(st.procs[pid], st.world)
    ensures RetryMoves(e, pid, t, st, Apply(site, st, e))
  {
    if e.pid == pid {
      RetryCall(site, st.procs[pid], st.world, e.action);
      if e.action.ClearBackup? {
        ClearingOnce(st.world.tops, Previous(st.procs[pid].job.id), e.action.left, t);
      }
    } else {
      TopsOfOther(site, st, e, pid);
    }
  }

  lemma RetryEvent(site: Site, trace: seq<State>, events: seq<Event>, n: nat, pid: nat, t: Tree)
    requires Run(site, trace, events) && n < |events| && pid in trace[n].procs
    requires Retrying(trace[n].procs[pid], trace[n].world) && Apart(trace[n].procs, pid)
    ensures RetryMoves(events[n], pid, t, trace[n], trace[n + 1])
  {
    RunKeepsInv(site, trace, events, n);
    RetryStep(site, trace[n], events[n], pid, t);
  }

  lemma ApartInRun(site: Site, trace: seq<State>, events: seq<Event>, pid: nat, n: nat)
    requires Run(site, trace, events) && n < |trace| && pid in trace[0].procs && Apart(trace[0].procs, pid)
    ensures pid in trace[n].procs && Apart(trace[n].procs, pid)
  {
    JobsStay(site, trace, events, n);
    ApartStays(trace[0].procs, trace[n].procs, pid);
  }

  lemma NotEndedBefore(site: Site, trace: seq<State>, events: seq<Event>, pid: nat, n: nat)
    requires Steps(site, trace, events) && n < |events|
    requires pid in trace[n + 1].procs && !trace[n + 1].procs[pid].pc.Ended?
    ensures pid in trace[n].procs && !trace[n].procs[pid].pc.Ended?
  {
    assert trace[n + 1] == Apply(site, trace[n], events[n]);
  }

  /** The event with which a retry begins: its bundle's lock is free, its root empty, and its backup `t`. */
  ghost predicate RetryBegins(st: State, e: Event, pid: nat, t: Tree) {
    && e == Event(pid, Lock) && pid in st.procs && st.procs[pid].job.InstallJob?
    && st.procs[pid].job.id !in st.world.locks && st.procs[pid].job.id !in st.world.tops
    && Top(st.world.tops, Previous(st.procs[pid].job.id)) == Some(t)
  }

  /** A retry that began at event `i`, as it stands after the events before `j`. */
  ghost predicate StillRetrying(events: seq<Event>, pid: nat, i: nat, j: nat, t: Tree, job: Job, st: State)
    requires j <= |events|
  {
    && pid in st.procs && st.procs[pid].job == job && Retrying(st.procs[pid], st.world)
    && (Early(st.procs[pid].pc) ==> !ComesToPromotion(events, pid, i, j))
    && (Late(st.procs[pid].pc) ==> ComesToPromotion(events, pid, i, j))
    && var backup := Top(st.world.tops, Previous(job.id));
       && (if ClearedNothing(events, pid, i, j, t) then backup == Some(t) else Damaged(backup, t))
       && (ClearedAll(events, pid, i, j) ==> backup.None?)
  }

  lemma EventsOneMore(events: seq<Event>, pid: nat, i: nat, n: nat)
    requires i <= n < |events|
    ensures ComesToPromotion(events, pid, i, n + 1) <==> ComesToPromotion(events, pid, i, n) || Clears(events[n], pid)
    ensures ClearedAll(events, pid, i, n + 1) <==>
            ClearedAll(events, pid, i, n) || events[n] == Event(pid, ClearBackup(None))
  {
    if ComesToPromotion(events, pid, i, n + 1) && !ComesToPromotion(events, pid, i, n) {
      var k :| i <= k < n + 1 && Clears(events[k], pid);
      assert k == n;
    }
  }

  lemma RetryGoesOn(events: seq<Event>, pid: nat, i: nat, n: nat, t: Tree, job: Job, st: State, st': State)
    requires i <= n < |events| && StillRetrying(events, pid, i, n, t, job, st)
    requires RetryMoves(events[n], pid, t, st, st') && !st'.procs[pid].pc.Ended?
    ensures StillRetrying(events, pid, i, n + 1, t, job, st')
  {
    ClearedOneMore(events, pid, i, n, t);
    EventsOneMore(events, pid, i, n);
  }

  lemma RetryBegun(site: Site, trace: seq<State>, events: seq<Event>, pid: nat, i: nat, t: Tree)
    requires Run(site, trace, events) && i < |events| && RetryBegins(trace[i], events[i], pid, t)
    requires Apart(trace[i].procs, pid)
    ensures StillRetrying(events, pid, i, i + 1, t, trace[i].procs[pid].job, trace[i + 1])
  {
    RunKeepsInv(site, trace, events, i);
    assert Relies(site, trace[i].procs[pid], trace[i].world);
    assert events[i].action.Lock?;
  }

  lemma {:induction false} RetrySoFar(site: Site, trace: seq<State>, events: seq<Event>, pid: nat,
                                      i: nat, j: nat, t: Tree)
    requires Run(site, trace, events) && i < j < |trace| && pid in trace[j].procs && !trace[j].procs[pid].pc.Ended?
    requires RetryBegins(trace[i], events[i], pid, t)
    requires pid in trace[0].procs && Apart(trace[0].procs, pid)
    ensures StillRetrying(events, pid, i, j, t, trace[i].procs[pid].job, trace[j])
    decreases j
  {
    var n := j - 1;
    ApartInRun(site, trace, events, pid, n);
    if i == n {
      RetryBegun(site, trace, events, pid, i, t);
    } else {
      NotEndedBefore(site, trace, events, pid, n);
      RetrySoFar(site, trace, events, pid, i, n, t);
      RetryEvent(site, trace, events, n, pid, t);
      RetryGoesOn(events, pid, i, n, t, trace[i].procs[pid].job, trace[n], trace[j]);
    }
  }

  /**
   After a failed rollback the old tree's one copy is the backup. From the moment a retry takes its lock, in any run and
   however the retry goes on: until it comes to the promotion the copy is whole, and from there on exactly if clearing
   the backup has removed nothing of it; once the clearing has worked there is no copy.
   */
  lemma BackupSurvivesRetry(site: Site, trace: seq<State>, events: seq<Event>, pid: nat, i: nat, j: nat, t: Tree)
    requires Run(site, trace, events) && i < j < |trace| && pid in trace[j].procs && !trace[j].procs[pid].pc.Ended?
    requires RetryBegins(trace[i], events[i], pid, t)
    requires pid in trace[0].procs && Apart(trace[0].procs, pid)
    ensures var backup := Top(trace[j].world.tops, Previous(trace[i].procs[pid].job.id));
            && (backup == Some(t) <==> !ComesToPromotion(events, pid, i, j) || ClearedNothing(events, pid, i, j, t))
            && (ClearedAll(events, pid, i, j) ==> backup.None?)
            && (backup.Some? ==> Remnant(backup.value, t))
    ensures Early(trace[j].procs[pid].pc) ==> !ComesToPromotion(events, pid, i, j)
    ensures Late(trace[j].procs[pid].pc) ==> ComesToPromotion(events, pid, i, j)
  {
    RetrySoFar(site, trace, events, pid, i, j, t);
  }

  /**
   "The old tree is kept", read off the start: with the one copy at the backup name of an empty root, no run takes
   it away if and only if the bundle has no install to come, or a stale lock keeps all of them out.
   */
  lemma BackupIsKept(site: Site, st0: State, id: string)
    requires Fresh(st0) && Previous(id) in st0.world.tops
    requires forall p :: p in st0.procs ==> st0.procs[p].job.id != Previous(id)
    ensures NeverTouched(site, st0, Previous(id)) <==> !CanPass(site, st0, id)
    ensures id !in st0.world.tops ==>
              (NeverTouched(site, st0, Previous(id)) <==> !HasInstall(st0.procs, id) || id in st0.world.locks)
  {
    StemOfPrevious(id, Previous(id));
    OtherBundlesUntouched(site, st0, Previous(id));
  }

  /**
   The loss on a run: from any claimed root with two installs to come, a failed rename and a failed rollback in the
   first and a failed rename in the second leave the old tree nowhere, with both installs over.
   */
  lemma RetryLosesTheBackup(site: Site, st0: State, p: nat, q: nat) returns (trace: seq<State>, events: seq<Event>)
    requires Fresh(st0) && p in st0.procs && q in st0.procs && p != q
    requires st0.procs[p].job.InstallJob? && st0.procs[q].job == st0.procs[p].job
    requires var id := st0.procs[p].job.id;
             id !in st0.world.locks && id in st0.world.tops && Claims(site, st0.world.tops[id], id)
    ensures Steps(site, trace, events) && trace[0] == st0
    ensures var id := st0.procs[p].job.id;
            && End(trace).world == World(st0.world.tops - {id} - {Previous(id)}, st0.world.stages, st0.world.locks)
            && p in End(trace).procs && End(trace).procs[p].pc.Ended?
            && q in End(trace).procs && End(trace).procs[q].pc.Ended?
  {
    trace, events := FailedRollback(site, [st0], [], p);
    trace, events := FailedRetry(site, trace, events, q);
  }

  /** From a finished stage: the old tree renamed away, the new one not renamed in, and the rollback failing. */
  lemma LeftAside(site: Site, trace: seq<State>, events: seq<Event>, p: nat)
    returns (trace': seq<State>, events': seq<Event>)
    requires Steps(site, trace, events) && p in End(trace).procs
    requires End(trace).procs[p].pc.Cleared?
    requires var id := End(trace).procs[p].job.id;
             id in End(trace).world.tops && Previous(id) !in End(trace).world.tops
    ensures Steps(site, trace', events') && trace'[0] == trace[0] && Own(events, events', p)
    ensures var w, proc := End(trace).world, End(trace).procs[p];
            var id := proc.job.id;
            End(trace') == State(w.(tops := (w.tops - {id})[Previous(id) := w.tops[id]]),
                                 End(trace).procs[p := proc.(pc := Discarding(true))])
  {
    PreviousIsOther(End(trace).procs[p].job.id);
    trace', events' := MovedAside(site, trace, events, p);
    trace', events' := OneMoreStep(site, trace', events', p, Rollback(false));
  }

  /** From a cleared backup over an empty root: the new tree not renamed in. */
  lemma NotRenamedIn(site: Site, trace: seq<State>, events: seq<Event>, p: nat)
    returns (trace': seq<State>, events': seq<Event>)
    requires Steps(site, trace, events) && p in End(trace).procs && End(trace).procs[p].pc.Cleared?
    requires End(trace).procs[p].job.id !in End(trace).world.tops
    ensures Steps(site, trace', events') && trace'[0] == trace[0] && Own(events, events', p)
    ensures var proc := End(trace).procs[p];
            End(trace') == State(End(trace).world, End(trace).procs[p := proc.(pc := Discarding(false))])
  {
    trace', events' := OneMoreStep(site, trace, events, p, RenameOld(true));
    trace', events' := OneMoreStep(site, trace', events', p, RenameNew(false));
  }

  /** An install whose renames fail after the first: the root is gone and its tree is at the backup name. */
  lemma FailedRollback(site: Site, trace: seq<State>, events: seq<Event>, p: nat)
    returns (trace': seq<State>, events': seq<Event>)
    requires Steps(site, trace, events) && Ready(site, End(trace), p)
    requires End(trace).procs[p].job.id in End(trace).world.tops
    ensures Steps(site, trace', events') && trace'[0] == trace[0] && Own(events, events', p)
    ensures var w, proc := End(trace).world, End(trace).procs[p];
            var id := proc.job.id;
            && End(trace').world == World((w.tops - {id})[Previous(id) := w.tops[id]], w.stages, w.locks)
            && Finished(End(trace), End(trace'), p) && Returns(trace', p, false, true)
  {
    var w, id := End(trace).world, End(trace).procs[p].job.id;
    PreviousIsOther(id);
    var dir: string;
    trace', events', dir := SealAndClear(site, trace, events, p, map[]);
    trace', events' := LeftAside(site, trace', events', p);
    trace', events' := Discarded(site, trace', events', p);
    assert (w.tops - {Previous(id)} - {id})[Previous(id) := w.tops[id]] == (w.tops - {id})[Previous(id) := w.tops[id]];
    assert w.stages[dir := map[]] - {dir} == w.stages && w.locks + {id} - {id} == w.locks;
  }

  /** An install over an empty root whose rename fails: whatever was at the backup name is gone. */
  lemma FailedRetry(site: Site, trace: seq<State>, events: seq<Event>, p: nat)
    returns (trace': seq<State>, events': seq<Event>)
    requires Steps(site, trace, events) && Ready(site, End(trace), p)
    requires End(trace).procs[p].job.id !in End(trace).world.tops
    ensures Steps(site, trace', events') && trace'[0] == trace[0] && Own(events, events', p)
    ensures var w, id := End(trace).world, End(trace).procs[p].job.id;
            && End(trace').world == World(w.tops - {Previous(id)}, w.stages, w.locks)
            && Finished(End(trace), End(trace'), p) && Returns(trace', p, false, false)
  {
    var w, id := End(trace).world, End(trace).procs[p].job.id;
    PreviousIsOther(id);
    var dir: string;
    trace', events', dir := SealAndClear(site, trace, events, p, map[]);
    trace', events' := NotRenamedIn(site, trace', events', p);
    trace', events' := Discarded(site, trace', events', p);
    assert w.stages[dir := map[]] - {dir} == w.stages && w.locks + {id} - {id} == w.locks;
  }
}
