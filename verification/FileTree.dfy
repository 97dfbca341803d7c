/**
 A directory tree as a map from canonical component paths to nodes (the root itself is implicit),
 the few file-system calls the installer makes on one, and the kernel's way of resolving a path in it.
 */
module FileTree {
  import opened CleanPath

  datatype Node = Dir | File(content: string) | Link(target: string) | Special
  {
    predicate Leaf() {
      !Dir?
    }
  }

  type Tree = map<Path, Node>

  predicate IsDir(t: Tree, p: Path) {
    p == [] || (p in t && t[p].Dir?)
  }

  ghost predicate WellFormed(t: Tree) {
    forall p :: p in t ==> p != [] && AllOrdinary(p) && IsDir(t, Parent(p))
  }

  /** A call's outcome. `Followed` marks a call that would have had to go through a symlink. */
  datatype Outcome = Done(tree: Tree) | Refused | Followed

  function MkdirAll(t: Tree, p: Path): Outcome
    decreases |p|
  {
    if p == [] then Done(t)
    else match MkdirAll(t, Parent(p))
         case Done(t') =>
           if p !in t' then Done(t'[p := Dir])
           else (match t'[p]
                 case Dir => Done(t')
                 case Link(_) => Followed
                 case _ => Refused)
         case other => other
  }

  /** Open for writing with create and truncate, then write `content`. */
  function WriteFile(t: Tree, p: Path, content: string): Outcome
    requires p != []
  {
    if !IsDir(t, Parent(p)) then Refused
    else if p !in t then Done(t[p := File(content)])
    else match t[p]
         case File(_) => Done(t[p := File(content)])
         case Link(_) => Followed
         case _ => Refused
  }

  function Symlink(t: Tree, target: string, p: Path): Outcome
    requires p != []
  {
    if !IsDir(t, Parent(p)) || p in t then Refused else Done(t[p := Link(target)])
  }

  /** `p` and its ancestors below the root. */
  function Prefixes(p: Path): (s: set<Path>)
    decreases |p|
  {
    if p == [] then {} else Prefixes(Parent(p)) + {p}
  }

  lemma {:induction false} InPrefixes(q: Path, p: Path)
    ensures q in Prefixes(p) <==> q != [] && q <= p
    decreases |p|
  {
    if p != [] {
      InPrefixes(q, Parent(p));
      assert p == Parent(p) + [p[|p| - 1]];
      if q <= p {
        assert q == p[..|q|];
        if |q| < |p| {
          assert q == Parent(p)[..|q|];
        } else {
          assert q == p;
        }
      }
    }
  }

  /** Wherever `p` or an ancestor of it has a node, the node is a directory. */
  ghost predicate ClearPath(t: Tree, p: Path) {
    forall q :: q in Prefixes(p) && q in t ==> t[q].Dir?
  }

  /** `t` with directories at `qs` where it had nothing. */
  function AddDirs(t: Tree, qs: set<Path>): Tree {
    map q | q in t.Keys + qs :: if q in t then t[q] else Dir
  }

  lemma {:induction false} MkdirAllEffect(t: Tree, p: Path)
    ensures MkdirAll(t, p).Done? <==> ClearPath(t, p)
    ensures MkdirAll(t, p).Done? ==> MkdirAll(t, p).tree == AddDirs(t, Prefixes(p))
    ensures MkdirAll(t, p).Followed? ==> exists q :: q in Prefixes(p) && q in t && t[q].Link?
    decreases |p|
  {
    if p == [] {
      assert AddDirs(t, {}) == t;
    } else {
      MkdirAllEffect(t, Parent(p));
      InPrefixes(p, Parent(p));
      var ancestors := Prefixes(Parent(p));
      if MkdirAll(t, Parent(p)).Done? {
        var t' := AddDirs(t, ancestors);
        assert p in t' <==> p in t;
        if p !in t {
          assert t'[p := Dir] == AddDirs(t, ancestors + {p});
        } else {
          assert t' == AddDirs(t, ancestors + {p});
        }
      }
    }
  }

  // ----- path resolution, one component at a time

  datatype Walk =
    | At(cur: Path, pending: Path)
    | Reached(path: Path)
    | Missing(path: Path)
    | Dangling
    | Failed
    | Escaped

  /** One step from the real directory `cur` with `pending` components still to consume. */
  function Step(t: Tree, w: Walk): Walk {
    match w
    case At(cur, pending) =>
      if pending == [] then Reached(cur)
      else
        var c, rest := pending[0], pending[1..];
        if c == "" || c == DOT then At(cur, rest)
        else if c == UP then (if cur == [] then Escaped else At(Parent(cur), rest))
        else
          var q := cur + [c];
          if q !in t then (if rest == [] then Missing(q) else Dangling)
          else (match t[q]
                case Dir => At(q, rest)
                case Link(target) =>
                  if target != "" && target[0] == '/' then Escaped else At(cur, Split(target) + rest)
                case _ => if rest == [] then Reached(q) else Failed)
    case _ => w
  }

  function Resolve(t: Tree, w: Walk, steps: nat): Walk
    decreases steps
  {
    if steps == 0 then w else Resolve(t, Step(t, w), steps - 1)
  }

  lemma {:induction false} MissingIsAbsent(t: Tree, w: Walk, steps: nat)
    requires w.At? && Resolve(t, w, steps).Missing?
    ensures Resolve(t, w, steps).path !in t
    decreases steps
  {
    var next := Step(t, w);
    if next.At? {
      MissingIsAbsent(t, next, steps - 1);
    } else {
      ResolveStops(t, next, steps - 1);
    }
  }

  /** Putting a file where a resolution ended makes the same resolution end at that file. */
  lemma {:induction false} ResolvesToWritten(t: Tree, w: Walk, steps: nat, q: Path, content: string)
    requires w.At? && (q in t ==> t[q].File?)
    requires Resolve(t, w, steps) == Missing(q) || Resolve(t, w, steps) == Reached(q)
    ensures Resolve(t[q := File(content)], w, steps) == Reached(q)
    decreases steps
  {
    var t' := t[q := File(content)];
    var next := Step(t, w);
    if next.At? {
      assert Step(t', w) == next;
      ResolvesToWritten(t, next, steps - 1, q, content);
    } else {
      ResolveStops(t, next, steps - 1);
      assert Step(t', w) == Reached(q);
      ResolveStops(t', Reached(q), steps - 1);
    }
  }

  lemma {:induction false} ResolveStops(t: Tree, w: Walk, steps: nat)
    requires !w.At?
    ensures Resolve(t, w, steps) == w
    decreases steps
  {
    if steps > 0 {
      ResolveStops(t, w, steps - 1);
    }
  }

  /**
   Wherever a resolution is it is in a real directory, and where it ends is a node that is no symlink, or a
   free name.
   */
  ghost predicate Real(t: Tree, w: Walk) {
    match w
    case At(cur, _) => IsDir(t, cur)
    case Reached(q) => q == [] || (q in t && !t[q].Link?)
    case Missing(q) => q !in t && q != [] && IsDir(t, Parent(q)) && q[|q| - 1] != UP
    case _ => true
  }

  lemma StepIsReal(t: Tree, w: Walk)
    requires WellFormed(t) && Real(t, w)
    ensures Real(t, Step(t, w))
  {
    if w.At? && w.pending != [] {
      var q := w.cur + [w.pending[0]];
      assert Parent(q) == w.cur;
      if w.cur != [] {
        assert IsDir(t, Parent(w.cur));
      }
    }
  }

  lemma {:induction false} ResolutionIsReal(t: Tree, w: Walk, steps: nat)
    requires WellFormed(t) && Real(t, w)
    ensures Real(t, Resolve(t, w, steps))
    decreases steps
  {
    if steps > 0 {
      StepIsReal(t, w);
      ResolutionIsReal(t, Step(t, w), steps - 1);
    }
  }

  // ----- containment

  /** Links point, relative to their own directory, no higher than the root. */
  ghost predicate Contained(t: Tree) {
    && WellFormed(t)
    && forall p :: p in t && t[p].Link? ==> SafeTarget(p, t[p].target)
  }

  ghost predicate SafeTarget(p: Path, target: string)
    requires p != []
  {
    && target != "" && target[0] != '/'
    && IsClean(false, Split(target))
    && Ups(Split(target)) < |p|
  }

  /**
   The resolver's invariant: a real directory, and no more ".." ahead of the names than there are directories
   to leave.
   */
  ghost predicate Inside(t: Tree, w: Walk) {
    match w
    case At(cur, pending) => IsDir(t, cur) && AllOrdinary(cur) && IsClean(false, pending) && Ups(pending) <= |cur|
    case Reached(p) => p == [] || p in t
    case Missing(p) => p != [] && IsDir(t, Parent(p))
    case Dangling => true
    case Failed => true
    case Escaped => false
  }

  lemma UpsOfTail(p: Path)
    requires IsClean(false, p) && p != []
    ensures IsClean(false, p[1..])
    ensures Ups(p[1..]) == if Ups(p) > 0 then Ups(p) - 1 else 0
  {
    if Ups(p) == 0 {
      assert forall i :: 0 <= i < |p| ==> Ordinary(p[i]);
      UpsIs(p[1..], 0);
    }
  }

  /** Splicing a link's target in front of ordinary names keeps the shape, with the target's own ".." count. */
  lemma SpliceTarget(target: Path, rest: Path)
    requires IsClean(false, target) && target != [] && AllOrdinary(rest)
    ensures IsClean(false, target + rest) && Ups(target + rest) == Ups(target)
  {
    if Ups(target) < |target| {
      UpsIs(target + rest, Ups(target));
    } else {
      assert rest != [] ==> (target + rest)[|target|] == rest[0];
      UpsIs(target + rest, Ups(target));
    }
  }

  lemma StepUp(t: Tree, cur: Path, pending: Path)
    requires WellFormed(t) && Inside(t, At(cur, pending)) && pending != [] && pending[0] == UP
    ensures Inside(t, Step(t, At(cur, pending)))
  {
    UpsOfTail(pending);
    assert Ups(pending) > 0 && cur != [];
    assert IsDir(t, Parent(cur));
  }

  lemma StepName(t: Tree, cur: Path, pending: Path)
    requires Contained(t) && Inside(t, At(cur, pending)) && pending != [] && pending[0] != UP
    ensures Inside(t, Step(t, At(cur, pending)))
  {
    var c, rest := pending[0], pending[1..];
    UpsOfTail(pending);
    assert Ups(pending) == 0 && Ordinary(c);
    var q := cur + [c];
    assert Parent(q) == cur && q != [];
    if q in t && t[q].Link? {
      assert SafeTarget(q, t[q].target);
      SpliceTarget(Split(t[q].target), rest);
    }
  }

  lemma StepStaysInside(t: Tree, w: Walk)
    requires Contained(t) && Inside(t, w)
    ensures Inside(t, Step(t, w))
  {
    if w.At? && w.pending != [] {
      if w.pending[0] == UP {
        StepUp(t, w.cur, w.pending);
      } else {
        StepName(t, w.cur, w.pending);
      }
    }
  }

  /**
   Any path of ordinary names, through any number of symlinks, for any number of steps, never climbs above the
   root.
   */
  lemma {:induction false} ResolutionStaysInside(t: Tree, w: Walk, steps: nat)
    requires Contained(t) && Inside(t, w)
    ensures Inside(t, Resolve(t, w, steps))
    decreases steps
  {
    if steps > 0 {
      StepStaysInside(t, w);
      ResolutionStaysInside(t, Step(t, w), steps - 1);
    }
  }
}
