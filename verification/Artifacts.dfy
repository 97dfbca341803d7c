/**
 Artifacts of a finished command: the check that a path meets no symlink on its way, and what it means for
 the kernel's own resolution of that path.
 */
module Artifacts {
  import opened Wrappers
  import opened CleanPath
  import opened FileTree

  // ----- no symlink on the way

  datatype Verdict = Clear | Blocked

  /** Every ancestor of `p[..n]` is a directory. */
  ghost predicate Reachable(t: Tree, p: Path, n: nat)
    requires n <= |p|
  {
    forall m :: 0 <= m < n ==> IsDir(t, p[..m])
  }

  /** As far as the path exists it has no symlink, and no file where a directory is needed. */
  ghost predicate Plain(t: Tree, p: Path) {
    forall n :: 0 < n <= |p| && Reachable(t, p, n) && p[..n] in t ==>
      !t[p[..n]].Link? && (n < |p| ==> t[p[..n]].Dir?)
  }

  /** The way from the root to the path: "." is the root itself, and an empty way means that the two are one. */
  datatype Way = Here | Below(rel: Path)

  /**
   The whole check. The root must exist and not be a symlink, whatever the path, unless it is "."; a path that
   leaves it is refused, and one below it needs a directory at the root and a plain way down.
   */
  ghost predicate Passes(t: Tree, root: Option<Node>, way: Way) {
    || way.Here?
    || (root.Some? && !root.value.Link? &&
        (way.rel == [] || (way.rel[0] != UP && root.value.Dir? && Plain(t, way.rel))))
  }

  method RejectSymlinkComponents(t: Tree, root: Option<Node>, way: Way) returns (v: Verdict)
    ensures v == Clear <==> Passes(t, root, way)
  {
    if way.Here? {
      return Clear;
    }
    if root.None? || root.value.Link? {
      return Blocked;
    }
    if way.rel == [] {
      return Clear;
    }
    if way.rel[0] == UP || !root.value.Dir? {
      return Blocked;
    }
    v := RejectBelow(t, way.rel);
  }

  /** The component walk: a name that does not exist ends it well, a symlink or a file in the way does not. */
  method RejectBelow(t: Tree, p: Path) returns (v: Verdict)
    requires p != []
    ensures v == Clear <==> Plain(t, p)
  {
    var n := 0;
    while n < |p|
      invariant n <= |p| && Reachable(t, p, n) && (n < |p| ==> IsDir(t, p[..n]))
      invariant forall m :: 0 < m <= n && p[..m] in t ==> !t[p[..m]].Link? && (m < |p| ==> t[p[..m]].Dir?)
    {
      var cur := p[..n + 1];
      assert Reachable(t, p, n + 1);
      if cur !in t {
        assert forall m :: n + 1 < m <= |p| ==> !(Reachable(t, p, m) && IsDir(t, p[..n + 1]));
        return Clear;
      }
      if t[cur].Link? || (n + 1 < |p| && !t[cur].Dir?) {
        return Blocked;
      }
      n := n + 1;
    }
    return Clear;
  }

  /**
   A path the check clears resolves to itself: the kernel, resolving it component by component, stays on it for
   every number of steps and can only end at that very path.
   */
  lemma {:induction false} ClearPathsResolveToThemselves(t: Tree, p: Path, n: nat, steps: nat)
    requires AllOrdinary(p) && Plain(t, p) && n <= |p| && Reachable(t, p, n) && (n == 0 || n == |p| || IsDir(t, p[..n]))
    requires n == |p| ==> IsDir(t, p)
    ensures match Resolve(t, At(p[..n], p[n..]), steps) {
              case At(cur, pending) => cur + pending == p
              case Reached(q) => q == p
              case Missing(q) => q == p
              case Dangling => true
              case _ => false
            }
    decreases steps
  {
    if steps > 0 {
      var w := At(p[..n], p[n..]);
      if n == |p| {
        assert p[..n] == p;
        ResolveStops(t, Reached(p), steps - 1);
      } else {
        var q := p[..n + 1];
        assert p[..n] + [p[n]] == q && p[n..][1..] == p[n + 1..];
        assert Ordinary(p[n]);
        assert Reachable(t, p, n + 1) by { assert p[..0] == []; }
        if q in t && t[q].Dir? {
          assert n + 1 == |p| ==> q == p;
          ClearPathsResolveToThemselves(t, p, n + 1, steps - 1);
        } else {
          assert p[n + 1..] == [] <==> q == p;
          ResolveStops(t, Step(t, w), steps - 1);
        }
      }
    } else {
      assert p[..n] + p[n..] == p;
    }
  }

  // ----- what a cleared path means from above the root

  /** `t` is what the host has below `root`. */
  ghost predicate IsBelow(host: Tree, root: Path, t: Tree) {
    forall p :: p != [] ==> (p in t <==> root + p in host) && (p in t ==> t[p] == host[root + p])
  }

  function NodeAt(host: Tree, p: Path): Option<Node> {
    if p in host then Some(host[p]) else None
  }

  /** The kernel's walk to the path, from the directory the root is in. */
  function FromAbove(root: Path, rel: Path): Walk
    requires root != []
  {
    At(Parent(root), [root[|root| - 1]] + rel)
  }

  ghost predicate Setting(host: Tree, root: Path, t: Tree) {
    && WellFormed(host) && root != [] && AllOrdinary(root) && IsDir(host, Parent(root)) && IsBelow(host, root, t)
  }

  lemma {:induction false} PrefixReal(host: Tree, q: Path, k: nat)
    requires WellFormed(host) && q in host && 0 < k < |q|
    ensures q[..k] in host && host[q[..k]].Dir?
    decreases |q|
  {
    var parent := Parent(q);
    assert IsDir(host, parent) && parent != [];
    if k < |q| - 1 {
      PrefixReal(host, parent, k);
      assert parent[..k] == q[..k];
    }
  }

  lemma BelowReal(host: Tree, root: Path, t: Tree, p: Path, n: nat)
    requires Setting(host, root, t) && root + p in host && 0 < n < |p|
    ensures p[..n] in t && t[p[..n]].Dir?
  {
    var q, k := root + p, |root| + n;
    PrefixReal(host, q, k);
    assert q[..k] == root + p[..n] && p[..n] != [];
  }

  lemma RootReal(host: Tree, root: Path, t: Tree, p: Path)
    requires Setting(host, root, t) && root + p in host && p != []
    ensures root in host && host[root].Dir? && Ordinary(p[0])
  {
    PrefixReal(host, root + p, |root|);
    assert (root + p)[..|root|] == root && (root + p)[|root|] == p[0];
  }

  /** What of a cleared walk is left to do, and where it may end. */
  ghost predicate OnTheWay(w: Walk, p: Path) {
    match w
    case At(cur, pending) => cur + pending == p
    case Reached(q) => q == p
    case Missing(q) => q == p
    case Dangling => true
    case _ => false
  }

  /** A walk over real directories along `p`, of which `n` names are passed, with no symlink at the next name. */
  lemma {:induction false} StaysOnTheWay(host: Tree, p: Path, n: nat, steps: nat)
    requires n <= |p| && AllOrdinary(p) && IsDir(host, p[..n])
    requires forall m :: n < m <= |p| && p[..m] in host && (forall k :: n <= k < m ==> IsDir(host, p[..k])) ==>
               !host[p[..m]].Link? && (m < |p| ==> host[p[..m]].Dir?)
    ensures OnTheWay(Resolve(host, At(p[..n], p[n..]), steps), p)
    decreases steps
  {
    assert p[..n] + p[n..] == p;
    if steps > 0 {
      var w := At(p[..n], p[n..]);
      if n == |p| {
        ResolveStops(host, Reached(p), steps - 1);
        assert p[..n] == p && Step(host, w) == Reached(p);
      } else {
        var q := p[..n + 1];
        assert p[..n] + [p[n]] == q && p[n..][1..] == p[n + 1..] && Ordinary(p[n]);
        if q in host && host[q].Dir? {
          StaysOnTheWay(host, p, n + 1, steps - 1);
        } else {
          assert p[n + 1..] == [] <==> q == p;
          ResolveStops(host, Step(host, w), steps - 1);
        }
      }
    }
  }

  lemma PassesMeansPlainBelow(host: Tree, root: Path, t: Tree, rel: Path)
    requires Setting(host, root, t) && IsClean(false, rel) && Passes(t, NodeAt(host, root), Below(rel))
    ensures AllOrdinary(root + rel)
    ensures forall m :: |root| <= m <= |root + rel| && (root + rel)[..m] in host
                        && (forall k :: |root| <= k < m ==> IsDir(host, (root + rel)[..k])) ==>
              !host[(root + rel)[..m]].Link? && (m < |root + rel| ==> host[(root + rel)[..m]].Dir?)
  {
    var p := root + rel;
    if rel != [] {
      assert Ups(rel) == 0;
    }
    assert p[..|root|] == root;
    forall m | |root| < m <= |p| && p[..m] in host && forall k :: |root| <= k < m ==> IsDir(host, p[..k])
      ensures !host[p[..m]].Link? && (m < |p| ==> host[p[..m]].Dir?)
    {
      var n := m - |root|;
      assert p[..m] == root + rel[..n];
      forall k | 0 <= k < n
        ensures IsDir(t, rel[..k])
      {
        assert p[..|root| + k] == root + rel[..k];
      }
      assert Reachable(t, rel, n);
    }
  }

  /**
   A cleared path means, for the kernel, that path and no other: resolved from above the root, it stays on the way to
   it for every number of steps, and can only end at it.
   */
  lemma ClearedStaysFromAbove(host: Tree, root: Path, t: Tree, rel: Path, steps: nat)
    requires Setting(host, root, t) && IsClean(false, rel) && Passes(t, NodeAt(host, root), Below(rel))
    ensures OnTheWay(Resolve(host, FromAbove(root, rel), steps), root + rel)
  {
    var p := root + rel;
    var n := |root| - 1;
    PassesMeansPlainBelow(host, root, t, rel);
    assert p[..n] == Parent(root) && p[n..] == [root[n]] + rel && p[..|root|] == root;
    forall m | n < m <= |p| && p[..m] in host && forall k :: n <= k < m ==> IsDir(host, p[..k])
      ensures !host[p[..m]].Link? && (m < |p| ==> host[p[..m]].Dir?)
    {
    }
    StaysOnTheWay(host, p, n, steps);
  }

  lemma RealIsPlain(t: Tree, rel: Path)
    requires forall n :: 0 < n < |rel| ==> rel[..n] in t && t[rel[..n]].Dir?
    requires rel in t ==> !t[rel].Link?
    ensures Plain(t, rel)
  {
    assert rel[..|rel|] == rel;
  }

  lemma ParentReal(host: Tree, root: Path, t: Tree, rel: Path)
    requires Setting(host, root, t) && root in host && rel != [] && IsDir(host, Parent(root + rel))
    ensures host[root].Dir?
    ensures forall n :: 0 < n < |rel| ==> rel[..n] in t && t[rel[..n]].Dir?
    ensures |rel| > 1 ==> rel[0] != UP
  {
    var above := Parent(rel);
    assert Parent(root + rel) == root + above;
    if |rel| == 1 {
      assert root + above == root;
    } else {
      RootReal(host, root, t, above);
      forall n | 0 < n < |rel|
        ensures rel[..n] in t && t[rel[..n]].Dir?
      {
        if n < |above| {
          BelowReal(host, root, t, above, n);
          assert above[..n] == rel[..n];
        } else {
          assert rel[..n] == above;
        }
      }
    }
  }

  /**
   Conversely, a path that the kernel, from above the root, resolves to itself, or to its own free name, is cleared,
   given that the root exists.
   */
  lemma EndsThereMeansCleared(host: Tree, root: Path, t: Tree, rel: Path, steps: nat)
    requires Setting(host, root, t) && root in host
    requires var w := Resolve(host, FromAbove(root, rel), steps);
             w == Reached(root + rel) || w == Missing(root + rel)
    ensures Passes(t, NodeAt(host, root), Below(rel))
  {
    var p := root + rel;
    ResolutionIsReal(host, FromAbove(root, rel), steps);
    if rel == [] {
      assert p == root;
    } else {
      assert p[|p| - 1] == rel[|rel| - 1];
      assert IsDir(host, Parent(p));
      ParentReal(host, root, t, rel);
      assert rel in t ==> t[rel] == host[p];
      RealIsPlain(t, rel);
      assert p in host ==> Ordinary(p[|root|]);
    }
  }
}
