/**
 Slash-separated paths: splitting, joining, and lexical cleaning as a stack machine over components,
 which is what Go's `path.Clean` (and `filepath.Clean` on Unix) computes.
 */
module CleanPath {

  /** A path as its components; the empty sequence prints as "." (relative) or "/" (rooted). */
  type Path = seq<string>

  const DOT := "."
  const UP := ".."

  /** A name that stands for one directory entry. */
  predicate Ordinary(c: string) {
    c != "" && c != DOT && c != UP && '/' !in c
  }

  predicate AllOrdinary(p: Path) {
    forall i :: 0 <= i < |p| ==> Ordinary(p[i])
  }

  function Parent(p: Path): Path
    requires p != []
  {
    p[..|p| - 1]
  }

  function Split(s: string): (cs: Path)
    ensures |cs| > 0
    ensures forall i, j :: 0 <= i < |cs| && 0 <= j < |cs[i]| ==> cs[i][j] != '/' && cs[i][j] in s
  {
    if s == "" then [""]
    else
      var rest := Split(s[1..]);
      if s[0] == '/' then [""] + rest else [[s[0]] + rest[0]] + rest[1..]
  }

  function Join(cs: Path): string {
    if |cs| == 0 then ""
    else if |cs| == 1 then cs[0]
    else cs[0] + "/" + Join(cs[1..])
  }

  lemma {:induction false} SplitPrefix(c: string, s: string)
    requires '/' !in c
    ensures Split(c + s) == [c + Split(s)[0]] + Split(s)[1..]
  {
    if c == "" {
      assert c + s == s && c + Split(s)[0] == Split(s)[0];
    } else {
      var t := c + s;
      assert t[0] == c[0] && t[0] != '/' && t[1..] == c[1..] + s;
      SplitPrefix(c[1..], s);
      calc {
        Split(t);
        [[c[0]] + Split(t[1..])[0]] + Split(t[1..])[1..];
        [[c[0]] + (c[1..] + Split(s)[0])] + Split(s)[1..];
        { assert [c[0]] + (c[1..] + Split(s)[0]) == c + Split(s)[0]; }
        [c + Split(s)[0]] + Split(s)[1..];
      }
    }
  }

  /** Splitting what was joined gives the components back. */
  lemma {:induction false} SplitOfJoin(cs: Path)
    requires |cs| > 0 && forall i :: 0 <= i < |cs| ==> '/' !in cs[i]
    ensures Split(Join(cs)) == cs
  {
    if |cs| == 1 {
      SplitPrefix(cs[0], "");
      assert cs[0] + "" == cs[0];
      assert Split("") == [""];
    } else {
      SplitOfJoin(cs[1..]);
      var rest := "/" + Join(cs[1..]);
      SplitPrefix(cs[0], rest);
      assert rest[1..] == Join(cs[1..]);
      assert Split(rest) == [""] + cs[1..];
      assert cs[0] + "" == cs[0];
      assert Join(cs) == cs[0] + rest;
    }
  }

  lemma {:induction false} JoinChars(cs: Path, bad: char)
    requires bad != '/' && forall i :: 0 <= i < |cs| ==> bad !in cs[i]
    ensures bad !in Join(cs)
  {
    if |cs| > 1 {
      JoinChars(cs[1..], bad);
    }
  }

  // ----- cleaning

  /** One component pushed on the cleaned prefix: ".." pops an ordinary name, and is dropped at the root. */
  function Push(rooted: bool, stack: Path, c: string): Path {
    if c == "" || c == DOT then stack
    else if c != UP then stack + [c]
    else if stack != [] && stack[|stack| - 1] != UP then Parent(stack)
    else if rooted then stack
    else stack + [UP]
  }

  function PushAll(rooted: bool, stack: Path, cs: Path): Path
    decreases |cs|
  {
    if cs == [] then stack else PushAll(rooted, Push(rooted, stack, cs[0]), cs[1..])
  }

  function Clean(rooted: bool, cs: Path): Path {
    PushAll(rooted, [], cs)
  }

  /** The number of leading ".." components. */
  function Ups(p: Path): (k: nat)
    ensures k <= |p|
    ensures forall i :: 0 <= i < k ==> p[i] == UP
    ensures k < |p| ==> p[k] != UP
  {
    if p != [] && p[0] == UP then 1 + Ups(p[1..]) else 0
  }

  /** The shape of every cleaned path: leading ".." only when relative, then ordinary names. */
  ghost predicate IsClean(rooted: bool, p: Path) {
    && (rooted ==> Ups(p) == 0)
    && forall i :: Ups(p) <= i < |p| ==> Ordinary(p[i])
  }

  lemma UpsIs(p: Path, k: nat)
    requires k <= |p| && (forall i :: 0 <= i < k ==> p[i] == UP) && (k < |p| ==> p[k] != UP)
    ensures Ups(p) == k
  {
  }

  lemma PushKeepsClean(rooted: bool, stack: Path, c: string)
    requires IsClean(rooted, stack) && '/' !in c
    ensures IsClean(rooted, Push(rooted, stack, c))
    ensures c == UP && Ups(stack) < |stack| ==> Ups(Push(rooted, stack, c)) == Ups(stack)
    ensures c == UP && Ups(stack) == |stack| ==> Ups(Push(rooted, stack, c)) == |Push(rooted, stack, c)|
  {
    var k := Ups(stack);
    if c == "" || c == DOT {
    } else if c != UP {
      UpsIs(stack + [c], k);
    } else if k < |stack| {
      UpsIs(Parent(stack), k);
    } else if !rooted {
      UpsIs(stack + [UP], k + 1);
    }
  }

  lemma {:induction false} PushAllKeepsClean(rooted: bool, stack: Path, cs: Path)
    requires IsClean(rooted, stack) && forall i :: 0 <= i < |cs| ==> '/' !in cs[i]
    ensures IsClean(rooted, PushAll(rooted, stack, cs))
    decreases |cs|
  {
    if cs != [] {
      PushKeepsClean(rooted, stack, cs[0]);
      PushAllKeepsClean(rooted, Push(rooted, stack, cs[0]), cs[1..]);
    }
  }

  lemma {:induction false} PushAllAppends(rooted: bool, stack: Path, a: Path, b: Path)
    ensures PushAll(rooted, stack, a + b) == PushAll(rooted, PushAll(rooted, stack, a), b)
    decreases |a|
  {
    if a == [] {
      assert a + b == b;
    } else {
      assert (a + b)[1..] == a[1..] + b;
      PushAllAppends(rooted, Push(rooted, stack, a[0]), a[1..], b);
    }
  }

  /** Nothing new appears: every component of a cleaned path was a component of the input. */
  lemma {:induction false} PushAllMembers(rooted: bool, stack: Path, cs: Path)
    ensures forall c :: c in PushAll(rooted, stack, cs) ==> c in stack || c in cs
    decreases |cs|
  {
    if cs != [] {
      PushAllMembers(rooted, Push(rooted, stack, cs[0]), cs[1..]);
    }
  }

  /** Names only extend the stack. */
  lemma {:induction false} PushOrdinary(rooted: bool, stack: Path, cs: Path)
    requires AllOrdinary(cs)
    ensures PushAll(rooted, stack, cs) == stack + cs
    decreases |cs|
  {
    if cs != [] {
      PushOrdinary(rooted, stack + [cs[0]], cs[1..]);
    }
  }

  /** Leading ".." components take away that many names, as far as there are names to take. */
  lemma {:induction false} PushUps(dir: Path, k: nat, ups: Path)
    requires AllOrdinary(dir) && |ups| == k && forall i :: 0 <= i < k ==> ups[i] == UP
    ensures k <= |dir| ==> PushAll(false, dir, ups) == dir[..|dir| - k]
    ensures k > |dir| ==> PushAll(false, dir, ups) == ups[..k - |dir|]
    decreases |dir|
  {
    if dir == [] {
      UpsOnUps([], ups);
    } else if k > 0 {
      PushUps(Parent(dir), k - 1, ups[1..]);
    }
  }

  lemma {:induction false} UpsOnUps(stack: Path, ups: Path)
    requires (forall i :: 0 <= i < |stack| ==> stack[i] == UP) && (forall i :: 0 <= i < |ups| ==> ups[i] == UP)
    ensures PushAll(false, stack, ups) == stack + ups
    decreases |ups|
  {
    if ups != [] {
      UpsOnUps(stack + [UP], ups[1..]);
      assert stack + [UP] + ups[1..] == stack + ups;
    }
  }

  /**
   A cleaned relative path laid over a real directory: it drops as many names as it has leading ".."
   and adds its own, and it climbs out exactly when it has more ".." than the directory has names.
   */
  lemma CleanOver(dir: Path, t: Path)
    requires AllOrdinary(dir) && IsClean(false, t)
    ensures Ups(t) <= |dir| ==> PushAll(false, dir, t) == dir[..|dir| - Ups(t)] + t[Ups(t)..]
    ensures Ups(t) > |dir| ==> PushAll(false, dir, t) == t[|dir|..]
    ensures Ups(PushAll(false, dir, t)) > 0 <==> Ups(t) > |dir|
  {
    var k := Ups(t);
    if k <= |dir| {
      CleanWithin(dir, t, k);
    } else {
      CleanBeyond(dir, t, k);
    }
  }

  lemma CleanWithin(dir: Path, t: Path, k: nat)
    requires AllOrdinary(dir) && k <= |t| && k <= |dir|
    requires (forall i :: 0 <= i < k ==> t[i] == UP) && AllOrdinary(t[k..])
    ensures PushAll(false, dir, t) == dir[..|dir| - k] + t[k..]
    ensures Ups(PushAll(false, dir, t)) == 0
  {
    assert t == t[..k] + t[k..];
    PushAllAppends(false, dir, t[..k], t[k..]);
    PushUps(dir, k, t[..k]);
    PushOrdinary(false, dir[..|dir| - k], t[k..]);
    OrdinaryHasNoUps(dir[..|dir| - k] + t[k..]);
  }

  lemma CleanBeyond(dir: Path, t: Path, k: nat)
    requires AllOrdinary(dir) && |dir| < k <= |t|
    requires (forall i :: 0 <= i < k ==> t[i] == UP) && AllOrdinary(t[k..])
    ensures PushAll(false, dir, t) == t[|dir|..]
    ensures Ups(PushAll(false, dir, t)) > 0
  {
    var ups := t[..k][..k - |dir|];
    assert t == t[..k] + t[k..];
    PushAllAppends(false, dir, t[..k], t[k..]);
    PushUps(dir, k, t[..k]);
    PushOrdinary(false, ups, t[k..]);
    UpsSlice(t, k, |dir|);
    assert t[|dir|..][0] == UP;
  }

  lemma UpsSlice(t: Path, k: nat, d: nat)
    requires d < k <= |t| && forall i :: 0 <= i < k ==> t[i] == UP
    ensures t[..k][..k - d] + t[k..] == t[d..]
  {
    assert t[d..] == t[d..k] + t[k..];
    assert t[d..k] == t[..k][..k - d];
  }

  lemma OrdinaryHasNoUps(p: Path)
    requires AllOrdinary(p)
    ensures Ups(p) == 0
  {
  }

  /** Cleaning is idempotent: a cleaned path is its own cleaning. */
  lemma CleanIsIdempotent(rooted: bool, p: Path)
    requires IsClean(rooted, p)
    ensures Clean(rooted, p) == p
  {
    if rooted {
      PushOrdinary(true, [], p);
    } else {
      CleanOver([], p);
    }
  }

  /** How a cleaned relative path prints, and how it reads back. */
  function Show(p: Path): string {
    if p == [] then DOT else Join(p)
  }

  lemma ShowReadsBack(p: Path)
    requires IsClean(false, p)
    ensures Clean(false, Split(Show(p))) == p
  {
    if p == [] {
      SplitOfJoin([DOT]);
      assert Split(Show(p)) == [DOT];
      assert PushAll(false, [], [DOT]) == PushAll(false, Push(false, [], DOT), [DOT][1..]);
    } else {
      SplitOfJoin(p);
      CleanIsIdempotent(false, p);
    }
  }
}
