/** Where a working directory lands inside the container and on the host, and which values each side accepts. */
module PathMapping {
  import opened Wrappers
  import opened CleanPath
  import opened ArchivePaths

  function TrimLeft(s: string): string {
    if s != "" && IsSpace(s[0]) then TrimLeft(s[1..]) else s
  }

  function TrimRight(s: string): string {
    if s != "" && IsSpace(s[|s| - 1]) then TrimRight(s[..|s| - 1]) else s
  }

  /** `strings.TrimSpace`. */
  function Trim(s: string): string {
    TrimRight(TrimLeft(s))
  }

  const WORKSPACE: string := "workspace"

  /** The container path as components below "/", or a refusal. */
  function SandboxWorkingDir(value: string): Result<Path> {
    var v := Trim(value);
    if v == "" || v == DOT then Ok([WORKSPACE])
    else if IsAbs(v) || '\0' in v || '\r' in v || '\n' in v then Err
    else
      var cleaned := Clean(false, Split(v));
      if cleaned == [] then Ok([WORKSPACE])
      else if cleaned[0] == UP then Err
      else Ok(Clean(true, [WORKSPACE] + cleaned))
  }

  function CommonPrefix(a: Path, b: Path): (k: nat)
    ensures k <= |a| && k <= |b| && a[..k] == b[..k]
    ensures k < |a| && k < |b| ==> a[k] != b[k]
  {
    if a == [] || b == [] || a[0] != b[0] then 0
    else
      var k := CommonPrefix(a[1..], b[1..]);
      assert a[..k + 1] == [a[0]] + a[1..][..k] && b[..k + 1] == [b[0]] + b[1..][..k];
      k + 1
  }

  /** `filepath.Rel` of two cleaned paths, both rooted or both relative: up out of what is not shared, then down. */
  function Rel(base: Path, target: Path): Result<Path> {
    var k := CommonPrefix(base, target);
    if k < |base| && base[k] == UP then Err
    else Ok(seq(|base| - k, _ => UP) + target[k..])
  }

  /** The path named by `value` under `baseDir`, or a refusal; an empty value names the base itself. */
  function ResolveInside(baseDir: string, value: string): Result<Path> {
    var rooted := IsAbs(baseDir);
    var base := Clean(rooted, Split(baseDir));
    if value == "" then Ok(base)
    else if IsAbs(value) then Err
    else
      var path := Clean(rooted, Split(baseDir) + Split(value));
      if baseDir == "" then Ok(path)
      else match Rel(base, path)
           case Err => Err
           case Ok(rel) => if rel != [] && rel[0] == UP then Err else Ok(path)
  }

  // ----- cleaning below a real directory

  /** The directory `k` levels up; climbing stops at "/". */
  function Climb(dir: Path, k: nat): Path {
    if k <= |dir| then dir[..|dir| - k] else []
  }

  /** A cleaned relative path laid over an absolute directory. */
  function Over(dir: Path, t: Path): Path {
    Climb(dir, Ups(t)) + t[Ups(t)..]
  }

  lemma NameAtEnd(above: Path, t: Path, c: string, k: nat)
    requires k <= |t|
    ensures above + t[k..] + [c] == above + (t + [c])[k..]
  {
    assert (t + [c])[k..] == t[k..] + [c];
  }

  lemma PushNameOver(dir: Path, t: Path, c: string)
    requires AllOrdinary(dir) && IsClean(false, t) && Ordinary(c)
    ensures Push(true, Over(dir, t), c) == Over(dir, Push(false, t, c))
  {
    UpsIs(t + [c], Ups(t));
    NameAtEnd(Climb(dir, Ups(t)), t, c, Ups(t));
  }

  lemma PopName(rooted: bool, above: Path, names: Path)
    requires names != [] && names[|names| - 1] != UP
    ensures Push(rooted, above + names, UP) == above + Parent(names)
  {
    assert Parent(above + names) == above + Parent(names);
  }

  lemma ParentSlice(t: Path, k: nat)
    requires k < |t|
    ensures Parent(t)[k..] == Parent(t[k..]) && t[..k] + t[k..] == t && t[..k] + Parent(t[k..]) == Parent(t)
  {
  }

  lemma ParentUps(t: Path, k: nat)
    requires k < |t| && Ups(t) == k
    ensures Ups(Parent(t)) == k
  {
    UpsIs(Parent(t), k);
  }

  lemma PushUpAt(above: Path, t: Path, k: nat)
    requires k < |t| && t[|t| - 1] != UP
    ensures Push(true, above + t[k..], UP) == above + Parent(t)[k..]
  {
    ParentSlice(t, k);
    PopName(true, above, t[k..]);
  }

  lemma PushUpOverNames(dir: Path, t: Path, k: nat)
    requires k < |t| && Ups(t) == k && t[|t| - 1] != UP
    ensures Push(true, Over(dir, t), UP) == Over(dir, Push(false, t, UP))
  {
    PushUpAt(Climb(dir, k), t, k);
    ParentUps(t, k);
  }

  lemma ClimbOneMore(dir: Path, k: nat)
    requires AllOrdinary(dir)
    ensures Push(true, Climb(dir, k), UP) == Climb(dir, k + 1)
  {
    var o := Climb(dir, k);
    if o != [] {
      assert Ordinary(o[|o| - 1]);
      assert Parent(o) == Climb(dir, k + 1);
    }
  }

  lemma OverUps(dir: Path, t: Path)
    requires Ups(t) == |t|
    ensures Over(dir, t) == Climb(dir, |t|)
  {
    assert t[|t|..] == [];
  }

  lemma PushUpOverUps(dir: Path, t: Path)
    requires AllOrdinary(dir) && Ups(t) == |t|
    ensures Push(true, Over(dir, t), UP) == Over(dir, Push(false, t, UP))
  {
    var more := t + [UP];
    assert t != [] ==> t[|t| - 1] == UP;
    assert Push(false, t, UP) == more;
    UpsIs(more, |t| + 1);
    OverUps(dir, t);
    OverUps(dir, more);
    ClimbOneMore(dir, |t|);
  }

  lemma PushOver(dir: Path, t: Path, c: string)
    requires AllOrdinary(dir) && IsClean(false, t) && '/' !in c
    ensures Push(true, Over(dir, t), c) == Over(dir, Push(false, t, c))
  {
    if c == "" || c == DOT {
    } else if c != UP {
      PushNameOver(dir, t, c);
    } else if Ups(t) < |t| {
      PushUpOverNames(dir, t, Ups(t));
    } else {
      PushUpOverUps(dir, t);
    }
  }

  /** Cleaning a value below an absolute directory is cleaning the value alone and laying it over. */
  lemma {:induction false} CleanBelow(dir: Path, t: Path, cs: Path)
    requires AllOrdinary(dir) && IsClean(false, t) && forall i :: 0 <= i < |cs| ==> '/' !in cs[i]
    ensures PushAll(true, Over(dir, t), cs) == Over(dir, PushAll(false, t, cs))
    decreases |cs|
  {
    if cs != [] {
      PushOver(dir, t, cs[0]);
      PushKeepsClean(false, t, cs[0]);
      CleanBelow(dir, Push(false, t, cs[0]), cs[1..]);
    }
  }

  lemma CleanedJoin(baseDir: string, value: string)
    requires IsAbs(baseDir)
    ensures var base := Clean(true, Split(baseDir));
            && AllOrdinary(base)
            && Clean(true, Split(baseDir) + Split(value)) == Over(base, Clean(false, Split(value)))
  {
    var base := Clean(true, Split(baseDir));
    PushAllKeepsClean(true, [], Split(baseDir));
    PushAllAppends(true, [], Split(baseDir), Split(value));
    CleanBelow(base, [], Split(value));
    assert Over(base, []) == base;
  }

  /**
   Below an absolute base a relative path has no leading ".." exactly when the base is a component prefix of
   the target.
   */
  lemma RelStaysBelow(base: Path, target: Path)
    requires AllOrdinary(base) && AllOrdinary(target)
    ensures Rel(base, target).Ok?
    ensures var rel := Rel(base, target).value; (rel == [] || rel[0] != UP) <==> base <= target
    ensures base <= target ==> Rel(base, target).value == target[|base|..]
  {
    var k := CommonPrefix(base, target);
    assert base <= target ==> forall i :: 0 <= i < |base| ==> base[i] == target[i];
    assert k == |base| ==> base[..k] == base && base == target[..|base|];
  }

  /**
   With an absolute base a relative value is accepted exactly when the cleaned join lies at or below the
   cleaned base.
   */
  lemma ResolveInsideAccepts(baseDir: string, value: string)
    requires IsAbs(baseDir) && value != ""
    ensures var base := Clean(true, Split(baseDir));
            var path := Clean(true, Split(baseDir) + Split(value));
            && (ResolveInside(baseDir, value).Ok? <==> !IsAbs(value) && base <= path)
            && (ResolveInside(baseDir, value).Ok? ==> ResolveInside(baseDir, value) == Ok(path))
  {
    var path := Clean(true, Split(baseDir) + Split(value));
    CleanedJoin(baseDir, value);
    PushAllKeepsClean(true, [], Split(baseDir) + Split(value));
    RelStaysBelow(Clean(true, Split(baseDir)), path);
  }

  /** Without a base any relative value is accepted and cleaned by itself, ".." in front and all. */
  lemma ResolveWithoutBase(value: string)
    requires value != "" && !IsAbs(value)
    ensures ResolveInside("", value) == Ok(Clean(false, Split(value)))
    ensures ResolveInside("", "") == Ok([])
  {
    assert Split("") == [""] && ([""] + Split(value))[1..] == Split(value);
    CleanOfNothing();
  }

  /**
   With a relative base a relative value is accepted exactly when the cleaned base is a component prefix of the cleaned
   join, and the join does not go on with "..".
   */
  lemma ResolveInsideRelative(baseDir: string, value: string)
    requires baseDir != "" && !IsAbs(baseDir) && value != ""
    ensures var base := Clean(false, Split(baseDir));
            var path := Clean(false, Split(baseDir) + Split(value));
            && (ResolveInside(baseDir, value).Ok? <==>
                !IsAbs(value) && base <= path && (|base| < |path| ==> path[|base|] != UP))
            && (ResolveInside(baseDir, value).Ok? ==> ResolveInside(baseDir, value) == Ok(path))
  {
    var base := Clean(false, Split(baseDir));
    var path := Clean(false, Split(baseDir) + Split(value));
    var k := CommonPrefix(base, path);
    assert base <= path ==> forall i :: 0 <= i < |base| ==> base[i] == path[i];
    assert k == |base| ==> base[..k] == base && base == path[..|base|];
  }

  lemma CleanOfNothing()
    ensures Clean(false, Split("")) == []
  {
    var cs := Split("");
    assert cs == [""];
    assert cs[1..] == [] && Push(false, [], cs[0]) == [];
  }

  /** The container side accepts exactly the clean-character relative values that never climb, and keeps their names. */
  lemma SandboxWorkingDirAccepts(value: string)
    ensures var v := Trim(value);
            var t := Clean(false, Split(v));
            && (SandboxWorkingDir(value).Ok? <==>
                v == "" || (!IsAbs(v) && '\0' !in v && '\r' !in v && '\n' !in v && Ups(t) == 0))
            && (SandboxWorkingDir(value).Ok? ==> AllOrdinary(t) && SandboxWorkingDir(value).value == [WORKSPACE] + t)
  {
    var v := Trim(value);
    var t := Clean(false, Split(v));
    CleanOfSplit(v);
    UpsOfHead(t);
    if v == "" {
      CleanOfNothing();
    } else if v == DOT {
      ShowReadsBack([]);
    } else if Ups(t) == 0 {
      PushOrdinary(true, [], [WORKSPACE] + t);
    }
  }

  lemma NamesOver(base: Path, t: Path)
    requires AllOrdinary(t)
    ensures Over(base, t) == base + t && base <= base + t
  {
    OrdinaryHasNoUps(t);
  }

  /**
   Of a trimmed value: what the container side accepts the host side accepts, and both name the same path below
   their workspace.
   */
  lemma PathAgreement(baseDir: string, value: string)
    requires IsAbs(baseDir) && SandboxWorkingDir(value).Ok?
    ensures var suffix := Clean(false, Split(Trim(value)));
            && SandboxWorkingDir(value).value == [WORKSPACE] + suffix
            && ResolveInside(baseDir, Trim(value)) == Ok(Clean(true, Split(baseDir)) + suffix)
  {
    var v := Trim(value);
    var t := Clean(false, Split(v));
    var base := Clean(true, Split(baseDir));
    SandboxWorkingDirAccepts(value);
    if v == "" {
      CleanOfNothing();
      assert base + [] == base;
    } else {
      CleanedJoin(baseDir, v);
      NamesOver(base, t);
      ResolveInsideAccepts(baseDir, v);
    }
  }

  /**
   The converse fails, of trimmed values too: the host side also accepts a value that climbs out and comes back in by
   name. For values the container side does not refuse for their characters, the two accept the same ones except
   exactly these.
   */
  lemma HostAlsoAcceptsReentry(baseDir: string, value: string)
    requires IsAbs(baseDir)
    requires var v := Trim(value); v != "" && !IsAbs(v) && '\0' !in v && '\r' !in v && '\n' !in v
    ensures var t := Clean(false, Split(Trim(value)));
            var base := Clean(true, Split(baseDir));
            ResolveInside(baseDir, Trim(value)).Ok? <==>
            SandboxWorkingDir(value).Ok? ||
            base[|Climb(base, Ups(t))|..] <= t[Ups(t)..]
  {
    var v := Trim(value);
    var t := Clean(false, Split(v));
    var base := Clean(true, Split(baseDir));
    SandboxWorkingDirAccepts(value);
    CleanedJoin(baseDir, v);
    ResolveInsideAccepts(baseDir, v);
    var k := |Climb(base, Ups(t))|;
    assert Climb(base, Ups(t)) == base[..k];
    PrefixSplit(base, k, t[Ups(t)..]);
  }

  lemma CleanOfRooted(c: string)
    requires Ordinary(c)
    ensures Clean(true, ["", c]) == [c]
  {
    assert ["", c][1..] == [c];
    PushOrdinary(true, [], [c]);
    assert [] + [c] == [c];
  }

  lemma JoinOfTwo(a: string, b: string)
    requires '/' !in a && '/' !in b
    ensures Split(a + "/" + b) == [a, b]
  {
    assert [a, b][1..] == [b] && Join([b]) == b;
    SplitOfJoin([a, b]);
  }

  lemma OutAndBackOnHost(baseDir: string, value: string, c: string)
    requires Ordinary(c) && IsAbs(baseDir) && value != "" && !IsAbs(value)
    requires Split(baseDir) == ["", c] && Split(value) == [UP, c]
    ensures ResolveInside(baseDir, value) == Ok([c])
  {
    CleanOfRooted(c);
    UpsIs([UP, c], 1);
    CleanIsIdempotent(false, [UP, c]);
    CleanedJoin(baseDir, value);
    assert Over([c], [UP, c]) == [c];
    ResolveInsideAccepts(baseDir, value);
  }

  lemma OutAndBackInContainer(value: string, c: string)
    requires Ordinary(c) && Trim(value) == value && value != "" && Split(value) == [UP, c]
    ensures SandboxWorkingDir(value) == Err
  {
    UpsIs([UP, c], 1);
    CleanIsIdempotent(false, [UP, c]);
    SandboxWorkingDirAccepts(value);
  }

  /**
   Inputs: below "/c" the value "../c" climbs out and comes back in, so the host takes it and the container
   does not.
   */
  lemma ReentryOnHostOnly(c: string)
    requires Ordinary(c) && !IsSpace(c[|c| - 1])
    ensures ResolveInside("/" + c, "../" + c) == Ok([c])
    ensures SandboxWorkingDir("../" + c) == Err
  {
    var baseDir, value := "/" + c, "../" + c;
    assert value == UP + "/" + c && baseDir == "" + "/" + c;
    JoinOfTwo("", c);
    JoinOfTwo(UP, c);
    assert value[0] == '.' && !IsSpace('.') && value[|value| - 1] == c[|c| - 1];
    OutAndBackOnHost(baseDir, value, c);
    TrimOfTrimmed(value);
    OutAndBackInContainer(value, c);
  }

  lemma TrimOfTrimmed(value: string)
    requires value != "" && !IsSpace(value[0]) && !IsSpace(value[|value| - 1])
    ensures Trim(value) == value
  {
  }

  lemma PrefixSplit(base: Path, k: nat, names: Path)
    requires k <= |base|
    ensures base <= base[..k] + names <==> base[k..] <= names
  {
    assert base == base[..k] + base[k..];
    if base <= base[..k] + names {
      assert base[k..] == (base[..k] + names)[k..|base|] == names[..|base| - k];
    }
    if base[k..] <= names {
      assert (base[..k] + names)[..|base|] == base[..k] + names[..|base| - k];
    }
  }
}
