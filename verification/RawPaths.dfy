/**
 One working directory, two readers: the container side trims it before cleaning, the host side takes it as it is.
 When both name the same place, exactly.
 */
module RawPaths {
  import opened Wrappers
  import opened CleanPath
  import opened ArchivePaths
  import opened PathMapping

  // ----- what trimming took away

  lemma {:induction false} TrimLeftCut(s: string) returns (k: nat)
    ensures k <= |s| && TrimLeft(s) == s[k..] && Blank(s[..k])
    ensures k < |s| ==> !IsSpace(s[k])
    decreases |s|
  {
    if s != "" && IsSpace(s[0]) {
      k := TrimLeftCut(s[1..]);
      assert s[1..][k..] == s[k + 1..];
      assert s[..k + 1] == [s[0]] + s[1..][..k];
      k := k + 1;
    } else {
      k := 0;
    }
  }

  lemma {:induction false} TrimRightCut(s: string) returns (k: nat)
    ensures k <= |s| && TrimRight(s) == s[..k] && Blank(s[k..])
    ensures k > 0 ==> !IsSpace(s[k - 1])
    decreases |s|
  {
    k := |s|;
    if s != "" && IsSpace(s[|s| - 1]) {
      k := TrimRightCut(s[..|s| - 1]);
      assert s[..|s| - 1][..k] == s[..k];
      assert s[k..] == s[..|s| - 1][k..] + [s[|s| - 1]];
    }
  }

  lemma EndsInSpace(s: string)
    ensures TrimRight(s) == s <==> s == "" || !IsSpace(s[|s| - 1])
  {
    var k := TrimRightCut(s);
  }

  /** A value is what trimming leaves of it between the white space it took away. */
  lemma Trimmed(value: string) returns (lead: string, trail: string)
    ensures Blank(lead) && Blank(trail) && value == lead + Trim(value) + trail
    ensures Trim(value) != "" ==> !IsSpace(Trim(value)[0]) && !IsSpace(Trim(value)[|Trim(value)| - 1])
    ensures Trim(value) != "" ==> (TrimRight(value) == value <==> trail == "")
  {
    var k := TrimLeftCut(value);
    var rest := value[k..];
    var m := TrimRightCut(rest);
    lead, trail := value[..k], rest[m..];
    assert value == lead + rest[..m] + trail;
    EndsInSpace(value);
    if m > 0 {
      assert rest[..m][0] == rest[0] == value[k] && rest[..m][m - 1] == rest[m - 1];
      assert value[|value| - 1] == if trail == "" then rest[m - 1] else trail[|trail| - 1];
    }
  }

  // ----- white space inside components

  /** How one more character in front changes the components of a string. */
  function Head(a: char, r: Path): Path
    requires r != []
  {
    if a == '/' then [""] + r else [[a] + r[0]] + r[1..]
  }

  lemma AddHead(a: char, r: Path, c: string)
    requires r != []
    ensures var h := Head(a, r);
            Head(a, Parent(r) + [r[|r| - 1] + c]) == Parent(h) + [h[|h| - 1] + c]
  {
    if a != '/' && |r| == 1 {
      assert [a] + (r[0] + c) == ([a] + r[0]) + c;
    }
  }

  lemma {:induction false} SplitSuffix(s: string, c: string)
    requires '/' !in c
    ensures Split(s + c) == Parent(Split(s)) + [Split(s)[|Split(s)| - 1] + c]
  {
    if s == "" {
      SplitPrefix(c, "");
      assert c + "" == c && "" + c == c;
    } else {
      SplitSuffix(s[1..], c);
      assert (s + c)[0] == s[0] && (s + c)[1..] == s[1..] + c;
      AddHead(s[0], Split(s[1..]), c);
    }
  }

  /** The components of a value with white space put back around it. */
  function Padded(lead: string, cs: Path, trail: string): Path
    requires cs != []
  {
    if |cs| == 1 then [lead + cs[0] + trail]
    else [lead + cs[0]] + Parent(cs)[1..] + [cs[|cs| - 1] + trail]
  }

  lemma SplitPadded(lead: string, v: string, trail: string)
    requires '/' !in lead && '/' !in trail
    ensures Split(lead + v + trail) == Padded(lead, Split(v), trail)
  {
    SplitPrefix(lead, v);
    SplitSuffix(lead + v, trail);
  }

  /** A component with white space at either end is always a name. */
  lemma PaddedIsName(lead: string, c: string, trail: string)
    requires Blank(lead) && Blank(trail) && lead + trail != "" && '/' !in c
    ensures Ordinary(lead + c + trail)
  {
    var p := lead + c + trail;
    if lead != "" {
      assert p[0] == lead[0] && IsSpace(p[0]);
    } else {
      assert p[|p| - 1] == trail[|trail| - 1] && IsSpace(p[|p| - 1]);
    }
    assert !IsSpace('.') && !IsSpace('/');
    assert '/' !in p;
  }

  // ----- the bottom of the stack

  /** With `depth` names on the stack, the bottom one is popped by some of these components. */
  predicate Pops(depth: nat, cs: Path)
    decreases |cs|
  {
    if cs == [] then false
    else if cs[0] == "" || cs[0] == DOT then Pops(depth, cs[1..])
    else if cs[0] != UP then Pops(depth + 1, cs[1..])
    else depth <= 1 || Pops(depth - 1, cs[1..])
  }

  predicate NoSlash(cs: Path) {
    forall i :: 0 <= i < |cs| ==> '/' !in cs[i]
  }

  lemma {:induction false} UpsStay(stack: Path, cs: Path)
    requires IsClean(false, stack) && NoSlash(cs)
    ensures Ups(stack) <= Ups(PushAll(false, stack, cs))
    decreases |cs|
  {
    if cs != [] {
      var next := Push(false, stack, cs[0]);
      PushKeepsClean(false, stack, cs[0]);
      if cs[0] != "" && cs[0] != DOT && cs[0] != UP {
        UpsIs(next, Ups(stack));
      }
      UpsStay(next, cs[1..]);
    }
  }

  lemma ClimbsOut(cs: Path)
    requires NoSlash(cs)
    ensures Ups(PushAll(false, Push(false, [], UP), cs)) > 0
  {
    UpsIs([UP], 1);
    assert Push(false, [], UP) == [UP];
    UpsStay([UP], cs);
  }

  lemma PushAbove(x: string, stack: Path, c: string)
    requires AllOrdinary(stack) && '/' !in c && (c == UP ==> stack != [])
    ensures Push(false, [x] + stack, c) == [x] + Push(false, stack, c)
    ensures AllOrdinary(Push(false, stack, c))
  {
    if c == UP {
      assert ([x] + stack)[|stack|] == stack[|stack| - 1] && Parent([x] + stack) == [x] + Parent(stack);
    }
  }

  /** Components that never climb out do the same on top of one more name. */
  lemma {:induction false} OnTop(x: string, stack: Path, cs: Path)
    requires Ordinary(x) && AllOrdinary(stack) && NoSlash(cs) && Ups(PushAll(false, stack, cs)) == 0
    ensures PushAll(false, [x] + stack, cs) == [x] + PushAll(false, stack, cs)
    decreases |cs|
  {
    if cs != [] {
      ClimbsOut(cs[1..]);
      PushAbove(x, stack, cs[0]);
      OnTop(x, Push(false, stack, cs[0]), cs[1..]);
    }
  }

  /** The bottom name decides the result exactly until it is popped. */
  lemma {:induction false} BottomMatters(x: string, y: string, stack: Path, cs: Path)
    requires Ordinary(x) && Ordinary(y) && AllOrdinary(stack) && NoSlash(cs)
    ensures var a, b := PushAll(false, [x] + stack, cs), PushAll(false, [y] + stack, cs);
            if Pops(1 + |stack|, cs) then a == b
            else a != [] && b != [] && a[0] == x && b[0] == y && |a| == |b|
    decreases |cs|
  {
    if cs == [] {
    } else if cs[0] == UP && stack == [] {
      PopBottom(x);
      PopBottom(y);
    } else {
      var next := Push(false, stack, cs[0]);
      assert Pops(1 + |stack|, cs) == Pops(1 + |next|, cs[1..]);
      PushAbove(x, stack, cs[0]);
      PushAbove(y, stack, cs[0]);
      BottomMatters(x, y, next, cs[1..]);
    }
  }

  lemma PopBottom(x: string)
    requires Ordinary(x)
    ensures Push(false, [x] + [], UP) == []
  {
  }

  // ----- what white space does to the cleaned path

  /** Components that start with a name or ".", and clean to a path that does not climb. */
  ghost predicate StaysIn(cs: Path) {
    cs != [] && NoSlash(cs) && cs[0] != "" && cs[0] != UP && Ups(Clean(false, cs)) == 0
  }

  lemma CleanFrom(c: string, rest: Path)
    requires '/' !in c
    ensures Clean(false, [c] + rest) == PushAll(false, Push(false, [], c), rest)
  {
    assert ([c] + rest)[1..] == rest;
  }

  lemma LeadingName(x: string, c: string, rest: Path)
    requires Ordinary(x) && Ordinary(c) && NoSlash(rest)
    ensures var a, b := Clean(false, [x] + rest), Clean(false, [c] + rest);
            if Pops(1, rest) then a == b else a != [] && b != [] && a[0] == x && b[0] == c && |a| == |b|
  {
    CleanFrom(x, rest);
    CleanFrom(c, rest);
    assert Push(false, [], x) == [x] + [] && Push(false, [], c) == [c] + [];
    BottomMatters(x, c, [], rest);
  }

  lemma LeadingDot(x: string, rest: Path)
    requires Ordinary(x) && NoSlash(rest) && Ups(Clean(false, [DOT] + rest)) == 0
    ensures Clean(false, [x] + rest) == [x] + Clean(false, [DOT] + rest)
  {
    CleanFrom(x, rest);
    CleanFrom(DOT, rest);
    assert Push(false, [], x) == [x] + [] && Push(false, [], DOT) == [];
    OnTop(x, [], rest);
  }

  lemma UpsOfName(p: Path)
    requires p != [] && p[0] != UP
    ensures Ups(p) == 0
  {
  }

  lemma LeadingSpace(lead: string, cs: Path)
    requires StaysIn(cs) && Blank(lead) && lead != ""
    ensures var raw := Clean(false, [lead + cs[0]] + cs[1..]);
            && Ups(raw) == 0 && |Clean(false, cs)| <= |raw|
            && (raw == Clean(false, cs) <==> cs[0] != DOT && Pops(1, cs[1..]))
  {
    var c, x, rest := cs[0], lead + cs[0], cs[1..];
    assert cs == [c] + rest && x + "" == x && |x| > |c|;
    PaddedIsName(lead, c, "");
    if c == DOT {
      LeadingDot(x, rest);
    } else {
      LeadingName(x, c, rest);
    }
    var raw := Clean(false, [x] + rest);
    if raw != [] && raw[0] == x {
      UpsOfName(raw);
    }
  }

  lemma CleanSnoc(cs: Path, c: string)
    ensures Clean(false, cs + [c]) == Push(false, Clean(false, cs), c)
  {
    PushAllAppends(false, [], cs, [c]);
    assert [c][1..] == [];
  }

  lemma StaysInParent(cs: Path)
    requires StaysIn(cs) && |cs| > 1
    ensures StaysIn(Parent(cs)) && AllOrdinary(Clean(false, Parent(cs)))
  {
    var q, c := Parent(cs), cs[|cs| - 1];
    assert cs == q + [c];
    PushAllAppends(false, [], q, [c]);
    PushAllKeepsClean(false, [], q);
    UpsStay(Clean(false, q), [c]);
  }

  /** A name at the end that the trimmed value does not have: the paths differ. */
  lemma TrailingSpace(lead: string, cs: Path, trail: string)
    requires StaysIn(cs) && Blank(lead) && Blank(trail) && trail != ""
    ensures var raw := Clean(false, Padded(lead, cs, trail));
            Ups(raw) == 0 && raw != Clean(false, cs)
  {
    var n := |cs| - 1;
    var c := cs[n];
    if n == 0 {
      var x := lead + c + trail;
      assert |x| > |c| && Padded(lead, cs, trail) == [] + [x] && cs == [] + [c];
      PaddedIsName(lead, c, trail);
      CleanSnoc([], x);
      CleanSnoc([], c);
    } else {
      var q, x := Parent(cs), c + trail;
      var q' := [lead + cs[0]] + q[1..];
      assert |x| > |c| && "" + c + trail == x;
      assert Padded(lead, cs, trail) == q' + [x] && cs == q + [c];
      PaddedIsName("", c, trail);
      CleanSnoc(q', x);
      CleanSnoc(q, c);
      StaysInParent(cs);
      if lead == "" {
        assert lead + cs[0] == q[0] && q' == q;
      } else {
        LeadingSpace(lead, q);
      }
      LastDiffers(Clean(false, q), Clean(false, q'), c, x);
    }
  }

  lemma LastDiffers(s: Path, s': Path, c: string, x: string)
    requires |s| <= |s'| && Ups(s') == 0 && Ordinary(x) && x != c
    requires AllOrdinary(s) && Ups(Push(false, s, c)) == 0
    ensures Ups(Push(false, s', x)) == 0 && Push(false, s', x) != Push(false, s, c)
  {
    UpsIs(s' + [x], 0);
    UpsIs([UP], 1);
    var t := Push(false, s, c);
    assert c == UP && s == [] ==> t == [UP];
    assert |t| <= |s| || t == s + [c];
    assert (s' + [x])[|s'|] == x && (s + [c])[|s|] == c;
  }

  // ----- both sides

  /** The trimmed and the raw value lead both sides to the same suffix. */
  predicate SameForBoth(value: string) {
    var cs := Split(Trim(value));
    value == Trim(value) || (TrimRight(value) == value && Ordinary(cs[0]) && Pops(1, cs[1..]))
  }

  lemma TrimmedStaysIn(value: string)
    requires SandboxWorkingDir(value).Ok? && Trim(value) != ""
    ensures StaysIn(Split(Trim(value)))
  {
    var v := Trim(value);
    var cs := Split(v);
    SandboxWorkingDirAccepts(value);
    if v == DOT {
      ShowReadsBack([]);
    }
    OrdinaryHasNoUps(Clean(false, cs));
    assert Ups(Clean(false, cs)) == 0;
    assert v[0] != '/';
    if cs[0] == UP {
      assert cs == [UP] + cs[1..] && [] + [UP] == [UP];
      CleanFrom(UP, cs[1..]);
      UpsStay([UP], cs[1..]);
    }
  }

  lemma PaddedInFront(lead: string, cs: Path)
    requires cs != []
    ensures Padded(lead, cs, "") == [lead + cs[0]] + cs[1..]
  {
    assert lead + cs[0] + "" == lead + cs[0] && cs[|cs| - 1] + "" == cs[|cs| - 1];
    assert |cs| > 1 ==> Parent(cs)[1..] + [cs[|cs| - 1]] == cs[1..];
  }

  lemma RawCleaning(value: string)
    requires SandboxWorkingDir(value).Ok? && value != Trim(value)
    ensures var raw := Clean(false, Split(value));
            Ups(raw) == 0 && (raw == Clean(false, Split(Trim(value))) <==> SameForBoth(value))
  {
    var v := Trim(value);
    var cs := Split(v);
    var lead, trail := Trimmed(value);
    assert '/' !in lead && '/' !in trail by { assert !IsSpace('/'); }
    SplitPadded(lead, v, trail);
    if v == "" {
      BlankValue(value, lead, trail);
    } else {
      TrimmedStaysIn(value);
      if trail != "" {
        TrailingSpace(lead, cs, trail);
      } else {
        assert lead == "" ==> value == v;
        PaddedInFront(lead, cs);
        LeadingSpace(lead, cs);
      }
    }
  }

  lemma BlankValue(value: string, lead: string, trail: string)
    requires Trim(value) == "" && value != "" && value == lead + "" + trail && Blank(lead) && Blank(trail)
    ensures Clean(false, Split(value)) == [value] && Clean(false, Split("")) == []
    ensures !SameForBoth(value) && Ups([value]) == 0
  {
    PaddedIsName(lead, "", trail);
    SplitOfJoin([value]);
    assert Split(value) == [value] && Split("") == [""];
    PushOrdinary(false, [], [value]);
    assert [] + [value] == [value] && [""][1..] == [];
  }

  /**
   The same working directory for both: the host path lies below the workspace exactly where the container path does
   if and only if the value has no white space around it, or has it in front only, in a name that a later ".." pops.
   */
  lemma RawAgreement(baseDir: string, value: string)
    requires IsAbs(baseDir) && SandboxWorkingDir(value).Ok?
    ensures var suffix := Clean(false, Split(Trim(value)));
            && SandboxWorkingDir(value).value == [WORKSPACE] + suffix
            && (ResolveInside(baseDir, value) == Ok(Clean(true, Split(baseDir)) + suffix) <==> SameForBoth(value))
  {
    PathAgreement(baseDir, value);
    if value != Trim(value) {
      var base := Clean(true, Split(baseDir));
      var raw := Clean(false, Split(value));
      RawCleaning(value);
      RawIsRelative(value);
      CleanedJoin(baseDir, value);
      assert Over(base, raw) == base + raw;
      ResolveInsideAccepts(baseDir, value);
      assert (base + raw)[|base|..] == raw;
    }
  }

  lemma RawIsRelative(value: string)
    requires SandboxWorkingDir(value).Ok? && value != Trim(value)
    ensures value != "" && !IsAbs(value)
  {
    var lead, trail := Trimmed(value);
    assert !IsSpace('/');
    SandboxWorkingDirAccepts(value);
    if Trim(value) == "" {
      assert value == lead + trail;
    } else if lead == "" {
      assert value[0] == Trim(value)[0];
    }
  }

  lemma CleanOfName(c: string)
    requires Ordinary(c)
    ensures Clean(false, Split(c)) == [c] && Ups([c]) == 0
  {
    SplitOfJoin([c]);
    CleanFrom(c, []);
    assert [c] + [] == [c] && Push(false, [], c) == [c];
    UpsIs([c], 0);
  }

  lemma NameInContainer(value: string, c: string)
    requires Trim(value) == c && Ordinary(c) && '\0' !in c && '\r' !in c && '\n' !in c
    ensures SandboxWorkingDir(value) == Ok([WORKSPACE, c])
  {
    CleanOfName(c);
    SandboxWorkingDirAccepts(value);
    assert [WORKSPACE] + [c] == [WORKSPACE, c];
  }

  lemma NameOnHost(baseDir: string, c: string)
    requires IsAbs(baseDir) && Ordinary(c)
    ensures ResolveInside(baseDir, c) == Ok(Clean(true, Split(baseDir)) + [c])
  {
    CleanOfName(c);
    CleanedJoin(baseDir, c);
    assert Over(Clean(true, Split(baseDir)), [c]) == Clean(true, Split(baseDir)) + [c];
    ResolveInsideAccepts(baseDir, c);
  }

  lemma TrimOfTrailingBlank()
    ensures Trim("a ") == "a"
  {
    assert !IsSpace('a') && IsSpace(' ');
    assert "a "[..1] == "a" && "a "[1] == ' ' && "a "[0] == 'a';
    assert TrimRight("a") == "a";
    assert TrimRight("a ") == TrimRight("a "[..1]);
  }

  /** An input where they part: a name with one blank after it. */
  lemma TrailingBlankParts(baseDir: string)
    requires IsAbs(baseDir)
    ensures SandboxWorkingDir("a ") == Ok([WORKSPACE, "a"])
    ensures ResolveInside(baseDir, "a ") == Ok(Clean(true, Split(baseDir)) + ["a "])
  {
    TrimOfTrailingBlank();
    NameInContainer("a ", "a");
    NameOnHost(baseDir, "a ");
  }
}
