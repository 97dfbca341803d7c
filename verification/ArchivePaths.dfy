/** Which archive entry names and symlink targets are accepted, and what they clean to. */
module ArchivePaths {
  import opened Wrappers
  import opened CleanPath

  /** Go's `unicode.IsSpace`. */
  predicate IsSpace(c: char) {
    || c in "\t\n\r "
    || c == '\U{0B}' || c == '\U{0C}' || c == '\U{85}' || c == '\U{A0}' || c == '\U{1680}'
    || '\U{2000}' <= c <= '\U{200A}'
    || c == '\U{2028}' || c == '\U{2029}' || c == '\U{202F}' || c == '\U{205F}' || c == '\U{3000}'
  }

  /** `strings.TrimSpace(s) == ""`. */
  predicate Blank(s: string) {
    forall i :: 0 <= i < |s| ==> IsSpace(s[i])
  }

  predicate IsAbs(s: string) {
    s != "" && s[0] == '/'
  }

  /** The test both checks make before they look at components. */
  predicate Unsafe(s: string) {
    Blank(s) || '\\' in s || IsAbs(s)
  }

  /** `fs.ValidPath` on a relative path other than "." (every Dafny string is valid UTF-8). */
  predicate ValidPath(p: Path) {
    forall i :: 0 <= i < |p| ==> p[i] != "" && p[i] != DOT && p[i] != UP
  }

  /** The canonical components of an archive entry name, or a refusal. */
  function LocalPath(name: string): Result<Path> {
    if Unsafe(name) then Err
    else
      var clean := Clean(false, Split(name));
      if clean == [] || clean[0] == UP then Err
      else if !ValidPath(clean) then Err
      else Ok(clean)
  }

  /** The cleaned target of a symlink entry, or a refusal. */
  function LinkTarget(entryName: string, target: string): Result<Path> {
    if Unsafe(target) then Err
    else match LocalPath(entryName)
         case Err => Err
         case Ok(entry) =>
           var clean := Clean(false, Split(target));
           if clean == [] then Err
           else
             var resolved := Clean(false, Parent(entry) + clean);
             if resolved == [] || resolved[0] == UP then Err else Ok(clean)
  }

  lemma CleanOfSplit(s: string)
    ensures IsClean(false, Clean(false, Split(s)))
    ensures '\\' !in s ==> '\\' !in Show(Clean(false, Split(s)))
  {
    PushAllKeepsClean(false, [], Split(s));
    PushAllMembers(false, [], Split(s));
    var p := Clean(false, Split(s));
    if '\\' !in s {
      forall i | 0 <= i < |p|
        ensures '\\' !in p[i]
      {
        assert p[i] in p;
        var j :| 0 <= j < |Split(s)| && Split(s)[j] == p[i];
      }
      JoinChars(p, '\\');
    }
  }

  lemma UpsOfHead(p: Path)
    ensures Ups(p) > 0 <==> p != [] && p[0] == UP
  {
  }

  /**
   Accepted names are exactly the non-blank, slash-relative ones that end strictly below the root; they clean
   to names.
   */
  lemma LocalPathAccepts(name: string)
    ensures var p := Clean(false, Split(name));
            && (LocalPath(name).Ok? <==>
                !Blank(name) && '\\' !in name && !IsAbs(name) && p != [] && Ups(p) == 0)
            && (LocalPath(name).Ok? ==> LocalPath(name).value == p && AllOrdinary(p))
  {
    CleanOfSplit(name);
    UpsOfHead(Clean(false, Split(name)));
  }

  lemma FirstChar(p: Path)
    requires p != [] && p[0] != ""
    ensures Join(p) != "" && Join(p)[0] == p[0][0]
  {
  }

  /**
   Cleaning twice: an accepted name, printed clean, is accepted again with the same components
   unless it prints as blanks, in which case the second check refuses it.
   */
  lemma LocalPathIsIdempotent(name: string)
    requires LocalPath(name).Ok?
    ensures var p := LocalPath(name).value;
            LocalPath(Join(p)) == if Blank(Join(p)) then Err else Ok(p)
  {
    LocalPathAccepts(name);
    CleanOfSplit(name);
    var p := LocalPath(name).value;
    FirstChar(p);
    SplitOfJoin(p);
    CleanIsIdempotent(false, p);
  }

  /** An accepted target climbs no further than its own directory is deep, and does not end at the root. */
  lemma LinkTargetAccepts(entryName: string, target: string)
    ensures var t := Clean(false, Split(target));
            LinkTarget(entryName, target).Ok? <==>
            && !Blank(target) && '\\' !in target && !IsAbs(target) && LocalPath(entryName).Ok? && t != []
            && var dir := Parent(LocalPath(entryName).value);
               Ups(t) <= |dir| && !(Ups(t) == |dir| && Ups(t) == |t|)
    ensures LinkTarget(entryName, target).Ok? ==>
              var t := Clean(false, Split(target));
              LinkTarget(entryName, target).value == t && t != [] && IsClean(false, t)
              && Ups(t) <= |LocalPath(entryName).value| - 1
  {
    CleanOfSplit(target);
    LocalPathAccepts(entryName);
    if LocalPath(entryName).Ok? {
      var t := Clean(false, Split(target));
      var dir := Parent(LocalPath(entryName).value);
      PushAllAppends(false, [], dir, t);
      PushOrdinary(false, [], dir);
      assert [] + dir == dir;
      CleanOver(dir, t);
      UpsOfHead(PushAll(false, dir, t));
    }
  }

  /** A path of plain names, printed, is an accepted entry name. */
  lemma PlainName(p: Path)
    requires p != [] && AllOrdinary(p) && !Blank(Join(p)) && forall i :: 0 <= i < |p| ==> '\\' !in p[i]
    ensures LocalPath(Join(p)) == Ok(p)
  {
    SplitOfJoin(p);
    JoinChars(p, '\\');
    FirstChar(p);
    OrdinaryHasNoUps(p);
    CleanIsIdempotent(false, p);
    LocalPathAccepts(Join(p));
  }

  lemma CleanOfDotName(c: string)
    requires Ordinary(c)
    ensures Clean(false, [DOT, c]) == [c]
  {
    assert [DOT, c][1..] == [c];
    PushOrdinary(false, [], [c]);
    assert [] + [c] == [c];
  }

  lemma DotName(c: string)
    requires Ordinary(c) && '\\' !in c
    ensures LocalPath("./" + c) == Ok([c])
  {
    var name := "./" + c;
    assert [DOT, c][1..] == [c] && Join([c]) == c;
    assert Join([DOT, c]) == name;
    SplitOfJoin([DOT, c]);
    CleanOfDotName(c);
    assert name[0] == '.' && !IsSpace('.');
    LocalPathAccepts(name);
    OrdinaryHasNoUps([c]);
  }

  lemma BlankName()
    ensures LocalPath("./ ") == Ok([" "]) && Blank(" ")
  {
    DotName(" ");
    assert "./" + " " == "./ ";
  }

  /** Extraction checks a target against the name it has already cleaned, and so refuses names that print as blanks. */
  lemma LinkTargetOfCleanName(name: string, target: string)
    requires LocalPath(name).Ok?
    ensures var p := LocalPath(name).value;
            LinkTarget(Join(p), target) == if Blank(Join(p)) then Err else LinkTarget(name, target)
  {
    LocalPathIsIdempotent(name);
  }

  /** The target check, repeated on the target it stored, accepts it again unless that target prints as blanks. */
  lemma LinkTargetIsIdempotent(name: string, target: string)
    requires LocalPath(name).Ok? && LinkTarget(Join(LocalPath(name).value), target).Ok?
    ensures var entry := Join(LocalPath(name).value);
            var t := LinkTarget(entry, target).value;
            LinkTarget(entry, Join(t)) == if Blank(Join(t)) then Err else Ok(t)
  {
    var entry := Join(LocalPath(name).value);
    LinkTargetAccepts(entry, target);
    CleanOfSplit(target);
    var t := LinkTarget(entry, target).value;
    FirstCharOfClean(t);
    SplitOfJoin(t);
    CleanIsIdempotent(false, t);
    LinkTargetAccepts(entry, Join(t));
  }

  lemma FirstCharOfClean(t: Path)
    requires IsClean(false, t) && t != []
    ensures Join(t) != "" && Join(t)[0] != '/'
  {
    assert t[0] == UP || Ordinary(t[0]) by { UpsOfHead(t); }
    FirstChar(t);
  }
}
