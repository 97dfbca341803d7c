/**
 The byte stream whose digest identifies a command's artifacts, and exactly which lists of artifacts it
 identifies.
 */
module ArtifactStream {

  datatype Artifact = Artifact(name: string, content: string)

  /** What one file adds to the stream: name, NUL, content, NUL. */
  function FileBytes(a: Artifact): string {
    a.name + "\0" + a.content + "\0"
  }

  function Stream(files: seq<Artifact>): string {
    if files == [] then "" else FileBytes(files[0]) + Stream(files[1..])
  }

  lemma StreamFrom(files: seq<Artifact>, i: nat, before: string)
    requires i < |files|
    ensures before + Stream(files[i..]) == before + FileBytes(files[i]) + Stream(files[i + 1..])
  {
    assert files[i..][1..] == files[i + 1..];
    var rest := Stream(files[i + 1..]);
    assert before + (FileBytes(files[i]) + rest) == (before + FileBytes(files[i])) + rest;
  }

  method HashInput(files: seq<Artifact>) returns (s: string)
    ensures s == Stream(files)
  {
    s := "";
    assert files[0..] == files && "" + Stream(files) == Stream(files);
    for i := 0 to |files|
      invariant s + Stream(files[i..]) == Stream(files)
    {
      StreamFrom(files, i, s);
      s := HashFile(s, files[i]);
    }
    assert s + "" == s;
  }

  /** One file: its name, a NUL, its content, a NUL, written one after the other. */
  method HashFile(hash: string, a: Artifact) returns (s: string)
    ensures s == hash + FileBytes(a)
  {
    s := hash + a.name;
    s := s + "\0";
    s := s + a.content;
    s := s + "\0";
    assert s == hash + (a.name + "\0" + a.content + "\0");
  }

  // ----- two lists with one stream

  lemma {:induction false} CutAtNul(a: string, x: string, b: string, y: string)
    requires '\0' !in a && '\0' !in b && a + "\0" + x == b + "\0" + y
    ensures a == b && x == y
  {
    var s := a + "\0" + x;
    assert s == b + "\0" + y;
    assert forall i :: 0 <= i < |a| ==> s[i] == a[i];
    assert forall i :: 0 <= i < |b| ==> s[i] == b[i];
    assert s[|a|] == '\0' && s[|b|] == '\0';
    assert |a| == |b|;
    assert s[..|a|] == a && s[..|b|] == b;
    assert s[|a| + 1..] == x && s[|b| + 1..] == y;
  }

  lemma StreamOfHead(files: seq<Artifact>)
    requires files != []
    ensures Stream(files) == files[0].name + "\0" + (files[0].content + "\0" + Stream(files[1..]))
  {
  }

  lemma StreamOfOne(a: Artifact)
    ensures Stream([a]) == FileBytes(a)
  {
    assert [a][1..] == [];
    assert FileBytes(a) + "" == FileBytes(a);
  }

  /** A stream is empty, or ends with the NUL after its last file. */
  lemma {:induction false} StreamEnds(files: seq<Artifact>) returns (body: string)
    requires files != []
    ensures Stream(files) == body + "\0"
  {
    var a := files[0];
    if |files| == 1 {
      assert files == [a];
      StreamOfOne(a);
      body := a.name + "\0" + a.content;
    } else {
      var rest := StreamEnds(files[1..]);
      body := FileBytes(a) + rest;
      assert FileBytes(a) + (rest + "\0") == body + "\0";
    }
  }

  /** What follows the first name and its NUL is the same in both, if both first names are free of NULs. */
  lemma SameHead(files: seq<Artifact>, others: seq<Artifact>)
    requires files != [] && others != [] && Stream(files) == Stream(others)
    requires '\0' !in files[0].name && '\0' !in others[0].name
    ensures files[0].name == others[0].name
    ensures files[0].content + "\0" + Stream(files[1..]) == others[0].content + "\0" + Stream(others[1..])
  {
    StreamOfHead(files);
    StreamOfHead(others);
    CutAtNul(files[0].name, files[0].content + "\0" + Stream(files[1..]),
             others[0].name, others[0].content + "\0" + Stream(others[1..]));
  }

  /** Two files stream as one whose content spells the second. */
  lemma TwoAsOne(a: Artifact, b: Artifact, rest: seq<Artifact>)
    ensures Stream([Artifact(a.name, a.content + "\0" + b.name + "\0" + b.content)] + rest) == Stream([a, b] + rest)
  {
    var one := Artifact(a.name, a.content + "\0" + b.name + "\0" + b.content);
    var files := [a, b] + rest;
    assert files[1..] == [b] + rest && files[1..][1..] == rest && ([one] + rest)[1..] == rest;
    var tail := Stream(rest);
    assert Stream([one] + rest) == FileBytes(one) + tail;
    assert Stream(files) == FileBytes(a) + (FileBytes(b) + tail);
    assert FileBytes(one) == FileBytes(a) + FileBytes(b);
  }

  // ----- which lists are identified

  /** All names are ones an artifact can have. */
  ghost predicate Named(valid: string -> bool, files: seq<Artifact>) {
    forall i :: 0 <= i < |files| ==> valid(files[i].name)
  }

  predicate SpellsAt(valid: string -> bool, content: string, x: string, name: string, y: string) {
    valid(name) && content == x + "\0" + name + "\0" + y
  }

  /** The content has, between two NULs, a name an artifact can have. */
  ghost predicate Spells(valid: string -> bool, content: string) {
    exists x, name, y :: SpellsAt(valid, content, x, name, y)
  }

  /** No other list of artifacts has this list's stream. */
  ghost predicate Identified(valid: string -> bool, files: seq<Artifact>) {
    forall others :: Named(valid, others) && Stream(others) == Stream(files) ==> others == files
  }

  lemma OthersOfOne(valid: string -> bool, a: Artifact, others: seq<Artifact>)
    requires forall name :: valid(name) ==> '\0' !in name
    requires valid(a.name) && Named(valid, others) && Stream(others) == Stream([a]) && others != [a]
    ensures Spells(valid, a.content)
  {
    StreamOfOne(a);
    assert others != [];
    SameHead([a], others);
    assert [a][1..] == [];
    var o, rest := others[0], others[1..];
    assert others == [o] + rest;
    SameEnd(a.content, o.content);
    assert rest == [] ==> o == a;
    SpellsRest(valid, a.content, o.content, rest);
  }

  lemma SameEnd(a: string, b: string)
    ensures a + "\0" + "" == b + "\0" + "" ==> a == b
  {
    assert (a + "\0" + "")[..|a|] == a && (b + "\0" + "")[..|b|] == b;
  }

  lemma SpellsRest(valid: string -> bool, content: string, x: string, rest: seq<Artifact>)
    requires rest != [] && valid(rest[0].name)
    requires content + "\0" + "" == x + "\0" + Stream(rest)
    ensures Spells(valid, content)
  {
    var name := rest[0].name;
    var y := AfterName(rest);
    var whole := x + "\0" + name + "\0" + y;
    assert x + "\0" + (name + "\0" + y + "\0") == whole + "\0";
    assert content + "\0" + "" == content + "\0";
    assert content == (content + "\0")[..|content|] == (whole + "\0")[..|whole|] == whole;
    assert SpellsAt(valid, content, x, name, y);
  }

  lemma AfterName(files: seq<Artifact>) returns (y: string)
    requires files != []
    ensures Stream(files) == files[0].name + "\0" + y + "\0"
  {
    var a := files[0];
    StreamOfHead(files);
    if |files| == 1 {
      y := a.content;
      assert a.content + "\0" + "" == y + "\0";
      assert a.name + "\0" + (y + "\0") == a.name + "\0" + y + "\0";
    } else {
      var body := StreamEnds(files[1..]);
      y := a.content + "\0" + body;
      assert a.content + "\0" + (body + "\0") == y + "\0";
      assert a.name + "\0" + (y + "\0") == a.name + "\0" + y + "\0";
    }
  }

  /**
   Which lists the stream identifies among all lists with possible names: the empty one, and one file whose content
   does not spell, between two NULs, a name an artifact can have. Any list of two or more files has a double.
   */
  lemma StreamIdentifies(valid: string -> bool, files: seq<Artifact>)
    requires forall name :: valid(name) ==> '\0' !in name
    requires Named(valid, files)
    ensures Identified(valid, files) <==> files == [] || (|files| == 1 && !Spells(valid, files[0].content))
  {
    if files == [] {
    } else if |files| == 1 {
      var a := files[0];
      assert files == [a];
      if x, name, y :| SpellsAt(valid, a.content, x, name, y) {
        var two := [Artifact(a.name, x), Artifact(name, y)];
        TwoAsOne(two[0], two[1], []);
        assert two + [] == two && [a] + [] == [a];
        assert Named(valid, two) && two != files;
      } else {
        forall others | Named(valid, others) && Stream(others) == Stream(files)
          ensures others == files
        {
          if others != files {
            OthersOfOne(valid, a, others);
          }
        }
      }
    } else {
      var double := Double(files);
      TwoAsOne(files[0], files[1], files[2..]);
      assert [files[0], files[1]] + files[2..] == files;
      assert Named(valid, double) && |double| < |files|;
    }
  }

  /** The shorter list with the same stream: the first two files as one. */
  function Double(files: seq<Artifact>): seq<Artifact>
    requires |files| >= 2
  {
    [Artifact(files[0].name, files[0].content + "\0" + files[1].name + "\0" + files[1].content)] + files[2..]
  }

  // ----- counting NULs

  function Nuls(s: string): nat {
    if s == "" then 0 else (if s[0] == '\0' then 1 else 0) + Nuls(s[1..])
  }

  lemma {:induction false} NulsAdd(a: string, b: string)
    ensures Nuls(a + b) == Nuls(a) + Nuls(b)
  {
    if a == "" {
      assert a + b == b;
    } else {
      assert (a + b)[0] == a[0] && (a + b)[1..] == a[1..] + b;
      NulsAdd(a[1..], b);
    }
  }

  lemma {:induction false} FirstNul(s: string) returns (before: string, after: string)
    requires Nuls(s) > 0
    ensures '\0' !in before && s == before + "\0" + after && Nuls(after) == Nuls(s) - 1
  {
    if s[0] == '\0' {
      before, after := "", s[1..];
    } else {
      before, after := FirstNul(s[1..]);
      before := [s[0]] + before;
    }
  }

  lemma NulsOfSpelled(x: string, name: string, y: string)
    ensures Nuls(x + "\0" + name + "\0" + y) == Nuls(x) + Nuls(name) + Nuls(y) + 2
  {
    NulsAdd(x + "\0" + name + "\0", y);
    NulsAdd(x + "\0" + name, "\0");
    NulsAdd(x + "\0", name);
    NulsAdd(x, "\0");
    assert "\0"[1..] == "";
  }

  predicate NulFree(s: string) {
    '\0' !in s
  }

  lemma SpellsByCount(content: string)
    ensures Spells(NulFree, content) <==> Nuls(content) >= 2
  {
    if x, name, y :| SpellsAt(NulFree, content, x, name, y) {
      NulsOfSpelled(x, name, y);
    }
    if Nuls(content) >= 2 {
      var x, after := FirstNul(content);
      var name, y := FirstNul(after);
      assert content == x + "\0" + name + "\0" + y;
      assert SpellsAt(NulFree, content, x, name, y);
    }
  }

  /**
   With nothing known of names but that they have no NUL, as no path does: the stream identifies exactly the empty list
   and the single files with at most one NUL in their content.
   */
  lemma IdentifiedByCount(files: seq<Artifact>)
    requires Named(NulFree, files)
    ensures Identified(NulFree, files) <==> files == [] || (|files| == 1 && Nuls(files[0].content) <= 1)
  {
    StreamIdentifies(NulFree, files);
    if |files| == 1 {
      SpellsByCount(files[0].content);
    }
  }

  /**
   Among artifacts without NUL bytes the stream tells everything: equal streams are equal names and contents,
   in order.
   */
  lemma {:induction false} StreamDetermines(files: seq<Artifact>, others: seq<Artifact>)
    requires forall i :: 0 <= i < |files| ==> NulFree(files[i].name) && NulFree(files[i].content)
    requires forall i :: 0 <= i < |others| ==> NulFree(others[i].name) && NulFree(others[i].content)
    ensures Stream(files) == Stream(others) <==> files == others
  {
    if Stream(files) == Stream(others) && files != [] && others != [] {
      var a, b := files[0], others[0];
      var x, y := Stream(files[1..]), Stream(others[1..]);
      assert Stream(files) == a.name + "\0" + (a.content + "\0" + x);
      assert Stream(others) == b.name + "\0" + (b.content + "\0" + y);
      CutAtNul(a.name, a.content + "\0" + x, b.name, b.content + "\0" + y);
      CutAtNul(a.content, x, b.content, y);
      StreamDetermines(files[1..], others[1..]);
      assert files == [a] + files[1..] && others == [b] + others[1..];
    }
  }
}
