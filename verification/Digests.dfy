/**
 The install manifest's leaf digests: the walk that computes them, the comparison made later,
 and what agreement says about the tree on disk.
 */
module Digests {
  import opened Wrappers
  import opened CleanPath
  import opened ArchivePaths
  import opened FileTree

  datatype Manifest = Manifest(
    bundleId: string,
    version: string,
    root: string,
    commandPath: string,
    artifactDigest: string,
    signatureDigest: string,
    trustRootDigest: string,
    scopedStore: bool,
    hostStoreExcluded: bool,
    fileDigests: map<Path, string>)

  /** SHA-256 (FIPS 180-4) and the manifest's JSON form, as functions nothing is known of but what `Faithful` says. */
  datatype Codec = Codec(sha256: string -> string, marshal: Manifest -> string, parse: string -> Option<Manifest>)
  {
    ghost predicate Faithful() {
      && (forall a, b :: sha256(a) == sha256(b) ==> a == b)
      && (forall m :: parse(marshal(m)) == Some(m))
    }

    function Digest(encoding: string): string {
      "sha256:" + sha256(encoding)
    }
  }

  const MANIFEST: Path := ["wfcompute-managed-runtime-install.json"]
  const COMMAND_DIR: Path := ["bin"]
  const COMMAND: Path := ["bin", "nerdctl"]

  /** What of a leaf enters its digest: a file's content, or "symlink:" and the target. */
  function Encoding(n: Node): string {
    match n
    case File(content) => content
    case Link(target) => "symlink:" + target
    case _ => ""
  }

  /** The leaf encodings of a tree, the skipped path left out. */
  function Encodings(t: Tree, skip: Option<Path>): map<Path, string> {
    map p | p in t && t[p].Leaf() && skip != Some(p) :: Encoding(t[p])
  }

  function DigestsOf(codec: Codec, encodings: map<Path, string>): map<Path, string> {
    map p | p in encodings :: codec.Digest(encodings[p])
  }

  predicate NodeAccepted(p: Path, n: Node) {
    match n
    case Special => false
    case Link(target) => LinkTarget(Join(p), target).Ok?
    case _ => true
  }

  /** No special files, and every symlink passes the target check again. */
  ghost predicate WalkAccepts(t: Tree, skip: Option<Path>) {
    forall p :: p in t && skip != Some(p) ==> NodeAccepted(p, t[p])
  }

  /**
   What the walk accepts at a path on disk: no special file, and of symlinks those with a printable path and a target
   that is not blank, has no backslash, is relative, climbs no further than its directory is deep and does not end at
   the root.
   */
  lemma NodeAcceptedMeans(p: Path, n: Node)
    requires p != [] && AllOrdinary(p)
    ensures NodeAccepted(p, n) <==>
            && !n.Special?
            && (n.Link? ==>
                  var t := Clean(false, Split(n.target));
                  && !Blank(Join(p)) && '\\' !in Join(p)
                  && !Blank(n.target) && '\\' !in n.target && !IsAbs(n.target)
                  && t != [] && Ups(t) < |p| && !(Ups(t) == |t| == |p| - 1))
  {
    if n.Link? {
      SplitOfJoin(p);
      FirstChar(p);
      OrdinaryHasNoUps(p);
      CleanIsIdempotent(false, p);
      LocalPathAccepts(Join(p));
      LinkTargetAccepts(Join(p), n.target);
    }
  }

  /** The walk with `todo` still to come: all else was accepted, and `out` holds its digests. */
  ghost predicate WalkedSoFar(codec: Codec, t: Tree, skip: Option<Path>, todo: set<Path>, out: map<Path, string>) {
    && todo <= t.Keys
    && (forall p :: p in t && p !in todo && skip != Some(p) ==> NodeAccepted(p, t[p]))
    && out == DigestsOf(codec, Encodings(t - todo, skip))
  }

  lemma EncodingsOneMore(t: Tree, skip: Option<Path>, todo: set<Path>, p: Path)
    requires todo <= t.Keys && p in todo
    ensures Encodings(t - (todo - {p}), skip) ==
            if skip != Some(p) && t[p].Leaf() then Encodings(t - todo, skip)[p := Encoding(t[p])]
            else Encodings(t - todo, skip)
  {
    assert forall q :: q in t - (todo - {p}) <==> q in t - todo || q == p;
    assert forall q :: q in Encodings(t - (todo - {p}), skip) <==>
             q in Encodings(t - todo, skip) || (q == p && skip != Some(p) && t[p].Leaf());
  }

  lemma DigestsOneMore(codec: Codec, encodings: map<Path, string>, p: Path, encoding: string)
    ensures DigestsOf(codec, encodings[p := encoding]) == DigestsOf(codec, encodings)[p := codec.Digest(encoding)]
  {
    assert DigestsOf(codec, encodings[p := encoding]).Keys == DigestsOf(codec, encodings).Keys + {p};
  }

  lemma WalkOne(codec: Codec, t: Tree, skip: Option<Path>, todo: set<Path>, out: map<Path, string>, p: Path)
    requires WalkedSoFar(codec, t, skip, todo, out) && p in todo && (skip != Some(p) ==> NodeAccepted(p, t[p]))
    ensures WalkedSoFar(codec, t, skip, todo - {p},
                   if skip != Some(p) && t[p].Leaf() then out[p := codec.Digest(Encoding(t[p]))] else out)
  {
    EncodingsOneMore(t, skip, todo, p);
    if skip != Some(p) && t[p].Leaf() {
      DigestsOneMore(codec, Encodings(t - todo, skip), p, Encoding(t[p]));
    }
  }

  /** The digest walk, in whatever order the paths come. */
  method FileDigests(codec: Codec, t: Tree, skip: Option<Path>) returns (r: Result<map<Path, string>>)
    ensures r.Ok? <==> WalkAccepts(t, skip)
    ensures r.Ok? ==> r.value == DigestsOf(codec, Encodings(t, skip))
  {
    var out: map<Path, string> := map[];
    var todo := t.Keys;
    while todo != {}
      invariant WalkedSoFar(codec, t, skip, todo, out)
      decreases |todo|
    {
      var p :| p in todo;
      if skip == Some(p) || NodeAccepted(p, t[p]) {
        WalkOne(codec, t, skip, todo, out, p);
      }
      todo := todo - {p};
      if skip != Some(p) {
        if !NodeAccepted(p, t[p]) {
          return Err;
        }
        if t[p].Leaf() {
          out := out[p := codec.Digest(Encoding(t[p]))];
        }
      }
    }
    assert t - {} == t;
    return Ok(out);
  }

  /** Go's map lookup: the empty string when the key is absent. */
  function Lookup(m: map<Path, string>, p: Path): string {
    if p in m then m[p] else ""
  }

  /** What the comparison with a manifest's digests accepts, spelled as the code spells it. */
  ghost predicate Agrees(got: map<Path, string>, want: map<Path, string>) {
    want != map[] && |got| == |want| && forall p :: p in want ==> Lookup(got, p) == want[p]
  }

  method VerifyInstalled(codec: Codec, t: Tree, want: map<Path, string>) returns (ok: bool)
    ensures ok <==> WalkAccepts(t, Some(MANIFEST)) && Agrees(DigestsOf(codec, Encodings(t, Some(MANIFEST))), want)
  {
    if |want| == 0 {
      return false;
    }
    var got := FileDigests(codec, t, Some(MANIFEST));
    if got.Err? || |got.value| != |want| {
      return false;
    }
    var todo := want.Keys;
    while todo != {}
      invariant todo <= want.Keys
      invariant forall p :: p in want && p !in todo ==> Lookup(got.value, p) == want[p]
      decreases |todo|
    {
      var p :| p in todo;
      if Lookup(got.value, p) != want[p] {
        return false;
      }
      todo := todo - {p};
    }
    return true;
  }

  // ----- what agreement means

  lemma {:induction false} SameSizeSubset<T>(a: set<T>, b: set<T>)
    requires a <= b && |a| == |b|
    ensures a == b
  {
    if a != b {
      var x :| x in b && x !in a;
      SubsetSize(a, b - {x});
    }
  }

  lemma {:induction false} SubsetSize<T>(a: set<T>, b: set<T>)
    requires a <= b
    ensures |a| <= |b|
    decreases |a|
  {
    if a != {} {
      var x :| x in a;
      SubsetSize(a - {x}, b - {x});
    }
  }

  /**
   Equal sizes and inclusion force equal maps, as long as no wanted digest is the empty string a missing key
   reads as.
   */
  lemma AgreesMeansEqual(got: map<Path, string>, want: map<Path, string>)
    requires forall p :: p in want ==> want[p] != ""
    ensures Agrees(got, want) <==> got == want && want != map[]
  {
    if Agrees(got, want) {
      assert want.Keys <= got.Keys;
      assert |want.Keys| == |want| && |got.Keys| == |got|;
      SameSizeSubset(want.Keys, got.Keys);
    }
  }

  lemma AnotherName(names: set<Path>) returns (p: Path)
    ensures p !in names
  {
    var n := LongerThanAll(names);
    p := seq(n, _ => "");
  }

  lemma {:induction false} LongerThanAll(names: set<Path>) returns (n: nat)
    ensures forall p :: p in names ==> |p| < n
    decreases |names|
  {
    if names == {} {
      return 0;
    }
    var p :| p in names;
    n := LongerThanAll(names - {p});
    n := if |p| < n then n else |p| + 1;
  }

  /**
   With an empty digest wanted at `p`, the wanted map with that entry under another name agrees without being
   equal.
   */
  lemma EmptyDigestHasADouble(want: map<Path, string>, p: Path) returns (got: map<Path, string>)
    requires p in want && want[p] == ""
    ensures Agrees(got, want) && got != want
  {
    var other := AnotherName(want.Keys);
    got := (want - {p})[other := "sha256:"];
    assert (want - {p}).Keys == want.Keys - {p} && got.Keys == want.Keys - {p} + {other};
    assert |got.Keys| == |got| && |want.Keys| == |want|;
    assert |want.Keys - {p} + {other}| == |want.Keys|;
    assert other in got && other !in want;
  }

  /** Agreement with a manifest's digests means equality exactly when none of them is empty. */
  lemma AgreementIsEquality(want: map<Path, string>)
    requires want != map[]
    ensures (forall got :: Agrees(got, want) ==> got == want) <==> (forall p :: p in want ==> want[p] != "")
  {
    if p :| p in want && want[p] == "" {
      var got := EmptyDigestHasADouble(want, p);
    } else {
      forall got | Agrees(got, want)
        ensures got == want
      {
        AgreesMeansEqual(got, want);
      }
    }
  }

  /**
   What agreement says in general, of digests none of which is empty: as many leaves as recorded digests, each digest
   that is not empty found on its leaf, and no leaf where the recorded digest is empty.
   */
  lemma AgreesMeans(got: map<Path, string>, want: map<Path, string>)
    requires forall p :: p in got ==> got[p] != ""
    ensures Agrees(got, want) <==>
            && want != map[] && |got| == |want|
            && forall p :: p in want ==> if want[p] == "" then p !in got else p in got && got[p] == want[p]
    ensures Agrees(got, want) ==> (got == want <==> forall p :: p in want ==> want[p] != "")
  {
    if forall p :: p in want ==> want[p] != "" {
      AgreesMeansEqual(got, want);
    }
  }

  lemma DigestsDetermineEncodings(codec: Codec, a: map<Path, string>, b: map<Path, string>)
    requires codec.Faithful()
    ensures DigestsOf(codec, a) == DigestsOf(codec, b) <==> a == b
  {
    if DigestsOf(codec, a) == DigestsOf(codec, b) {
      assert a.Keys == DigestsOf(codec, a).Keys && b.Keys == DigestsOf(codec, b).Keys;
      forall p | p in a
        ensures p in b && a[p] == b[p]
      {
        assert p in DigestsOf(codec, a);
        var x, y := codec.sha256(a[p]), codec.sha256(b[p]);
        assert codec.Digest(a[p])[7..] == x && codec.Digest(b[p])[7..] == y;
      }
      assert a == b;
    }
  }

  /** Agreement with digests computed at install time is equality of leaf encodings. */
  lemma AgreesWithInstall(codec: Codec, disk: map<Path, string>, installed: map<Path, string>)
    requires codec.Faithful()
    ensures Agrees(DigestsOf(codec, disk), DigestsOf(codec, installed)) <==> disk == installed && installed != map[]
  {
    AgreesMeansEqual(DigestsOf(codec, disk), DigestsOf(codec, installed));
    DigestsDetermineEncodings(codec, disk, installed);
    assert DigestsOf(codec, installed).Keys == installed.Keys;
    assert DigestsOf(codec, installed) != map[] <==> installed != map[];
  }

  /** Equal encodings are equal leaves, unless a file at install looked like a symlink's encoding. */
  lemma EncodingsDetermineLeaves(disk: Tree, installed: Tree, p: Path)
    requires p in disk && disk[p].Leaf() && !disk[p].Special?
    requires p in installed && installed[p].Leaf() && !installed[p].Special?
    requires Encoding(disk[p]) == Encoding(installed[p])
    ensures disk[p] == installed[p] <==> (disk[p].Link? <==> installed[p].Link?)
    ensures disk[p] != installed[p] ==> "symlink:" <= Encoding(installed[p])
  {
    if disk[p].Link? && installed[p].Link? {
      assert ("symlink:" + disk[p].target)[8..] == disk[p].target;
      assert ("symlink:" + installed[p].target)[8..] == installed[p].target;
    }
  }
}
