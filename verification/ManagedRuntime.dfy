/**
 The managed runtime's lifecycle as one process runs it: building a stage, promoting it over the
 installed bundle with a backup and a rollback, diagnosing the result, removing it.
 Every file-system call that may fail takes its outcome from a `Faults` value.
 */
module ManagedRuntime {
  import opened Wrappers
  import opened CleanPath
  import opened FileTree
  import opened Extraction
  import opened Digests
  import opened ArchivePaths

  datatype Bundle = Bundle(
    id: string,
    version: string,
    artifactDigest: string,
    signatureDigest: string,
    trustRootDigest: string,
    scopedStoreRequired: bool,
    hostStoreForbidden: bool)

  /** Where a bundle lives: the install root, and how many resolution steps the kernel grants a path. */
  datatype Site = Site(codec: Codec, root: string, steps: nat)
  {
    function RootOf(id: string): string {
      root + "/" + id
    }

    function CommandOf(id: string): string {
      RootOf(id) + "/bin/nerdctl"
    }

    ghost predicate Valid() {
      codec.Faithful() && steps >= 2
    }
  }

  function ManifestFor(site: Site, b: Bundle, digests: map<Path, string>): Manifest {
    Manifest(b.id, b.version, site.RootOf(b.id), site.CommandOf(b.id), b.artifactDigest, b.signatureDigest,
             b.trustRootDigest, b.scopedStoreRequired, b.hostStoreForbidden, digests)
  }

  // ----- the manifest file and the command file

  datatype ManifestRead = Parsed(m: Manifest) | Absent | Broken

  /** Reading follows symlinks, as `os.ReadFile` does. */
  function ReadManifest(site: Site, t: Tree): ManifestRead {
    match Resolve(t, At([], MANIFEST), site.steps)
    case Reached(q) =>
      if q in t && t[q].File? && site.codec.parse(t[q].content).Some?
      then Parsed(site.codec.parse(t[q].content).value) else Broken
    case Missing(_) => Absent
    case Dangling => Absent
    case _ => Broken
  }

  /** Writing follows symlinks too, truncating a file or creating one where the last name is free. */
  function WriteManifest(site: Site, t: Tree, m: Manifest): Option<Tree> {
    match Resolve(t, At([], MANIFEST), site.steps)
    case Reached(q) => if q in t && t[q].File? then Some(t[q := File(site.codec.marshal(m))]) else None
    case Missing(q) => Some(t[q := File(site.codec.marshal(m))])
    case _ => None
  }

  datatype Check = Fine | NotExist | Bad

  /** The command must be there, not a directory, and no symlink on the way. */
  function CheckCommand(t: Tree): Check {
    if COMMAND_DIR !in t then NotExist
    else if !t[COMMAND_DIR].Dir? then Bad
    else if COMMAND !in t then NotExist
    else if t[COMMAND].Link? || t[COMMAND].Dir? then Bad
    else Fine
  }

  /** The manifest in `t` names this bundle and this root: the condition for replacing or removing it. */
  predicate Claims(site: Site, t: Tree, id: string) {
    var read := ReadManifest(site, t);
    read.Parsed? && read.m.bundleId == id && read.m.root == site.RootOf(id) && read.m.commandPath == site.CommandOf(id)
  }

  // ----- building a stage

  /** The stage an archive turns into, when it turns into one. */
  ghost function Staged(site: Site, b: Bundle, es: seq<Entry>): Option<Tree> {
    if !Acceptable(es) then None
    else
      var t := TreeOf(Items(es));
      if CheckCommand(t) != Fine || !WalkAccepts(t, None) then None
      else WriteManifest(site, t, ManifestFor(site, b, DigestsOf(site.codec, Encodings(t, None))))
  }

  method BuildStage(site: Site, b: Bundle, es: seq<Entry>) returns (r: Option<Tree>)
    ensures r == Staged(site, b, es)
  {
    var ok, t := Extract(es);
    if !ok || CheckCommand(t) != Fine {
      return None;
    }
    var digests := FileDigests(site.codec, t, None);
    if digests.Err? {
      return None;
    }
    return WriteManifest(site, t, ManifestFor(site, b, digests.value));
  }

  // ----- diagnosis

  datatype Status = OK | NotInstalled | Degraded

  /** What `Doctor` reports of the tree at a bundle root; an unreadable manifest is an error. */
  ghost function Diagnose(site: Site, b: Bundle, top: Option<Tree>): Result<Status> {
    if top.None? then Ok(NotInstalled)
    else
      match ReadManifest(site, top.value)
      case Absent => Ok(NotInstalled)
      case Broken => Err
      case Parsed(m) =>
        if m.bundleId != b.id || m.artifactDigest != b.artifactDigest || m.signatureDigest != b.signatureDigest
           || m.trustRootDigest != b.trustRootDigest then Ok(Degraded)
        else if m.commandPath != site.CommandOf(b.id) || m.root != site.RootOf(b.id) then Ok(Degraded)
        else if !m.scopedStore || !m.hostStoreExcluded then Ok(Degraded)
        else match CheckCommand(top.value)
             case NotExist => Ok(NotInstalled)
             case Bad => Ok(Degraded)
             case Fine =>
               if WalkAccepts(top.value, Some(MANIFEST))
                  && Agrees(DigestsOf(site.codec, Encodings(top.value, Some(MANIFEST))), m.fileDigests)
               then Ok(OK) else Ok(Degraded)
  }

  method Doctor(site: Site, b: Bundle, top: Option<Tree>) returns (r: Result<Status>)
    ensures r == Diagnose(site, b, top)
  {
    if top.None? {
      return Ok(NotInstalled);
    }
    var read := ReadManifest(site, top.value);
    match read {
      case Absent => return Ok(NotInstalled);
      case Broken => return Err;
      case Parsed(m) =>
        if m.bundleId != b.id || m.artifactDigest != b.artifactDigest || m.signatureDigest != b.signatureDigest
           || m.trustRootDigest != b.trustRootDigest {
          return Ok(Degraded);
        }
        if m.commandPath != site.CommandOf(b.id) || m.root != site.RootOf(b.id) {
          return Ok(Degraded);
        }
        if !m.scopedStore || !m.hostStoreExcluded {
          return Ok(Degraded);
        }
        var check := CheckCommand(top.value);
        if check != Fine {
          return if check == NotExist then Ok(NotInstalled) else Ok(Degraded);
        }
        var ok := VerifyInstalled(site.codec, top.value, m.fileDigests);
        return if ok then Ok(OK) else Ok(Degraded);
    }
  }

  /** The manifest pins this bundle and this root, with both store policies on. */
  predicate Pins(site: Site, b: Bundle, m: Manifest) {
    && m.bundleId == b.id && m.artifactDigest == b.artifactDigest && m.signatureDigest == b.signatureDigest
    && m.trustRootDigest == b.trustRootDigest
    && m.root == site.RootOf(b.id) && m.commandPath == site.CommandOf(b.id)
    && m.scopedStore && m.hostStoreExcluded
  }

  /** The command is a plain file in a real directory. */
  predicate HasCommand(t: Tree) {
    && COMMAND_DIR in t && t[COMMAND_DIR].Dir?
    && COMMAND in t && t[COMMAND].File?
  }

  /** What the digest comparison finds on the disk: as many leaves as records, each where and as it is recorded. */
  ghost predicate Recorded(site: Site, t: Tree, m: Manifest) {
    var got := DigestsOf(site.codec, Encodings(t, Some(MANIFEST)));
    && |got| == |m.fileDigests|
    && forall p :: p in m.fileDigests ==>
         if m.fileDigests[p] == "" then p !in got else p in got && got[p] == m.fileDigests[p]
  }

  /**
   What each diagnosis says of the disk. OK: the manifest pins the bundle, the command is a plain file, every link
   passes the target check, and the leaves are as recorded; the records are then exactly the digests of all leaves but
   the manifest if and only if none of them is empty. NotInstalled: nothing at the root, no manifest, or a pinned
   manifest and no command. An error: a manifest that is there and does not read. Everything else is Degraded.
   */
  lemma DiagnosisMeans(site: Site, b: Bundle, t: Tree, read: ManifestRead)
    requires read == ReadManifest(site, t)
    ensures Diagnose(site, b, None) == Ok(NotInstalled)
    ensures Diagnose(site, b, Some(t)) == Err <==> read.Broken?
    ensures Diagnose(site, b, Some(t)) == Ok(NotInstalled) <==>
            read.Absent? ||
            (read.Parsed? && Pins(site, b, read.m) &&
             (COMMAND_DIR !in t || (t[COMMAND_DIR].Dir? && COMMAND !in t)))
    ensures Diagnose(site, b, Some(t)) == Ok(OK) <==>
            && read.Parsed? && Pins(site, b, read.m) && HasCommand(t) && WalkAccepts(t, Some(MANIFEST))
            && Recorded(site, t, read.m)
    ensures Diagnose(site, b, Some(t)) == Ok(OK) ==>
              (read.m.fileDigests == DigestsOf(site.codec, Encodings(t, Some(MANIFEST))) <==>
               forall p :: p in read.m.fileDigests ==> read.m.fileDigests[p] != "")
  {
    if read.Parsed? {
      var got := DigestsOf(site.codec, Encodings(t, Some(MANIFEST)));
      DigestsAreNotEmpty(site.codec, Encodings(t, Some(MANIFEST)));
      AgreesMeans(got, read.m.fileDigests);
      if WalkAccepts(t, Some(MANIFEST)) && COMMAND in t {
        CommandIsALeaf(site, t);
      }
    }
  }

  lemma DigestsAreNotEmpty(codec: Codec, encodings: map<Path, string>)
    ensures forall p :: p in DigestsOf(codec, encodings) ==> DigestsOf(codec, encodings)[p] != ""
  {
    forall p | p in DigestsOf(codec, encodings)
      ensures DigestsOf(codec, encodings)[p] != ""
    {
      assert |codec.Digest(encodings[p])| >= 7;
    }
  }

  lemma CommandIsALeaf(site: Site, t: Tree)
    requires WalkAccepts(t, Some(MANIFEST)) && COMMAND in t
    ensures !t[COMMAND].Special?
    ensures t[COMMAND].Leaf() ==> |DigestsOf(site.codec, Encodings(t, Some(MANIFEST)))| > 0
  {
    assert COMMAND != MANIFEST && NodeAccepted(COMMAND, t[COMMAND]);
    if t[COMMAND].Leaf() {
      assert COMMAND in DigestsOf(site.codec, Encodings(t, Some(MANIFEST)));
    }
  }

  // ----- install, then doctor

  lemma PlainManifest(site: Site, t: Tree)
    requires site.steps >= 2 && (MANIFEST in t ==> t[MANIFEST].File? || t[MANIFEST].Dir?)
    ensures MANIFEST !in t ==> Resolve(t, At([], MANIFEST), site.steps) == Missing(MANIFEST)
    ensures MANIFEST in t ==> Resolve(t, At([], MANIFEST), site.steps) == Reached(MANIFEST)
  {
    var w := At([], MANIFEST);
    var next := Step(t, w);
    assert [] + [MANIFEST[0]] == MANIFEST && MANIFEST[1..] == [];
    if next.At? {
      assert Step(t, next) == Reached(MANIFEST);
      ResolveStops(t, Reached(MANIFEST), site.steps - 2);
      assert Resolve(t, next, site.steps - 1) == Resolve(t, Reached(MANIFEST), site.steps - 2);
    } else {
      ResolveStops(t, next, site.steps - 1);
    }
  }

  /** Where following the manifest's own name ends: at that name, or, if a symlink has it, where its target leads. */
  function ManifestEnd(site: Site, t: Tree): Walk
    requires site.steps >= 1
  {
    if MANIFEST !in t then Missing(MANIFEST)
    else match t[MANIFEST]
         case Link(target) =>
           if IsAbs(target) then Escaped else Resolve(t, At([], Split(target)), site.steps - 1)
         case _ => Reached(MANIFEST)
  }

  lemma ManifestEnds(site: Site, t: Tree)
    requires site.steps >= 2
    ensures Resolve(t, At([], MANIFEST), site.steps) == ManifestEnd(site, t)
  {
    var w := At([], MANIFEST);
    assert [] + [MANIFEST[0]] == MANIFEST && MANIFEST[1..] == [];
    var next := Step(t, w);
    if MANIFEST in t && t[MANIFEST].Link? {
      assert Split(t[MANIFEST].target) + [] == Split(t[MANIFEST].target);
      if !next.At? {
        ResolveStops(t, next, site.steps - 1);
      }
    } else if MANIFEST in t && t[MANIFEST].Dir? {
      PlainManifest(site, t);
    } else {
      ResolveStops(t, next, site.steps - 1);
    }
  }

  /**
   What the diagnosis makes of the tree before any manifest is compared. A missing manifest is one whose name, followed
   through symlinks, ends at a free name; an error is a manifest that is there and no readable file.
   */
  lemma MissingOrUnreadable(site: Site, b: Bundle, t: Tree)
    requires site.steps >= 2
    ensures MANIFEST !in t ==> Diagnose(site, b, Some(t)) == Ok(NotInstalled)
    ensures MANIFEST in t && (t[MANIFEST].Dir? || t[MANIFEST].Special?) ==> Diagnose(site, b, Some(t)) == Err
    ensures MANIFEST in t && t[MANIFEST].File? ==>
              (Diagnose(site, b, Some(t)) == Err <==> site.codec.parse(t[MANIFEST].content).None?)
    ensures var end := ManifestEnd(site, t);
            && (end.Missing? || end.Dangling? ==> Diagnose(site, b, Some(t)) == Ok(NotInstalled))
            && (Diagnose(site, b, Some(t)) == Err <==>
                && !end.Missing? && !end.Dangling?
                && (end.Reached? && end.path in t && t[end.path].File? ==>
                      site.codec.parse(t[end.path].content).None?))
  {
    ManifestEnds(site, t);
  }

  /** The tree of a bundle root with a command file and a manifest, and nothing else. */
  function CommandOnly(command: string, manifest: string): Tree {
    map[COMMAND_DIR := Dir, COMMAND := File(command), MANIFEST := File(manifest)]
  }

  lemma CommandOnlyDigests(codec: Codec, command: string, manifest: string)
    ensures var t := CommandOnly(command, manifest);
            && DigestsOf(codec, Encodings(t, Some(MANIFEST))) == map[COMMAND := codec.Digest(command)]
            && WalkAccepts(t, Some(MANIFEST))
  {
    assert Encodings(CommandOnly(command, manifest), Some(MANIFEST)) == map[COMMAND := command];
  }

  /** An empty digest recorded for a file that is not there stands for the command's: OK, whatever the command holds. */
  lemma EmptyDigestIsDiagnosedOk(site: Site, m: Manifest, b: Bundle, command: string, gone: Path)
    requires site.Valid() && Pins(site, b, m) && m.fileDigests == map[gone := ""]
    requires gone != COMMAND
    ensures Diagnose(site, b, Some(CommandOnly(command, site.codec.marshal(m)))) == Ok(OK)
  {
    var t := CommandOnly(command, site.codec.marshal(m));
    PlainManifest(site, t);
    assert ReadManifest(site, t) == Parsed(m);
    CommandOnlyDigests(site.codec, command, site.codec.marshal(m));
    DiagnosisMeans(site, b, t, Parsed(m));
  }

  /** The manifest just written is the one read back, through whatever symlinks. */
  lemma WrittenIsRead(site: Site, t: Tree, m: Manifest)
    requires site.Valid() && WriteManifest(site, t, m).Some?
    ensures ReadManifest(site, WriteManifest(site, t, m).value) == Parsed(m)
  {
    var w := Resolve(t, At([], MANIFEST), site.steps);
    if w.Missing? {
      MissingIsAbsent(t, At([], MANIFEST), site.steps);
    }
    ResolvesToWritten(t, At([], MANIFEST), site.steps, w.path, site.codec.marshal(m));
  }

  /** A leaf named like the manifest is counted at install and skipped at diagnosis, so the digests never agree. */
  lemma ManifestLeafNeverAgrees(codec: Codec, disk: Tree, installed: Tree)
    requires MANIFEST in installed && installed[MANIFEST].Leaf()
    ensures !Agrees(DigestsOf(codec, Encodings(disk, Some(MANIFEST))), DigestsOf(codec, Encodings(installed, None)))
  {
    var want := DigestsOf(codec, Encodings(installed, None));
    assert MANIFEST in Encodings(installed, None);
    assert want[MANIFEST] == codec.Digest(Encodings(installed, None)[MANIFEST]);
    assert |want[MANIFEST]| >= 7;
    assert MANIFEST !in DigestsOf(codec, Encodings(disk, Some(MANIFEST)));
  }

  /** An archive entry is named like the install manifest. */
  ghost predicate NamesManifest(es: seq<Entry>) {
    exists i :: 0 <= i < |es| && LocalPath(es[i].name) == Ok(MANIFEST)
  }

  lemma DirectoryBlocksManifest(site: Site, t: Tree, m: Manifest)
    requires site.Valid() && MANIFEST in t && t[MANIFEST].Dir?
    ensures WriteManifest(site, t, m).None?
  {
    PlainManifest(site, t);
  }

  lemma NamedEntryInTree(es: seq<Entry>)
    requires Acceptable(es) && NamesManifest(es)
    ensures MANIFEST in TreeOf(Items(es))
  {
    var i :| 0 <= i < |es| && LocalPath(es[i].name) == Ok(MANIFEST);
    EntryInTree(es, i);
  }

  lemma LeafIsNamed(es: seq<Entry>, p: Path) returns (i: nat)
    requires Acceptable(es) && p in Leaves(Items(es))
    ensures i < |es| && LocalPath(es[i].name) == Ok(p) && Items(es)[i].path == p
    ensures Items(es)[i].node == Leaves(Items(es))[p]
  {
    i := LeafWitness(Items(es), p);
    assert Decode(es[i]).value.path == p;
  }

  /** In a stage that was built, the manifest's name is taken exactly by an entry of that name, and then by a leaf. */
  lemma ManifestEntry(site: Site, b: Bundle, es: seq<Entry>)
    requires site.Valid() && Staged(site, b, es).Some?
    ensures MANIFEST in TreeOf(Items(es)) <==> NamesManifest(es)
    ensures MANIFEST in TreeOf(Items(es)) ==> TreeOf(Items(es))[MANIFEST].Leaf()
  {
    var t := TreeOf(Items(es));
    if NamesManifest(es) {
      NamedEntryInTree(es);
    }
    if MANIFEST in t {
      if t[MANIFEST].Dir? {
        DirectoryBlocksManifest(site, t, ManifestFor(site, b, DigestsOf(site.codec, Encodings(t, None))));
      } else {
        var i := LeafIsNamed(es, MANIFEST);
      }
    }
  }

  /**
   What a built stage is: the archive's tree, accepted by the walk, with the manifest written into it and
   readable.
   */
  lemma StageFacts(site: Site, b: Bundle, es: seq<Entry>)
    requires site.Valid() && Staged(site, b, es).Some?
    ensures var t := TreeOf(Items(es));
            var t' := Staged(site, b, es).value;
            var m := ManifestFor(site, b, DigestsOf(site.codec, Encodings(t, None)));
            && Acceptable(es) && CheckCommand(t) == Fine && WalkAccepts(t, None)
            && ReadManifest(site, t') == Parsed(m)
            && (!NamesManifest(es) ==> MANIFEST !in t && t' == t[MANIFEST := File(site.codec.marshal(m))])
            && (NamesManifest(es) ==> MANIFEST in t && t[MANIFEST].Leaf())
  {
    var t := TreeOf(Items(es));
    WrittenIsRead(site, t, ManifestFor(site, b, DigestsOf(site.codec, Encodings(t, None))));
    ManifestEntry(site, b, es);
    if MANIFEST !in t {
      PlainManifest(site, t);
    }
  }

  /** What a stage's manifest records: the bundle's pins, this root, and the digest of every leaf of the archive. */
  lemma StageRecords(site: Site, b: Bundle, es: seq<Entry>)
    requires site.Valid() && Staged(site, b, es).Some?
    ensures ReadManifest(site, Staged(site, b, es).value).Parsed?
    ensures var m := ReadManifest(site, Staged(site, b, es).value).m;
            var t := TreeOf(Items(es));
            && m.bundleId == b.id && m.version == b.version
            && m.root == site.root + "/" + b.id && m.commandPath == site.root + "/" + b.id + "/bin/nerdctl"
            && m.artifactDigest == b.artifactDigest && m.signatureDigest == b.signatureDigest
            && m.trustRootDigest == b.trustRootDigest
            && m.scopedStore == b.scopedStoreRequired && m.hostStoreExcluded == b.hostStoreForbidden
            && (forall p :: p in m.fileDigests <==> p in t && t[p].Leaf())
            && (forall p :: p in m.fileDigests ==>
                  m.fileDigests[p] == "sha256:" + site.codec.sha256(if t[p].Link? then "symlink:" + t[p].target
                                                                   else if t[p].File? then t[p].content else ""))
  {
    StageFacts(site, b, es);
  }

  /**
   Which archives stage, and to what: acceptable ones with a command file, accepted by the walk, in which the manifest's
   name, followed through symlinks, ends at a free name or a file; the manifest is then written there, and nothing else.
   */
  lemma StagesExactly(site: Site, b: Bundle, es: seq<Entry>)
    requires site.Valid()
    ensures Staged(site, b, es).Some? <==>
            && Acceptable(es) && HasCommand(TreeOf(Items(es))) && WalkAccepts(TreeOf(Items(es)), None)
            && var end := ManifestEnd(site, TreeOf(Items(es)));
               end.Missing? || (end.Reached? && end.path in TreeOf(Items(es)) && TreeOf(Items(es))[end.path].File?)
    ensures Staged(site, b, es).Some? ==>
              var t, t' := TreeOf(Items(es)), Staged(site, b, es).value;
              var at := ManifestEnd(site, t).path;
              at in t' && t'[at].File? && t'.Keys == t.Keys + {at} && forall p :: p in t && p != at ==> t'[p] == t[p]
  {
    if Acceptable(es) {
      var t := TreeOf(Items(es));
      ManifestEnds(site, t);
      if WalkAccepts(t, None) && COMMAND in t {
        assert NodeAccepted(COMMAND, t[COMMAND]);
      }
    }
  }

  /** A tree a manifest was written into is claimed by what that manifest says, and by nothing else. */
  lemma WrittenIsClaimed(site: Site, t: Tree, m: Manifest, id: string)
    requires site.Valid() && WriteManifest(site, t, m).Some?
    ensures Claims(site, WriteManifest(site, t, m).value, id) <==>
            m.bundleId == id && m.root == site.RootOf(id) && m.commandPath == site.CommandOf(id)
  {
    WrittenIsRead(site, t, m);
  }

  /**
   A staged tree is the root of one bundle only, and under one install root only: whatever site looks at it, with the
   same codec and steps, and whatever id the root has.
   */
  lemma StagedIsClaimed(site: Site, b: Bundle, es: seq<Entry>, other: Site, id: string)
    requires site.Valid() && Staged(site, b, es).Some? && other.codec == site.codec && other.steps == site.steps
    ensures Claims(other, Staged(site, b, es).value, id) <==> id == b.id && other.root == site.root
  {
    StageFacts(site, b, es);
    var t := Staged(site, b, es).value;
    assert ReadManifest(other, t) == ReadManifest(site, t);
    if id == b.id {
      SameRoot(site.root, other.root, id);
    }
  }

  /** A tree that some archive of this bundle was staged to. */
  ghost predicate StagedFor(site: Site, t: Tree, owner: string) {
    site.Valid() && exists b: Bundle, es :: b.id == owner && Staged(site, b, es) == Some(t)
  }

  lemma OneOwner(site: Site, t: Tree, id: string)
    ensures forall owner :: StagedFor(site, t, owner) ==> (Claims(site, t, id) <==> id == owner)
  {
    forall owner | StagedFor(site, t, owner)
      ensures Claims(site, t, id) <==> id == owner
    {
      var b: Bundle, es :| b.id == owner && Staged(site, b, es) == Some(t);
      StagedIsClaimed(site, b, es, site, id);
    }
  }

  lemma SameRoot(a: string, b: string, id: string)
    ensures a + "/" + id == b + "/" + id ==> a == b
  {
    if a + "/" + id == b + "/" + id {
      assert a == (a + "/" + id)[..|a|] && b == (b + "/" + id)[..|b|];
    }
  }

  /** Adding the manifest file changes nothing the diagnosis looks at. */
  lemma ManifestIsSkipped(t: Tree, content: string)
    requires MANIFEST !in t && CheckCommand(t) == Fine && WalkAccepts(t, None)
    ensures var t' := t[MANIFEST := File(content)];
            && Encodings(t', Some(MANIFEST)) == Encodings(t, None) && Encodings(t, None) != map[]
            && WalkAccepts(t', Some(MANIFEST)) && CheckCommand(t') == Fine
  {
    assert COMMAND in Encodings(t, None);
    assert Encodings(t[MANIFEST := File(content)], Some(MANIFEST)) == Encodings(t, None);
  }

  /**
   A root whose manifest is still the one the install wrote is diagnosed OK exactly when the install itself could
   be, the command file is in place, the walk accepts the links, and the leaf encodings, apart from the manifest,
   are those the archive had.
   */
  lemma DoctorSoundness(site: Site, b: Bundle, es: seq<Entry>, disk: Tree)
    requires site.Valid() && Staged(site, b, es).Some?
    requires ReadManifest(site, disk) == ReadManifest(site, Staged(site, b, es).value)
    ensures Diagnose(site, b, Some(disk)) == Ok(OK) <==>
            && b.scopedStoreRequired && b.hostStoreForbidden && !NamesManifest(es)
            && CheckCommand(disk) == Fine && WalkAccepts(disk, Some(MANIFEST))
            && Encodings(disk, Some(MANIFEST)) == Encodings(TreeOf(Items(es)), None)
    ensures disk == Staged(site, b, es).value && !NamesManifest(es) ==>
              CheckCommand(disk) == Fine && WalkAccepts(disk, Some(MANIFEST))
              && Encodings(disk, Some(MANIFEST)) == Encodings(TreeOf(Items(es)), None)
  {
    var t := TreeOf(Items(es));
    StageFacts(site, b, es);
    if NamesManifest(es) {
      ManifestLeafNeverAgrees(site.codec, disk, t);
    } else {
      ManifestIsSkipped(t, site.codec.marshal(ManifestFor(site, b, DigestsOf(site.codec, Encodings(t, None)))));
      AgreesWithInstall(site.codec, Encodings(disk, Some(MANIFEST)), Encodings(t, None));
    }
  }

  /**
   Install then doctor, on an undisturbed root: a stage that was built is diagnosed OK exactly when the bundle
   sets both store flags and the archive has no entry named like the install manifest.
   */
  lemma InstallThenDoctor(site: Site, b: Bundle, es: seq<Entry>)
    requires site.Valid() && Staged(site, b, es).Some?
    ensures Diagnose(site, b, Staged(site, b, es)) == Ok(OK) <==>
            b.scopedStoreRequired && b.hostStoreForbidden && !NamesManifest(es)
  {
    DoctorSoundness(site, b, es, Staged(site, b, es).value);
  }

  /** A command file and one more file at the top. */
  function TwoFiles(command: string, name: string, other: string): seq<Entry> {
    [Entry(Join(COMMAND), Regular(command)), Entry(name, Regular(other))]
  }

  /** A name a top-level file can have, beside the command's directory. */
  predicate TopName(name: string) {
    Ordinary(name) && !Blank(name) && '\\' !in name && name != COMMAND[0]
  }

  lemma CommandName()
    ensures LocalPath(Join(COMMAND)) == Ok(COMMAND)
  {
    assert COMMAND[0][0] == 'b' && !IsSpace('b');
    FirstChar(COMMAND);
    PlainName(COMMAND);
  }

  lemma TwoFilesDecode(command: string, name: string, other: string)
    requires TopName(name)
    ensures var es := TwoFiles(command, name, other);
            && Acceptable(es) && Items(es) == [Item(COMMAND, File(command)), Item([name], File(other))]
            && LocalPath(es[1].name) == Ok([name])
  {
    CommandName();
    PlainName([name]);
    var es := TwoFiles(command, name, other);
    assert Decode(es[0]) == Ok(Item(COMMAND, File(command))) && Decode(es[1]) == Ok(Item([name], File(other)));
    assert COMMAND != [name] && !([name] < COMMAND) && !(COMMAND < [name]);
  }

  lemma TwoFilesTree(items: seq<Item>, command: string, name: string, other: string)
    requires name != COMMAND[0] && items == [Item(COMMAND, File(command)), Item([name], File(other))]
    requires Sound(items)
    ensures var t := TreeOf(items);
            && CheckCommand(t) == Fine && WalkAccepts(t, None) && [name] in t && t[[name]] == File(other)
  {
    var t := TreeOf(items);
    LeafHas(items, 0);
    LeafHas(items, 1);
    LeavesInDomain(items, COMMAND);
    LeavesInDomain(items, [name]);
    InPrefixes(COMMAND_DIR, COMMAND);
    assert COMMAND[..1] == COMMAND_DIR;
    DomainHas(items, 0, COMMAND_DIR);
    forall p | p in Leaves(items)
      ensures p == COMMAND || p == [name]
      ensures Leaves(items)[p].File?
    {
      var i := LeafWitness(items, p);
    }
    assert COMMAND_DIR != [name] && COMMAND_DIR != COMMAND;
  }

  lemma ManifestIsTopName()
    ensures MANIFEST == [MANIFEST[0]] && TopName(MANIFEST[0])
  {
    assert MANIFEST[0][0] == 'w' && !IsSpace('w');
  }

  /** A file where the manifest goes does not keep a stage from being built: the manifest replaces it. */
  lemma ManifestReplacesFile(site: Site, b: Bundle, es: seq<Entry>)
    requires site.Valid() && Acceptable(es)
    requires var t := TreeOf(Items(es));
             CheckCommand(t) == Fine && WalkAccepts(t, None) && MANIFEST in t && t[MANIFEST].File?
    ensures Staged(site, b, es).Some?
  {
    PlainManifest(site, TreeOf(Items(es)));
  }

  /** The archive with an entry named like the manifest: its stage is built, and is not diagnosed OK. */
  lemma NamedArchiveIsNeverOk(site: Site, b: Bundle, command: string, other: string)
    requires site.Valid()
    ensures var staged := Staged(site, b, TwoFiles(command, MANIFEST[0], other));
            staged.Some? && Diagnose(site, b, staged) != Ok(OK)
  {
    var name := MANIFEST[0];
    var es := TwoFiles(command, name, other);
    ManifestIsTopName();
    TwoFilesDecode(command, name, other);
    ItemsAreSound(es);
    TwoFilesTree(Items(es), command, name, other);
    ManifestReplacesFile(site, b, es);
    NamedByEntry(es, 1);
    InstallThenDoctor(site, b, es);
  }

  lemma NamedByEntry(es: seq<Entry>, i: nat)
    requires i < |es| && LocalPath(es[i].name) == Ok(MANIFEST)
    ensures NamesManifest(es)
  {
  }

  /** The digest walk refuses what extraction accepted exactly when some stored link target prints as blanks. */
  lemma WalkRefusesOnlyBlanks(es: seq<Entry>)
    requires Acceptable(es)
    ensures WalkAccepts(TreeOf(Items(es)), None) <==>
            forall p :: p in TreeOf(Items(es)) && TreeOf(Items(es))[p].Link? ==> !Blank(TreeOf(Items(es))[p].target)
  {
    var items := Items(es);
    var t := TreeOf(items);
    ItemsAreSound(es);
    forall p | p in t
      ensures NodeAccepted(p, t[p]) <==> (t[p].Link? ==> !Blank(t[p].target))
    {
      if t[p].Leaf() {
        var i := LeafWitness(items, p);
        if t[p].Link? {
          LinkTargetIsIdempotent(es[i].name, es[i].kind.linkname);
        }
      }
    }
  }

  lemma BlankTargetDecodes(name: string, target: string)
    requires LocalPath(name) == Ok([name]) && !Blank(name) && LocalPath(target) == Ok([" "])
    ensures Decode(Entry(name, Symbolic(target))) == Ok(Item([name], Link(" ")))
  {
    assert Join([name]) == name && Join([" "]) == " ";
    LocalPathAccepts(target);
    OrdinaryHasNoUps([" "]);
    LinkTargetAccepts(name, target);
  }

  lemma OneLinkTree(es: seq<Entry>, p: Path, target: string)
    requires Acceptable(es) && Items(es) == [Item(p, Link(target))]
    ensures p in TreeOf(Items(es)) && TreeOf(Items(es))[p] == Link(target)
  {
    LeafHas(Items(es), 0);
    ItemsAreSound(es);
    LeavesInDomain(Items(es), p);
  }

  /** A link to "./ " is accepted by extraction and refused by the walk: its stored target prints as a blank. */
  lemma BlankTargetIsRefused(name: string)
    requires LocalPath(name) == Ok([name]) && !Blank(name)
    ensures var es := [Entry(name, Symbolic("./ "))];
            Acceptable(es) && !WalkAccepts(TreeOf(Items(es)), None)
  {
    BlankName();
    BlankTargetDecodes(name, "./ ");
    var e := Entry(name, Symbolic("./ "));
    OneEntry(e);
    assert Items([e]) == [Item([name], Link(" "))];
    OneLinkTree([e], [name], " ");
    WalkRefusesOnlyBlanks([e]);
  }

  /** A link on disk where the archive has a file whose content spells that link's encoding: the digests cannot tell. */
  ghost predicate Spelled(installed: Tree, disk: Tree, p: Path) {
    p in installed && p in disk && disk[p].Link? && installed[p] == File("symlink:" + disk[p].target)
  }

  /**
   Containment survives installation: a root diagnosed OK against the manifest its install wrote has links leading
   above it exactly when the manifest itself, or a link that a file of the archive spells, is one. The digest walk
   alone would not say so: its target check is lexical and sees the target only.
   */
  lemma DoctorOkIsContained(site: Site, b: Bundle, es: seq<Entry>, disk: Tree)
    requires site.Valid() && Staged(site, b, es).Some? && WellFormed(disk)
    requires ReadManifest(site, disk) == ReadManifest(site, Staged(site, b, es).value)
    requires Diagnose(site, b, Some(disk)) == Ok(OK)
    ensures Contained(disk) <==>
            && (MANIFEST in disk && disk[MANIFEST].Link? ==> SafeTarget(MANIFEST, disk[MANIFEST].target))
            && forall p :: Spelled(TreeOf(Items(es)), disk, p) ==> p != [] && SafeTarget(p, disk[p].target)
    ensures (MANIFEST in disk ==> !disk[MANIFEST].Link?) && (forall p :: !Spelled(TreeOf(Items(es)), disk, p)) ==>
              Contained(disk)
  {
    var t := TreeOf(Items(es));
    DoctorSoundness(site, b, es, disk);
    ExtractedIsContained(es);
    NoSpecials(es);
    forall p | p in disk && disk[p].Link? && p != MANIFEST
      ensures p in t && (t[p] == disk[p] || Spelled(t, disk, p))
    {
      assert p in Encodings(disk, Some(MANIFEST));
      assert p in Encodings(t, None);
      assert Encodings(disk, Some(MANIFEST))[p] == Encodings(t, None)[p];
      EncodingsDetermineLeaves(disk, t, p);
    }
  }

  lemma NoSpecials(es: seq<Entry>)
    requires Acceptable(es)
    ensures forall p :: p in TreeOf(Items(es)) ==> !TreeOf(Items(es))[p].Special?
  {
    ItemsAreSound(es);
    forall p | p in TreeOf(Items(es))
      ensures !TreeOf(Items(es))[p].Special?
    {
      if p in Leaves(Items(es)) {
        var i := LeafWitness(Items(es), p);
      }
    }
  }

  // ----- the install root

  type Tops = map<string, Tree>

  function Top(tops: Tops, name: string): Option<Tree> {
    if name in tops then Some(tops[name]) else None
  }

  function Previous(id: string): string {
    id + ".previous"
  }

  ghost predicate Remnant(left: Tree, t: Tree) {
    forall p :: p in left ==> p in t && left[p] == t[p]
  }

  /** What a recursive removal leaves of a tree: nothing, or the part of it that was not reached when it failed. */
  function LeftOf(t: Tree, left: Option<Tree>): Option<Tree> {
    match left
    case None => None
    case Some(rest) => Some(map p | p in rest && p in t :: t[p])
  }

  function RemoveAll(tops: Tops, name: string, left: Option<Tree>): Tops {
    if name !in tops then tops
    else match LeftOf(tops[name], left)
         case None => tops - {name}
         case Some(rest) => tops[name := rest]
  }

  /** A removal can leave any part of a tree, the whole of it and none included, and nothing else. */
  lemma AnyPartCanBeLeft(t: Tree, left: Tree)
    ensures LeftOf(t, None) == None
    ensures Remnant(left, t) ==> LeftOf(t, Some(left)) == Some(left)
    ensures LeftOf(t, Some(left)).Some? && Remnant(LeftOf(t, Some(left)).value, t)
  {
    assert Remnant(left, t) ==> left == map p | p in left && p in t :: t[p];
  }

  /** A rename that succeeds: the destination must be free or empty. */
  function Rename(tops: Tops, src: string, dst: string): Option<Tops> {
    if src !in tops || (dst in tops && tops[dst] != map[]) then None
    else Some((tops - {src})[dst := tops[src]])
  }

  lemma DroppingAFreshName(tops: Tops, name: string, t: Tree)
    requires name !in tops
    ensures RemoveAll(tops[name := t], name, None) == tops && tops[name := t] - {name} == tops
  {
  }

  /** Nothing is in the way of renaming a tree to this name: it is free, or an empty directory. */
  predicate FreeName(tops: Tops, name: string) {
    name in tops ==> tops[name] == map[]
  }

  /** A rename undone: everything as before, except that an empty directory at the other name is gone. */
  lemma RenameBack(tops: Tops, a: string, b: string)
    requires a in tops && a != b && FreeName(tops, b)
    ensures Rename(tops, a, b).Some?
    ensures Rename(Rename(tops, a, b).value, b, a) == Some(tops - {b})
  {
    var moved := Rename(tops, a, b).value;
    assert (moved - {b})[a := moved[b]] == tops - {b};
  }

  lemma RemovalThenDrop(tops: Tops, name: string, left: Option<Tree>)
    ensures RemoveAll(tops, name, left) - {name} == tops - {name}
    ensures forall n :: n != name ==> Top(RemoveAll(tops, name, left), n) == Top(tops, n)
    ensures name in tops ==> Top(RemoveAll(tops, name, left), name) == LeftOf(tops[name], left)
  {
  }

  /** How the calls of one lifecycle operation end. */
  datatype Faults = Faults(
    lockMade: bool,
    rootStat: bool,
    verified: Option<seq<Entry>>,
    stageDir: Option<string>,
    stat: bool,
    clear: Option<Tree>,
    renameOld: bool,
    renameNew: bool,
    rollback: bool,
    drop: Option<Tree>,
    remove: Option<Tree>)

  /** The calls of a promotion all work: the two renames, and an old root finds its backup name free. */
  predicate Promotes(tops: Tops, id: string, f: Faults) {
    && f.stat && f.renameNew
    && (id in tops ==> f.renameOld && FreeName(RemoveAll(tops, Previous(id), f.clear), Previous(id)))
  }

  /** The install gets as far as promotion: its root is its own or free, and a stage can be built. */
  ghost predicate ReachesPromotion(site: Site, tops: Tops, stages: Tops, b: Bundle, f: Faults) {
    && f.rootStat && (b.id in tops ==> Claims(site, tops[b.id], b.id))
    && f.verified.Some? && Staged(site, b, f.verified.value).Some?
    && f.stageDir.Some? && f.stageDir.value !in stages
  }

  ghost predicate Installs(site: Site, tops: Tops, stages: Tops, b: Bundle, f: Faults) {
    ReachesPromotion(site, tops, stages, b, f) && Promotes(tops, b.id, f)
  }

  /** Removing the backup removes none of it, or there is none. */
  predicate ClearsNothing(tops: Tops, id: string, f: Faults) {
    Previous(id) in tops ==> LeftOf(tops[Previous(id)], f.clear) == Some(tops[Previous(id)])
  }

  /**
   A failed operation: the root as before, or, when the rollback failed too, the old tree whole at the backup
   name.
   */
  predicate Kept(before: Tops, after: Tops, id: string, f: Faults) {
    || Top(after, id) == Top(before, id)
    || (!f.rollback && id !in after && id in before && Top(after, Previous(id)) == Top(before, id))
  }

  /** No call fails. */
  predicate AllWork(f: Faults) {
    && f.lockMade && f.rootStat && f.verified.Some? && f.stageDir.Some? && f.stat && f.clear.None?
    && f.renameOld && f.renameNew && f.drop.None? && f.remove.None?
  }

  class Installer {
    const site: Site
    var tops: Tops
    var stages: Tops
    var locks: set<string>

    constructor (site: Site)
      ensures this.site == site && tops == map[] && stages == map[] && locks == {}
    {
      this.site := site;
      tops, stages, locks := map[], map[], {};
    }

    /**
     The two-rename promotion. Success puts the whole stage at the bundle root. An error return leaves the
     root as it was, or, when the rollback itself failed, leaves the old tree whole at the backup name.
     Whatever was at the backup name is first removed as far as the removal works, and on success
     only what a failing removal leaves is there.
     */
    method PromoteStage(stage: string, id: string, f: Faults) returns (ok: bool)
      requires stage in stages
      modifies this`tops, this`stages
      ensures ok <==> Promotes(old(tops), id, f)
      ensures ok ==> Top(tops, id) == Some(old(stages[stage])) && stages == old(stages) - {stage}
      ensures !ok ==> Kept(old(tops), tops, id, f) && stages == old(stages)
      ensures ok && id in old(tops) ==> Top(tops, Previous(id)) == LeftOf(old(tops)[id], f.drop)
      ensures ok && id !in old(tops) ==>
                Top(tops, Previous(id)) == Top(RemoveAll(old(tops), Previous(id), f.clear), Previous(id))
      ensures !ok && Top(tops, id) == Top(old(tops), id) ==>
                tops == RemoveAll(old(tops), Previous(id), f.clear) ||
                (id in old(tops) && tops == old(tops) - {Previous(id)})
      ensures !ok && id !in old(tops) ==> tops == RemoveAll(old(tops), Previous(id), f.clear)
      ensures ok && f.clear.None? && f.drop.None? ==> Previous(id) !in tops
      ensures (id in old(tops) && Previous(id) in old(tops)
               && LeftOf(old(tops)[Previous(id)], f.clear) !in {None, Some(map[])}) ==> !ok
      ensures id !in old(tops) ==>
                (Top(tops, Previous(id)) == Top(old(tops), Previous(id)) <==> ClearsNothing(old(tops), id, f))
      ensures forall n :: n != id && n != Previous(id) ==> Top(tops, n) == Top(old(tops), n)
    {
      var backup := Previous(id);
      assert |backup| > |id|;
      RemovalThenDrop(tops, backup, f.clear);
      tops := RemoveAll(tops, backup, f.clear);
      if !f.stat {
        return false;
      }
      var hadExisting := id in tops;
      if hadExisting {
        var moved := Rename(tops, id, backup);
        if !f.renameOld || moved.None? {
          return false;
        }
        RenameBack(tops, id, backup);
        tops := moved.value;
      }
      if !f.renameNew {
        if hadExisting && f.rollback {
          var back := Rename(tops, backup, id);
          if back.Some? {
            tops := back.value;
          }
        }
        return false;
      }
      tops := tops[id := stages[stage]];
      stages := stages - {stage};
      if hadExisting {
        RemovalThenDrop(tops, backup, f.drop);
        tops := RemoveAll(tops, backup, f.drop);
      }
      return true;
    }

    /** Everything between lock and unlock. */
    method InstallLocked(b: Bundle, f: Faults) returns (ok: bool)
      modifies this`tops, this`stages
      ensures ok <==> Installs(site, old(tops), old(stages), b, f)
      ensures ok ==> Top(tops, b.id) == Staged(site, b, f.verified.value)
      ensures !ok ==> Kept(old(tops), tops, b.id, f)
      ensures !ReachesPromotion(site, old(tops), old(stages), b, f) ==> tops == old(tops)
      ensures b.id !in old(tops) ==>
                (Top(tops, Previous(b.id)) == Top(old(tops), Previous(b.id)) <==>
                 !ReachesPromotion(site, old(tops), old(stages), b, f) || ClearsNothing(old(tops), b.id, f))
      ensures b.id in old(tops) && !Claims(site, old(tops)[b.id], b.id) ==> tops == old(tops) && stages == old(stages)
      ensures b.id in old(tops) ==>
                forall owner :: StagedFor(site, old(tops)[b.id], owner) && owner != b.id ==> !ok && tops == old(tops)
      ensures forall n :: n != b.id && n != Previous(b.id) ==> Top(tops, n) == Top(old(tops), n)
      ensures f.remove.None? || f.stageDir.None? ==> stages == old(stages)
    {
      if b.id in tops {
        OneOwner(site, tops[b.id], b.id);
      }
      if !f.rootStat || (b.id in tops && !Claims(site, tops[b.id], b.id)) {
        return false;
      }
      if f.verified.None? || f.stageDir.None? || f.stageDir.value in stages {
        return false;
      }
      var dir := f.stageDir.value;
      stages := stages[dir := map[]];
      var staged := BuildStage(site, b, f.verified.value);
      ok := PromoteOrDiscard(b.id, f, staged, dir);
      DroppingAFreshName(old(stages), dir, map[]);
    }

    /** The rest of an install once its stage directory exists: the stage is promoted, or removed again. */
    method PromoteOrDiscard(id: string, f: Faults, staged: Option<Tree>, dir: string) returns (ok: bool)
      requires dir in stages
      modifies this`tops, this`stages
      ensures ok <==> staged.Some? && Promotes(old(tops), id, f)
      ensures ok ==> Top(tops, id) == staged
      ensures !ok ==> Kept(old(tops), tops, id, f)
      ensures staged.None? ==> tops == old(tops)
      ensures id !in old(tops) ==>
                (Top(tops, Previous(id)) == Top(old(tops), Previous(id)) <==>
                 staged.None? || ClearsNothing(old(tops), id, f))
      ensures forall n :: n != id && n != Previous(id) ==> Top(tops, n) == Top(old(tops), n)
      ensures ok || f.remove.None? ==> stages == old(stages) - {dir}
    {
      ok := false;
      if staged.Some? {
        stages := stages[dir := staged.value];
        ok := PromoteStage(dir, id, f);
      }
      if !ok {
        stages := RemoveAll(stages, dir, f.remove);
      }
    }

    /** The lock of this bundle can be taken: nobody holds it, and its file can be made. */
    predicate Locks(id: string, f: Faults)
      reads this
    {
      id !in locks && f.lockMade
    }

    /**
     A lock that cannot be taken refuses at once and changes nothing; otherwise it is taken and released around the
     work. Over an empty root, what is at the backup name survives exactly if the install does not get as far as
     promotion, or the removal there takes nothing of it, whether the install succeeds or not.
     */
    method Install(b: Bundle, f: Faults) returns (ok: bool)
      modifies this
      ensures locks == old(locks)
      ensures ok <==> old(Locks(b.id, f)) && Installs(site, old(tops), old(stages), b, f)
      ensures ok ==> Top(tops, b.id) == Staged(site, b, f.verified.value)
      ensures (&& b.id !in old(locks) && AllWork(f) && f.stageDir.value !in old(stages)
               && Staged(site, b, f.verified.value).Some?
               && (b.id in old(tops) ==> StagedFor(site, old(tops)[b.id], b.id))) ==> ok
      ensures !ok ==> Kept(old(tops), tops, b.id, f)
      ensures !old(Locks(b.id, f)) ==> tops == old(tops) && stages == old(stages)
      ensures !ReachesPromotion(site, old(tops), old(stages), b, f) ==> tops == old(tops)
      ensures b.id !in old(tops) ==>
                (Top(tops, Previous(b.id)) == Top(old(tops), Previous(b.id)) <==>
                 !old(Locks(b.id, f)) || !ReachesPromotion(site, old(tops), old(stages), b, f)
                 || ClearsNothing(old(tops), b.id, f))
      ensures b.id in old(tops) && !Claims(site, old(tops)[b.id], b.id) ==> tops == old(tops)
      ensures b.id in old(tops) ==>
                forall owner :: StagedFor(site, old(tops)[b.id], owner) && owner != b.id ==> !ok && tops == old(tops)
      ensures forall n :: n != b.id && n != Previous(b.id) ==> Top(tops, n) == Top(old(tops), n)
    {
      if b.id in tops {
        OneOwner(site, tops[b.id], b.id);
      }
      if b.id in locks || !f.lockMade {
        return false;
      }
      locks := locks + {b.id};
      ok := InstallLocked(b, f);
      locks := locks - {b.id};
    }

    /** Removes the bundle root, and only when its manifest claims it; a failing removal leaves part of that tree. */
    method Uninstall(id: string, f: Faults) returns (ok: bool, removed: bool)
      modifies this
      ensures locks == old(locks) && stages == old(stages)
      ensures tops != old(tops) ==> old(Locks(id, f)) && id in old(tops) && Claims(site, old(tops)[id], id)
      ensures forall n :: n != id ==> Top(tops, n) == Top(old(tops), n)
      ensures id in tops ==> id in old(tops) && Remnant(tops[id], old(tops)[id])
      ensures ok <==> old(Locks(id, f)) && f.stat &&
                      (id in old(tops) ==> Claims(site, old(tops)[id], id) && f.remove.None?)
      ensures ok ==> (removed <==> id in old(tops)) && id !in tops
      ensures id in old(tops) ==> forall owner :: StagedFor(site, old(tops)[id], owner) ==>
                if id == owner then ok <==> old(Locks(id, f)) && f.stat && f.remove.None?
                else !ok && tops == old(tops)
      ensures !ok ==> !removed
      ensures old(Locks(id, f)) && f.stat && id in old(tops) && Claims(site, old(tops)[id], id) ==>
                Top(tops, id) == LeftOf(old(tops)[id], f.remove)
    {
      if id in tops {
        OneOwner(site, tops[id], id);
      }
      if id in locks || !f.lockMade {
        return false, false;
      }
      ok, removed := false, false;
      locks := locks + {id};
      if !f.stat {
      } else if id !in tops {
        ok := true;
      } else if Claims(site, tops[id], id) {
        tops := RemoveAll(tops, id, f.remove);
        ok, removed := f.remove.None?, f.remove.None?;
      }
      locks := locks - {id};
    }

    /** What one call puts there the other takes away: an install that works, and then an uninstall whose calls work. */
    method InstallThenUninstall(b: Bundle, f: Faults, g: Faults) returns (installed: bool, removed: bool)
      requires site.Valid()
      modifies this
      ensures installed <==> old(Locks(b.id, f)) && Installs(site, old(tops), old(stages), b, f)
      ensures installed && g.lockMade && g.stat && g.remove.None? ==> removed && b.id !in tops
      ensures forall n :: n != b.id && n != Previous(b.id) ==> Top(tops, n) == Top(old(tops), n)
    {
      installed := Install(b, f);
      removed := false;
      if installed {
        assert Staged(site, b, f.verified.value) == Some(tops[b.id]);
        assert StagedFor(site, tops[b.id], b.id);
        var ok, gone := Uninstall(b.id, g);
        removed := ok && gone;
      }
    }

    /**
     Reinstalling fails exactly when the first stat or the install does, and then as an install fails; the diagnosis
     after an install never fails. It reports OK exactly under the conditions of the install-then-doctor theorem.
     */
    method Reinstall(b: Bundle, stat: bool, f: Faults) returns (ok: bool, replaced: bool, status: Status)
      requires site.Valid()
      modifies this
      ensures locks == old(locks)
      ensures ok <==> stat && old(Locks(b.id, f)) && Installs(site, old(tops), old(stages), b, f)
      ensures ok ==>
                && replaced == (b.id in old(tops))
                && Top(tops, b.id) == Staged(site, b, f.verified.value)
                && (status == OK <==>
                    b.scopedStoreRequired && b.hostStoreForbidden && !NamesManifest(f.verified.value))
      ensures !ok ==> !replaced && Kept(old(tops), tops, b.id, f)
      ensures !stat || !old(Locks(b.id, f)) ==> tops == old(tops) && stages == old(stages)
      ensures b.id in old(tops) && !Claims(site, old(tops)[b.id], b.id) ==> tops == old(tops)
      ensures b.id in old(tops) ==>
                forall owner :: StagedFor(site, old(tops)[b.id], owner) && owner != b.id ==> !ok && tops == old(tops)
      ensures forall n :: n != b.id && n != Previous(b.id) ==> Top(tops, n) == Top(old(tops), n)
    {
      if !stat {
        return false, false, Degraded;
      }
      var found := b.id in tops;
      ok := Install(b, f);
      if !ok {
        return false, false, Degraded;
      }
      var r := Doctor(site, b, Top(tops, b.id));
      StageFacts(site, b, f.verified.value);
      InstallThenDoctor(site, b, f.verified.value);
      if r.Err? {
        return false, false, Degraded;
      }
      return true, found, r.value;
    }
  }
}
