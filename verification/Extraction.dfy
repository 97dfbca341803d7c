/**
 Extracting a decoded archive into an empty directory: exactly which archives succeed, the tree they
 leave, and why neither depends on the order of the entries.
 */
module Extraction {
  import opened Wrappers
  import opened CleanPath
  import opened ArchivePaths
  import opened FileTree

  datatype Kind = Directory | Regular(content: string) | Symbolic(linkname: string) | OtherType(flag: nat)

  datatype Entry = Entry(name: string, kind: Kind)

  /** What one acceptable entry asks for: a node at a canonical path. */
  datatype Item = Item(path: Path, node: Node)

  function Decode(e: Entry): Result<Item> {
    match LocalPath(e.name)
    case Err => Err
    case Ok(p) =>
      match e.kind
      case Directory => Ok(Item(p, Dir))
      case Regular(content) => Ok(Item(p, File(content)))
      case Symbolic(linkname) =>
        (match LinkTarget(Join(p), linkname)
         case Err => Err
         case Ok(target) => Ok(Item(p, Link(Join(target)))))
      case OtherType(_) => Err
  }

  lemma DecodedPath(e: Entry)
    requires Decode(e).Ok?
    ensures Decode(e).value.path != [] && AllOrdinary(Decode(e).value.path)
    ensures Decode(e).value.node.Link? ==> SafeTarget(Decode(e).value.path, Decode(e).value.node.target)
  {
    LocalPathAccepts(e.name);
    if e.kind.Symbolic? {
      var entry := Join(LocalPath(e.name).value);
      LocalPathIsIdempotent(e.name);
      LinkTargetAccepts(entry, e.kind.linkname);
      var t := LinkTarget(entry, e.kind.linkname).value;
      FirstCharOfClean(t);
      SplitOfJoin(t);
    }
  }

  // ----- what an archive says, read off its entries

  /** An entry's name, cleaned. */
  function NameOf(e: Entry): Path {
    Clean(false, Split(e.name))
  }

  /**
   An entry that can be taken by itself: its name is not blank, has no backslash, is relative and ends strictly below
   the root; it is a directory, a file or a symlink; and a symlink has a cleaned name that does not print as blanks and
   a target that climbs no further than its directory is deep and does not end at the root.
   */
  predicate TakenAlone(e: Entry) {
    var p := NameOf(e);
    && !Blank(e.name) && '\\' !in e.name && !IsAbs(e.name) && p != [] && Ups(p) == 0 && !e.kind.OtherType?
    && (e.kind.Symbolic? ==>
          var t := Clean(false, Split(e.kind.linkname));
          && !Blank(Join(p)) && !Blank(e.kind.linkname) && '\\' !in e.kind.linkname && !IsAbs(e.kind.linkname)
          && t != []
          && Ups(t) < |p| && !(Ups(t) == |t| == |p| - 1))
  }

  /** Two entries that can stand in one archive: other names, and no file or symlink above the other. */
  predicate Together(a: Entry, b: Entry) {
    && NameOf(a) != NameOf(b)
    && !(!a.kind.Directory? && NameOf(a) < NameOf(b))
    && !(!b.kind.Directory? && NameOf(b) < NameOf(a))
  }

  /** The node an entry asks for. */
  predicate IsNodeOf(e: Entry, n: Node) {
    match e.kind
    case Directory => n == Dir
    case Regular(content) => n == File(content)
    case Symbolic(linkname) => n.Link? && Split(n.target) == Clean(false, Split(linkname))
    case OtherType(_) => false
  }

  /** A tree that is what these entries say: each one's node under its name, and directories above them, and no more. */
  ghost predicate Describes(es: seq<Entry>, t: Tree) {
    && (forall i :: 0 <= i < |es| ==> NameOf(es[i]) in t && IsNodeOf(es[i], t[NameOf(es[i])]))
    && (forall p :: p in t && (forall i :: 0 <= i < |es| ==> p != NameOf(es[i])) ==>
          t[p] == Dir && p != [] && exists i :: 0 <= i < |es| && p < NameOf(es[i]))
    && (forall p, i :: 0 <= i < |es| && p != [] && p < NameOf(es[i]) ==> p in t)
  }

  /** One entry decodes exactly if it can be taken alone, and then to its name and its node. */
  lemma DecodeAccepts(e: Entry)
    ensures Decode(e).Ok? <==> TakenAlone(e)
    ensures Decode(e).Ok? ==> Decode(e).value.path == NameOf(e) && IsNodeOf(e, Decode(e).value.node)
  {
    LocalPathAccepts(e.name);
    if LocalPath(e.name).Ok? && e.kind.Symbolic? {
      LinkTargetOfCleanName(e.name, e.kind.linkname);
      LinkTargetAccepts(e.name, e.kind.linkname);
      if Decode(e).Ok? {
        var t := Clean(false, Split(e.kind.linkname));
        FirstCharOfClean(t);
        SplitOfJoin(t);
      }
    }
  }

  // ----- the characterisation

  ghost predicate Above(p: Path, q: Path) {
    p < q
  }

  /** Two items can live in one tree: different paths, and neither is a leaf above the other. */
  ghost predicate Compatible(a: Item, b: Item) {
    && a.path != b.path
    && !(a.node.Leaf() && Above(a.path, b.path))
    && !(b.node.Leaf() && Above(b.path, a.path))
  }

  /** Every entry acceptable by itself, and every two of them compatible. */
  ghost predicate Acceptable(es: seq<Entry>) {
    && (forall i :: 0 <= i < |es| ==> Decode(es[i]).Ok?)
    && (forall i, j :: 0 <= i < j < |es| ==> Compatible(Decode(es[i]).value, Decode(es[j]).value))
  }

  /** One entry is an acceptable archive exactly when it is acceptable by itself. */
  lemma OneEntry(e: Entry)
    ensures Acceptable([e]) <==> Decode(e).Ok?
  {
    assert [e][0] == e;
  }

  /** The name "./ " cleans to one blank: taken as a file or directory, refused as a symlink, whatever the target. */
  lemma BlankNameIsNoSymlink(content: string, target: string)
    ensures Acceptable([Entry("./ ", Regular(content))]) && Acceptable([Entry("./ ", Directory)])
    ensures !Acceptable([Entry("./ ", Symbolic(target))])
  {
    BlankName();
    var link := Entry("./ ", Symbolic(target));
    assert [link][0] == link && Join([" "]) == " ";
    DecodeAccepts(link);
  }

  function Items(es: seq<Entry>): (items: seq<Item>)
    requires forall i :: 0 <= i < |es| ==> Decode(es[i]).Ok?
    ensures |items| == |es| && forall i :: 0 <= i < |es| ==> items[i] == Decode(es[i]).value
  {
    seq(|es|, i requires 0 <= i < |es| => Decode(es[i]).value)
  }

  /** Every path an item sequence mentions, with its ancestors. */
  function Domain(items: seq<Item>): set<Path> {
    if items == [] then {} else Domain(items[..|items| - 1]) + Prefixes(items[|items| - 1].path)
  }

  /** The files and symlinks among the items, by path. */
  function Leaves(items: seq<Item>): map<Path, Node> {
    if items == [] then map[]
    else
      var last := items[|items| - 1];
      var before := Leaves(items[..|items| - 1]);
      if last.node.Leaf() then before[last.path := last.node] else before
  }

  /** The tree an archive describes: its leaves, and directories wherever else its paths lead. */
  function TreeOf(items: seq<Item>): Tree {
    map p | p in Domain(items) :: if p in Leaves(items) then Leaves(items)[p] else Dir
  }

  lemma {:induction false} DomainWitness(items: seq<Item>, p: Path) returns (i: nat)
    requires p in Domain(items)
    ensures i < |items| && p in Prefixes(items[i].path)
  {
    i := |items| - 1;
    if p !in Prefixes(items[i].path) {
      i := DomainWitness(items[..i], p);
    }
  }

  lemma {:induction false} DomainHas(items: seq<Item>, i: nat, p: Path)
    requires i < |items| && p in Prefixes(items[i].path)
    ensures p in Domain(items)
  {
    if i < |items| - 1 {
      DomainHas(items[..|items| - 1], i, p);
    }
  }

  lemma {:induction false} LeafWitness(items: seq<Item>, p: Path) returns (i: nat)
    requires p in Leaves(items)
    ensures i < |items| && items[i] == Item(p, Leaves(items)[p]) && items[i].node.Leaf()
  {
    i := |items| - 1;
    if items[i].path != p || !items[i].node.Leaf() {
      i := LeafWitness(items[..i], p);
    }
  }

  ghost predicate Consistent(items: seq<Item>) {
    forall i, j :: 0 <= i < j < |items| ==> Compatible(items[i], items[j])
  }

  lemma {:induction false} LeafHas(items: seq<Item>, i: nat)
    requires i < |items| && items[i].node.Leaf()
    requires forall j :: i < j < |items| ==> items[j].path != items[i].path
    ensures items[i].path in Leaves(items) && Leaves(items)[items[i].path] == items[i].node
  {
    if i < |items| - 1 {
      LeafHas(items[..|items| - 1], i);
    }
  }

  lemma {:induction false} LeavesInDomain(items: seq<Item>, p: Path)
    requires p in Leaves(items) && forall i :: 0 <= i < |items| ==> items[i].path != []
    ensures p in Domain(items)
  {
    var i := LeafWitness(items, p);
    InPrefixes(p, p);
    DomainHas(items, i, p);
  }

  /** An archive is acceptable exactly when each entry can be taken alone and every two can stand together. */
  lemma AcceptableMeans(es: seq<Entry>)
    ensures Acceptable(es) <==>
            && (forall i :: 0 <= i < |es| ==> TakenAlone(es[i]))
            && (forall i, j :: 0 <= i < j < |es| ==> Together(es[i], es[j]))
  {
    forall i | 0 <= i < |es|
      ensures Decode(es[i]).Ok? <==> TakenAlone(es[i])
    {
      DecodeAccepts(es[i]);
    }
    if forall i :: 0 <= i < |es| ==> TakenAlone(es[i]) {
      forall i, j | 0 <= i < j < |es|
        ensures Compatible(Decode(es[i]).value, Decode(es[j]).value) <==> Together(es[i], es[j])
      {
        DecodeAccepts(es[i]);
        DecodeAccepts(es[j]);
      }
    }
  }

  // ----- one entry

  ghost predicate CompatibleWithAll(items: seq<Item>, item: Item) {
    forall i :: 0 <= i < |items| ==> Compatible(items[i], item)
  }

  ghost predicate Unseen(items: seq<Item>, p: Path) {
    forall i :: 0 <= i < |items| ==> items[i].path != p
  }

  ghost predicate NoLinkAbove(items: seq<Item>, p: Path) {
    forall i :: 0 <= i < |items| && items[i].node.Link? ==> !Above(items[i].path, p)
  }

  /** The items so far: compatible, and each at a real path with a real node. */
  ghost predicate Sound(items: seq<Item>) {
    && Consistent(items)
    && forall i :: 0 <= i < |items| ==> items[i].path != [] && !items[i].node.Special?
  }

  /** The calls one entry makes: directories above it, then the node itself. */
  function AddItem(t: Tree, item: Item): Outcome
    requires item.path != []
  {
    if item.node.Dir? then MkdirAll(t, item.path)
    else match MkdirAll(t, Parent(item.path))
         case Done(t') =>
           (match item.node
            case File(content) => WriteFile(t', item.path, content)
            case Link(target) => Symlink(t', target, item.path)
            case _ => Refused)
         case other => other
  }

  /** A leaf met on the way to a path is the node of an item at or above that path. */
  lemma LeafOnTheWay(items: seq<Item>, p: Path, q: Path) returns (i: nat)
    requires Sound(items) && q in Prefixes(p) && q in TreeOf(items) && !TreeOf(items)[q].Dir?
    ensures i < |items| && items[i] == Item(q, TreeOf(items)[q]) && (q == p || Above(q, p))
  {
    i := LeafWitness(items, q);
    InPrefixes(q, p);
  }

  lemma ClearMeansNoLeafAbove(items: seq<Item>, p: Path)
    requires Sound(items)
    ensures ClearPath(TreeOf(items), p) <==>
            forall i :: 0 <= i < |items| && items[i].node.Leaf() ==> items[i].path != p && !Above(items[i].path, p)
  {
    var t := TreeOf(items);
    if ClearPath(t, p) {
      forall i | 0 <= i < |items| && items[i].node.Leaf()
        ensures items[i].path != p && !Above(items[i].path, p)
      {
        LeafHas(items, i);
        LeavesInDomain(items, items[i].path);
        InPrefixes(items[i].path, p);
      }
    } else {
      var q :| q in Prefixes(p) && q in t && !t[q].Dir?;
      var i := LeafOnTheWay(items, p, q);
    }
  }

  lemma AboveParent(q: Path, p: Path)
    requires p != []
    ensures (q == Parent(p) || Above(q, Parent(p))) <==> Above(q, p)
  {
    assert Above(q, p) ==> q == p[..|q|] && q <= Parent(p);
  }

  /** No call of one entry ever meets a symlink, given the two checks made before it. */
  lemma NeverFollows(items: seq<Item>, item: Item)
    requires Sound(items) && item.path != [] && Unseen(items, item.path) && NoLinkAbove(items, item.path)
    ensures !AddItem(TreeOf(items), item).Followed?
  {
    var t := TreeOf(items);
    var p := item.path;
    var top := if item.node.Dir? then p else Parent(p);
    MkdirAllEffect(t, top);
    if MkdirAll(t, top).Followed? {
      var q :| q in Prefixes(top) && q in t && t[q].Link?;
      var i := LeafOnTheWay(items, top, q);
      AboveParent(q, p);
    } else if MkdirAll(t, top).Done? && !item.node.Dir? {
      assert p !in Prefixes(top) by { InPrefixes(p, top); }
      if p in t && t[p].Link? {
        InPrefixes(p, p);
        var i := LeafOnTheWay(items, p, p);
      }
    }
  }

  /** Whether a path that is not an item's own has a node: only if items lie below it. */
  lemma UnseenInTree(items: seq<Item>, p: Path)
    requires Sound(items) && p != [] && Unseen(items, p)
    ensures p in TreeOf(items) <==> exists i :: 0 <= i < |items| && Above(p, items[i].path)
    ensures p in TreeOf(items) ==> TreeOf(items)[p].Dir?
  {
    if p in Domain(items) {
      var i := DomainWitness(items, p);
      InPrefixes(p, items[i].path);
      if p in Leaves(items) {
        var j := LeafWitness(items, p);
      }
    }
    if i :| 0 <= i < |items| && Above(p, items[i].path) {
      InPrefixes(p, items[i].path);
      DomainHas(items, i, p);
    }
  }

  /** The calls succeed exactly when the entry is compatible with everything extracted so far. */
  lemma AddItemSucceeds(items: seq<Item>, item: Item)
    requires Sound(items) && item.path != [] && !item.node.Special? && Unseen(items, item.path)
    ensures AddItem(TreeOf(items), item).Done? <==> CompatibleWithAll(items, item)
  {
    var t := TreeOf(items);
    var p := item.path;
    if item.node.Dir? {
      MkdirAllEffect(t, p);
      ClearMeansNoLeafAbove(items, p);
    } else {
      var q := Parent(p);
      MkdirAllEffect(t, q);
      ClearMeansNoLeafAbove(items, q);
      forall i | 0 <= i < |items|
        ensures (items[i].path == q || Above(items[i].path, q)) <==> Above(items[i].path, p)
      {
        AboveParent(items[i].path, p);
      }
      UnseenInTree(items, p);
      InPrefixes(p, q);
      InPrefixes(q, q);
    }
  }

  /** ... and then the tree is that of the items with this one added. */
  lemma AddItemTree(items: seq<Item>, item: Item)
    requires Sound(items) && item.path != [] && !item.node.Special? && Unseen(items, item.path)
    requires AddItem(TreeOf(items), item).Done?
    ensures AddItem(TreeOf(items), item).tree == TreeOf(items + [item])
  {
    var t := TreeOf(items);
    var p := item.path;
    var more := items + [item];
    assert more[..|items|] == items;
    assert Domain(more) == Domain(items) + Prefixes(p);
    var top := if item.node.Dir? then p else Parent(p);
    MkdirAllEffect(t, top);
    assert p !in Leaves(items) by {
      if p in Leaves(items) {
        var i := LeafWitness(items, p);
      }
    }
    forall q | q in Leaves(items)
      ensures q in Domain(items)
    {
      LeavesInDomain(items, q);
    }
    assert AddItem(t, item).tree.Keys == TreeOf(more).Keys;
  }

  // ----- the extraction loop

  /** The walk up from an entry's parent directory, looking for a symlink entry. */
  method HasSymlinkAncestor(name: Path, links: set<Path>) returns (found: bool)
    requires name != []
    ensures found <==> exists link :: link in links && link != [] && Above(link, name)
  {
    var dir := Parent(name);
    while dir != []
      invariant dir < name
      invariant forall link :: link in links && Above(link, name) ==> link <= dir
      decreases |dir|
    {
      if dir in links {
        return true;
      }
      forall link | link in links && link <= dir
        ensures link <= Parent(dir)
      {
        assert link != dir && |link| < |dir|;
        assert link == dir[..|link|] == Parent(dir)[..|link|];
      }
      dir := Parent(dir);
    }
    return false;
  }

  lemma ItemsAreSound(es: seq<Entry>)
    requires Acceptable(es)
    ensures Sound(Items(es))
    ensures forall i :: 0 <= i < |es| ==>
              var item := Items(es)[i];
              AllOrdinary(item.path) && (item.node.Link? ==> SafeTarget(item.path, item.node.target))
  {
    forall i | 0 <= i < |es|
      ensures Items(es)[i].path != [] && !Items(es)[i].node.Special? && AllOrdinary(Items(es)[i].path)
      ensures Items(es)[i].node.Link? ==> SafeTarget(Items(es)[i].path, Items(es)[i].node.target)
    {
      DecodedPath(es[i]);
    }
  }

  lemma AcceptablePrefix(es: seq<Entry>, n: nat)
    requires n <= |es| && Acceptable(es)
    ensures Acceptable(es[..n])
  {
  }

  /** An acceptable archive with one more entry at the end. */
  lemma AcceptableMore(es: seq<Entry>, e: Entry)
    requires Acceptable(es) && Decode(e).Ok? && CompatibleWithAll(Items(es), Decode(e).value)
    ensures Acceptable(es + [e]) && Items(es + [e]) == Items(es) + [Decode(e).value]
  {
    var more := es + [e];
    assert forall i :: 0 <= i < |es| ==> more[i] == es[i] && Items(es)[i] == Decode(es[i]).value;
    assert more[|es|] == e;
  }

  lemma LastIsCompatible(es: seq<Entry>, e: Entry)
    requires Acceptable(es) && Acceptable(es + [e])
    ensures Decode(e).Ok? && CompatibleWithAll(Items(es), Decode(e).value)
  {
    var more := es + [e];
    assert more[|es|] == e;
    forall i | 0 <= i < |es|
      ensures Compatible(Items(es)[i], Decode(e).value)
    {
      assert more[i] == es[i] && Compatible(Decode(more[i]).value, Decode(more[|es|]).value);
    }
  }

  lemma AcceptableStep(es: seq<Entry>, i: nat)
    requires i < |es| && Acceptable(es[..i])
    ensures Acceptable(es[..i + 1]) <==>
            Decode(es[i]).Ok? && CompatibleWithAll(Items(es[..i]), Decode(es[i]).value)
    ensures Acceptable(es[..i + 1]) ==> Items(es[..i + 1]) == Items(es[..i]) + [Decode(es[i]).value]
    ensures Acceptable(es) ==> Acceptable(es[..i + 1])
  {
    assert es[..i + 1] == es[..i] + [es[i]];
    if Acceptable(es[..i + 1]) {
      LastIsCompatible(es[..i], es[i]);
    }
    if Decode(es[i]).Ok? && CompatibleWithAll(Items(es[..i]), Decode(es[i]).value) {
      AcceptableMore(es[..i], es[i]);
    }
    if Acceptable(es) {
      AcceptablePrefix(es, i + 1);
    }
  }

  /** `seen` and `links` are the paths of all items, and of the symlinks among them. */
  ghost predicate Tracks(items: seq<Item>, seen: set<Path>, links: set<Path>) {
    && (forall p :: p in seen <==> exists i :: 0 <= i < |items| && items[i].path == p)
    && (forall p :: p in links <==> exists i :: 0 <= i < |items| && items[i].path == p && items[i].node.Link?)
  }

  /** A name seen before, or under a symlink, is not compatible with the items so far. */
  lemma SeenOrUnderLink(items: seq<Item>, seen: set<Path>, links: set<Path>, item: Item)
    requires Tracks(items, seen, links) && CompatibleWithAll(items, item)
    ensures item.path !in seen && forall link :: link in links ==> !Above(link, item.path)
  {
    forall link | link in links
      ensures !Above(link, item.path)
    {
      var i :| 0 <= i < |items| && items[i].path == link && items[i].node.Link?;
      assert Compatible(items[i], item);
    }
  }

  lemma NotSeenNotUnderLink(items: seq<Item>, seen: set<Path>, links: set<Path>, p: Path)
    requires Tracks(items, seen, links) && p !in seen && Sound(items)
    requires !exists link :: link in links && link != [] && Above(link, p)
    ensures Unseen(items, p) && NoLinkAbove(items, p)
  {
    forall i | 0 <= i < |items| && items[i].node.Link?
      ensures !Above(items[i].path, p)
    {
      assert items[i].path in links;
    }
    forall i | 0 <= i < |items|
      ensures items[i].path != p
    {
      assert items[i].path in seen;
    }
  }

  /** One turn of the loop: the entry is taken exactly when it is acceptable next to those before it. */
  method ExtractEntry(t: Tree, e: Entry, seen: set<Path>, links: set<Path>, ghost items: seq<Item>)
    returns (item: Result<Item>, t': Tree)
    requires Sound(items) && t == TreeOf(items) && Tracks(items, seen, links)
    ensures item.Ok? <==> Decode(e).Ok? && CompatibleWithAll(items, Decode(e).value)
    ensures item.Ok? ==> item == Decode(e) && t' == TreeOf(items + [item.value])
  {
    var name := LocalPath(e.name);
    if name.Err? {
      return Err, t;
    }
    LocalPathAccepts(e.name);
    item := Decode(e);
    assert item.Ok? ==> item.value.path == name.value;
    if item.Ok? && CompatibleWithAll(items, item.value) {
      SeenOrUnderLink(items, seen, links, item.value);
    }
    if name.value in seen {
      return Err, t;
    }
    var under := HasSymlinkAncestor(name.value, links);
    if under || item.Err? {
      return Err, t;
    }
    DecodedPath(e);
    NotSeenNotUnderLink(items, seen, links, item.value.path);
    NeverFollows(items, item.value);
    AddItemSucceeds(items, item.value);
    var outcome := AddItem(t, item.value);
    if !outcome.Done? {
      return Err, t;
    }
    AddItemTree(items, item.value);
    return item, outcome.tree;
  }

  lemma TracksOneMore(items: seq<Item>, seen: set<Path>, links: set<Path>, item: Item)
    requires Tracks(items, seen, links)
    ensures Tracks(items + [item], seen + {item.path}, if item.node.Link? then links + {item.path} else links)
  {
    var more := items + [item];
    assert more[|items|] == item && forall i :: 0 <= i < |items| ==> more[i] == items[i];
  }

  lemma DecodedItems(es: seq<Entry>)
    requires Acceptable(es)
    ensures forall i :: 0 <= i < |es| ==>
              Items(es)[i].path == NameOf(es[i]) && IsNodeOf(es[i], Items(es)[i].node)
  {
    forall i | 0 <= i < |es|
      ensures Items(es)[i].path == NameOf(es[i]) && IsNodeOf(es[i], Items(es)[i].node)
    {
      DecodeAccepts(es[i]);
    }
  }

  /** The node at an item's own path is the item's. */
  lemma ItemInTree(items: seq<Item>, i: nat)
    requires Sound(items) && i < |items|
    ensures items[i].path in TreeOf(items) && TreeOf(items)[items[i].path] == items[i].node
  {
    var p := items[i].path;
    InPrefixes(p, p);
    DomainHas(items, i, p);
    if items[i].node.Leaf() {
      LeafHas(items, i);
    } else if p in Leaves(items) {
      var j := LeafWitness(items, p);
    }
  }

  lemma OnlyAncestors(items: seq<Item>, p: Path) returns (i: nat)
    requires Sound(items) && p in TreeOf(items) && Unseen(items, p)
    ensures i < |items| && p != [] && Above(p, items[i].path) && TreeOf(items)[p] == Dir
  {
    i := DomainWitness(items, p);
    InPrefixes(p, items[i].path);
    UnseenInTree(items, p);
  }

  /** The tree of an acceptable archive is what its entries say. */
  lemma TreeDescribes(es: seq<Entry>)
    requires Acceptable(es)
    ensures Describes(es, TreeOf(Items(es)))
  {
    var items := Items(es);
    var t := TreeOf(items);
    ItemsAreSound(es);
    DecodedItems(es);
    forall i | 0 <= i < |es|
      ensures NameOf(es[i]) in t && IsNodeOf(es[i], t[NameOf(es[i])])
    {
      ItemInTree(items, i);
    }
    forall p | p in t && forall i :: 0 <= i < |es| ==> p != NameOf(es[i])
      ensures t[p] == Dir && p != [] && exists i :: 0 <= i < |es| && p < NameOf(es[i])
    {
      var i := OnlyAncestors(items, p);
    }
    forall p, i | 0 <= i < |es| && p != [] && p < NameOf(es[i])
      ensures p in t
    {
      InPrefixes(p, items[i].path);
      DomainHas(items, i, p);
    }
  }

  /**
   Extraction succeeds exactly when every entry can be taken alone and every two together, and leaves exactly the tree
   the entries describe. It never goes through a symlink: the file-system calls are only made where no symlink is met.
   */
  method Extract(es: seq<Entry>) returns (ok: bool, t: Tree)
    ensures ok <==> Acceptable(es)
    ensures ok ==> t == TreeOf(Items(es))
    ensures ok <==>
            && (forall i :: 0 <= i < |es| ==> TakenAlone(es[i]))
            && (forall i, j :: 0 <= i < j < |es| ==> Together(es[i], es[j]))
    ensures ok ==> Describes(es, t)
  {
    AcceptableMeans(es);
    t := map[];
    var seen: set<Path> := {};
    var links: set<Path> := {};
    ghost var items: seq<Item> := [];
    for i := 0 to |es|
      invariant Acceptable(es[..i]) && items == Items(es[..i]) && t == TreeOf(items)
      invariant Tracks(items, seen, links)
    {
      ItemsAreSound(es[..i]);
      AcceptableStep(es, i);
      var item, t' := ExtractEntry(t, es[i], seen, links, items);
      if item.Err? {
        return false, t;
      }
      TracksOneMore(items, seen, links, item.value);
      t := t';
      items := items + [item.value];
      seen := seen + {item.value.path};
      if item.value.node.Link? {
        links := links + {item.value.path};
      }
    }
    assert es[..|es|] == es;
    TreeDescribes(es);
    return true, t;
  }

  // ----- order independence

  ghost predicate NoDuplicates(es: seq<Entry>) {
    forall i, j :: 0 <= i < j < |es| ==> es[i] != es[j]
  }

  lemma {:induction false} NoDuplicatesByCount(es: seq<Entry>)
    ensures NoDuplicates(es) <==> forall e :: multiset(es)[e] <= 1
  {
    if es != [] {
      var n := |es| - 1;
      NoDuplicatesByCount(es[..n]);
      assert es == es[..n] + [es[n]];
      if NoDuplicates(es) {
        assert es[n] !in es[..n];
        assert forall e :: multiset(es)[e] == multiset(es[..n])[e] + (if e == es[n] then 1 else 0);
      } else if NoDuplicates(es[..n]) {
        var i, j :| 0 <= i < j < |es| && es[i] == es[j];
        assert es[n] in es[..n] by {
          assert j == n && es[..n][i] == es[n];
        }
        assert multiset(es)[es[n]] >= 2;
      } else {
        var e :| multiset(es[..n])[e] > 1;
        assert multiset(es)[e] > 1;
      }
    }
  }

  /** Acceptability speaks only about which entries there are and that none comes twice. */
  lemma AcceptableBySet(es: seq<Entry>)
    ensures Acceptable(es) <==>
            && NoDuplicates(es)
            && (forall e :: e in es ==> Decode(e).Ok?)
            && (forall e, f :: e in es && f in es && e != f ==> Compatible(Decode(e).value, Decode(f).value))
  {
    if Acceptable(es) {
      forall e, f | e in es && f in es && e != f
        ensures Compatible(Decode(e).value, Decode(f).value)
      {
        var i :| 0 <= i < |es| && es[i] == e;
        var j :| 0 <= j < |es| && es[j] == f;
        assert i < j || j < i;
      }
      assert NoDuplicates(es);
    }
  }

  /** Leaves and domain, and so the tree, only depend on which items there are. */
  lemma SameMembersSameTree(a: seq<Item>, b: seq<Item>)
    requires Sound(a) && Sound(b)
    requires forall item :: item in a <==> item in b
    ensures TreeOf(a) == TreeOf(b)
  {
    forall p
      ensures p in Domain(a) <==> p in Domain(b)
      ensures p in Leaves(a) <==> p in Leaves(b)
      ensures p in Leaves(a) ==> Leaves(a)[p] == Leaves(b)[p]
    {
      DomainTransfers(a, b, p);
      DomainTransfers(b, a, p);
    }
  }

  lemma DomainTransfers(a: seq<Item>, b: seq<Item>, p: Path)
    requires Sound(b) && forall item :: item in a ==> item in b
    ensures p in Domain(a) ==> p in Domain(b)
    ensures p in Leaves(a) ==> p in Leaves(b) && Leaves(a)[p] == Leaves(b)[p]
  {
    if p in Domain(a) {
      var i := DomainWitness(a, p);
      assert a[i] in b;
      var j :| 0 <= j < |b| && b[j] == a[i];
      DomainHas(b, j, p);
    }
    if p in Leaves(a) {
      var i := LeafWitness(a, p);
      assert a[i] in b;
      var j :| 0 <= j < |b| && b[j] == a[i];
      LeafHas(b, j);
    }
  }

  lemma ItemsOfMembers(es: seq<Entry>, es': seq<Entry>, item: Item)
    requires forall i :: 0 <= i < |es| ==> Decode(es[i]).Ok?
    requires forall i :: 0 <= i < |es'| ==> Decode(es'[i]).Ok?
    requires forall e :: e in es ==> e in es'
    ensures item in Items(es) ==> item in Items(es')
  {
    if item in Items(es) {
      var i :| 0 <= i < |es| && item == Items(es)[i];
      assert es[i] in es';
      var j :| 0 <= j < |es'| && es'[j] == es[i];
      assert Items(es')[j] == item;
    }
  }

  /** Whether an archive is accepted, and the tree it leaves, do not depend on the order of its entries. */
  lemma OrderIndependence(es: seq<Entry>, es': seq<Entry>)
    requires multiset(es) == multiset(es')
    ensures Acceptable(es) <==> Acceptable(es')
    ensures Acceptable(es) ==> TreeOf(Items(es)) == TreeOf(Items(es'))
  {
    assert forall e :: e in es <==> e in multiset(es);
    assert forall e :: e in es' <==> e in multiset(es');
    NoDuplicatesByCount(es);
    NoDuplicatesByCount(es');
    AcceptableBySet(es);
    AcceptableBySet(es');
    if Acceptable(es) {
      ItemsAreSound(es);
      ItemsAreSound(es');
      forall item
        ensures item in Items(es) <==> item in Items(es')
      {
        ItemsOfMembers(es, es', item);
        ItemsOfMembers(es', es, item);
      }
      SameMembersSameTree(Items(es), Items(es'));
    }
  }

  /** Every entry's own path is in the tree. */
  lemma EntryInTree(es: seq<Entry>, i: nat)
    requires Acceptable(es) && i < |es|
    ensures LocalPath(es[i].name).Ok? && LocalPath(es[i].name).value == Items(es)[i].path
    ensures Items(es)[i].path in TreeOf(Items(es))
  {
    DecodedPath(es[i]);
    var p := Items(es)[i].path;
    InPrefixes(p, p);
    DomainHas(Items(es), i, p);
  }

  // ----- containment

  lemma ParentInTree(items: seq<Item>, p: Path)
    requires Sound(items) && p in TreeOf(items)
    ensures p != [] && IsDir(TreeOf(items), Parent(p))
  {
    var i := DomainWitness(items, p);
    InPrefixes(p, items[i].path);
    var q := Parent(p);
    if q != [] {
      assert q <= items[i].path;
      InPrefixes(q, items[i].path);
      DomainHas(items, i, q);
      if q in Leaves(items) {
        var j := LeafWitness(items, q);
        assert Above(q, items[i].path);
      }
    }
  }

  /** The tree of an accepted archive is well formed and all its links are safe. */
  lemma ExtractedIsContained(es: seq<Entry>)
    requires Acceptable(es)
    ensures Contained(TreeOf(Items(es)))
  {
    var items := Items(es);
    var t := TreeOf(items);
    ItemsAreSound(es);
    forall p | p in t
      ensures p != [] && AllOrdinary(p) && IsDir(t, Parent(p))
      ensures t[p].Link? ==> SafeTarget(p, t[p].target)
    {
      ParentInTree(items, p);
      var i := DomainWitness(items, p);
      InPrefixes(p, items[i].path);
      assert forall k :: 0 <= k < |p| ==> p[k] == items[i].path[k];
      if t[p].Link? {
        var j := LeafWitness(items, p);
      }
    }
  }

  /**
   After a successful extraction no path of ordinary names resolves above the root, however many symlinks it
   meets.
   */
  lemma ExtractionContainment(es: seq<Entry>, query: Path, steps: nat)
    requires Acceptable(es) && AllOrdinary(query)
    ensures var w := Resolve(TreeOf(Items(es)), At([], query), steps);
            && !w.Escaped?
            && (w.Reached? ==> w.path == [] || w.path in TreeOf(Items(es)))
            && (w.At? ==> IsDir(TreeOf(Items(es)), w.cur))
  {
    ExtractedIsContained(es);
    OrdinaryHasNoUps(query);
    ResolutionStaysInside(TreeOf(Items(es)), At([], query), steps);
  }
}
