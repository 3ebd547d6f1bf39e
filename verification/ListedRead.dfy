/** What a directory listing promises about the files in it: that reading them by path finds them, with the
    sizes listed, through the same three layers. */
module ListedRead {
  import opened Bytes
  import opened Readdir
  import Fat32
  import Fat32Names
  import Fat32Volume
  import Overlay
  import StaticTree
  import Vfs

  // ---------------------------------------------------------------- a path and its last component

  ghost predicate Components(comps: seq<Name>) { forall i :: 0 <= i < |comps| ==> Component(comps[i]) }

  /** An absolute path of these components; without any, the root. */
  function Absolute(comps: seq<Name>): Name { ROOT + JoinPath(comps) }

  lemma {:induction false} JoinMore(comps: seq<Name>, name: Name)
    requires comps != []
    ensures JoinPath(comps + [name]) == JoinPath(comps) + ROOT + name
    decreases |comps|
  {
    var all := comps + [name];
    assert all[1..] == comps[1..] + [name] && all[0] == comps[0];
    if |comps| == 1 {
      assert all[1..] == [name];
    } else {
      JoinMore(comps[1..], name);
    }
  }

  lemma ChildOf(comps: seq<Name>, name: Name)
    requires Components(comps) && Component(name)
    ensures WholePath(Absolute(comps), name) == Absolute(comps + [name]) && Components(comps + [name])
    ensures UpToNul(Absolute(comps)) == Absolute(comps)
  {
    WholeIs(comps, name);
    JoinHasNoNul(comps);
    NoNul(Absolute(comps));
  }

  lemma WholeIs(comps: seq<Name>, name: Name)
    requires Components(comps)
    ensures WholePath(Absolute(comps), name) == Absolute(comps + [name])
  {
    if comps == [] {
      assert Absolute(comps) == ROOT && comps + [name] == [name];
    } else {
      JoinSplit(comps);
      assert |Absolute(comps)| > |ROOT|;
      JoinMore(comps, name);
      assert ROOT + (JoinPath(comps) + ROOT + name) == ROOT + JoinPath(comps) + ROOT + name;
    }
  }

  // ---------------------------------------------------------------- the compiled-in tree

  function StaticChildren(root: StaticTree.Tree, path: Name): seq<StaticTree.Child> {
    TreeChildren(StaticTree.Resolve(root, path))
  }

  /** The children of a compiled-in directory, none of anything else. */
  function TreeChildren(n: Option<StaticTree.Tree>): seq<StaticTree.Child> {
    if n.Some? && n.value.Dir? then n.value.children else []
  }

  lemma {:induction false} TreeMore(node: StaticTree.Tree, comps: seq<Name>, name: Name)
    ensures StaticTree.Descend(node, comps + [name]) ==
      StaticTree.ChildNamed(TreeChildren(StaticTree.Descend(node, comps)), name)
    decreases |comps|
  {
    var all := comps + [name];
    if comps == [] {
      assert all[1..] == [] && all[0] == name;
    } else {
      assert all[1..] == comps[1..] + [name] && all[0] == comps[0];
      if node.Dir? && StaticTree.ChildNamed(node.children, comps[0]).Some? {
        TreeMore(StaticTree.ChildNamed(node.children, comps[0]).value, comps[1..], name);
      }
    }
  }

  /** The tree's own name for a child leads to it. */
  lemma StaticChild(root: StaticTree.Tree, comps: seq<Name>, name: Name)
    requires Components(comps) && Component(name)
    ensures StaticTree.Resolve(root, WholePath(Absolute(comps), name)) ==
      StaticTree.ChildNamed(StaticChildren(root, Absolute(comps)), name)
  {
    ChildOf(comps, name);
    StaticTree.ResolveDescends(root, comps + [name]);
    TreeMore(root, comps, name);
    if comps == [] {
      assert Absolute(comps) == ROOT;
      NoNul(ROOT);
      assert ROOT[1..] == [];
    } else {
      StaticTree.ResolveDescends(root, comps);
    }
  }

  lemma {:induction false} NamedIs(children: seq<StaticTree.Child>, name: Name, i: nat)
    requires i < |children| && UpToNul(children[i].name) == name
    requires forall j: nat :: j < i ==> UpToNul(children[j].name) != name
    ensures StaticTree.ChildNamed(children, name) == Some(children[i].node)
    decreases i
  {
    if i > 0 {
      var rest := children[1..];
      forall j: nat | j < i - 1 ensures UpToNul(rest[j].name) != name { assert rest[j] == children[j + 1]; }
      NamedIs(rest, name, i - 1);
    }
  }

  /** No child before i has its name. */
  ghost predicate OnlyNamed(children: seq<StaticTree.Child>, i: nat) {
    i < |children| && forall j: nat :: j < i ==> UpToNul(children[j].name) != UpToNul(children[i].name)
  }

  // ---------------------------------------------------------------- FAT32

  /** The entries of the directory a lookup found, none of anything else. */
  ghost function EntriesOf(v: Fat32Volume.Volume, chains: nat -> seq<nat>,
    fi: Option<Fat32Volume.FileInfo>): seq<Fat32Names.DirEnt>
    requires fi.Some? && fi.value.isDir ==>
      Fat32Volume.DirOk(v, fi.value.firstCluster, chains(fi.value.firstCluster))
  {
    if fi.Some? && fi.value.isDir
    then Fat32Volume.DirEntries(v, fi.value.firstCluster, chains(fi.value.firstCluster))
    else []
  }

  /** One more component: a match in the directory found so far. */
  lemma {:induction false} VolumeMore(v: Fat32Volume.Volume, chains: nat -> seq<nat>, c: nat, comps: seq<Name>,
    name: Name)
    requires comps != [] && Components(comps) && Component(name)
    requires Fat32Volume.WayOk(v, chains, c, JoinPath(comps))
      && Fat32Volume.WayOk(v, chains, c, JoinPath(comps + [name]))
    ensures Components(comps + [name])
    ensures var d := Fat32Volume.Descend(v, chains, c, comps);
      && (d.Some? && d.value.isDir ==> Fat32Volume.DirOk(v, d.value.firstCluster, chains(d.value.firstCluster)))
      && Fat32Volume.Descend(v, chains, c, comps + [name]) == Fat32Volume.FirstMatch(EntriesOf(v, chains, d), name)
    decreases |comps|
  {
    var all := comps + [name];
    assert all[1..] == comps[1..] + [name] && all[0] == comps[0];
    JoinSplit(comps);
    JoinSplit(all);
    var found := Fat32Volume.FirstMatch(Fat32Volume.DirEntries(v, c, chains(c)), comps[0]);
    if found.Some? && found.value.isDir {
      JoinSplit(all[1..]);
      if |comps| == 1 {
        assert comps[1..] + [name] == [name];
      } else {
        JoinSplit(comps[1..]);
        VolumeMore(v, chains, found.value.firstCluster, comps[1..], name);
      }
    }
  }

  /** The volume finds below a directory exactly what it lists there. */
  lemma FatChild(v: Fat32Volume.Volume, chains: nat -> seq<nat>, comps: seq<Name>, name: Name)
    requires Components(comps) && Component(name)
    requires Fat32.Lists(v, chains, Absolute(comps))
      && Fat32Volume.PathOk(v, chains, WholePath(Absolute(comps), name))
    ensures var listing := Fat32.Listing(v, chains, Absolute(comps));
      Fat32Volume.Lookup(v, chains, WholePath(Absolute(comps), name)) ==
        Fat32Volume.FirstMatch(if listing.Some? then listing.value else [], name)
  {
    ChildOf(comps, name);
    var all := comps + [name];
    TrimmedAbsolute(all);
    Fat32Volume.LookupIs(v, chains, all);
    if comps == [] {
      RootChild(v, chains, name);
    } else {
      TrimmedAbsolute(comps);
      Fat32Volume.LookupIs(v, chains, comps);
      VolumeMore(v, chains, v.rootClus, comps, name);
    }
  }

  lemma TrimmedAbsolute(comps: seq<Name>)
    requires Components(comps)
    ensures Fat32Volume.TrimPath(Absolute(comps)) == JoinPath(comps) && (comps != [] ==> JoinPath(comps) != [])
  {
    JoinHasNoNul(comps);
    NoNul(JoinPath(comps));
    assert Absolute(comps)[1..] == JoinPath(comps);
    if comps != [] { JoinSplit(comps); }
  }

  lemma RootChild(v: Fat32Volume.Volume, chains: nat -> seq<nat>, name: Name)
    requires Component(name) && Fat32.Lists(v, chains, ROOT)
      && Fat32Volume.WayOk(v, chains, v.rootClus, JoinPath([name]))
    ensures Fat32.Listing(v, chains, ROOT) == Some(Fat32Volume.DirEntries(v, v.rootClus, chains(v.rootClus)))
    ensures Fat32Volume.Descend(v, chains, v.rootClus, [name]) ==
      Fat32Volume.FirstMatch(Fat32.Listing(v, chains, ROOT).value, name)
  {
    TrimmedAbsolute([]);
    assert Absolute([]) == ROOT;
    JoinSplit([name]);
  }

  /** Of names that differ in more than case the match is the entry itself. */
  lemma {:induction false} MatchIs(listing: seq<Fat32Names.DirEnt>, i: nat)
    requires i < |listing|
    requires OnlyMatch(listing, i)
    ensures Fat32Volume.FirstMatch(listing, listing[i].name) ==
      Some(Fat32Volume.FileInfo(listing[i].firstCluster, listing[i].size, listing[i].isDir))
    decreases i
  {
    if i > 0 {
      var rest := listing[1..];
      assert forall j: nat :: j < i - 1 ==> rest[j] == listing[j + 1];
      MatchIs(rest, i - 1);
    }
  }

  /** No entry before i has its name, in whatever case. */
  ghost predicate OnlyMatch(listing: seq<Fat32Names.DirEnt>, i: nat) {
    i < |listing| && forall j: nat :: j < i ==> !Fat32Volume.EqCi(listing[j].name, listing[i].name)
  }

  // ---------------------------------------------------------------- the overlay

  /** The overlay finds a child's path exactly when it lists it, and finds the node it lists. */
  lemma OverlayChild(nodes: seq<Overlay.Node>, target: Name, name: Name)
    requires Canonical(target) && NodesPlain(nodes) && Component(name)
    ensures var i := Overlay.Lookup(nodes, WholePath(target, name));
      && (i.Some? <==> InOverlay(nodes, target, name))
      && forall j: nat ::
        j < |nodes| && nodes[j].used && ChildName(nodes[j].Key(), target) == Some(name) ==> i == Some(j)
  {
    var whole := WholePath(target, name);
    NoNul(whole);
    assert whole[|whole| - 1] == name[|name| - 1];
    assert Overlay.KeyOf(whole) == whole;
    forall j: nat | j < |nodes| && nodes[j].used
      ensures nodes[j].Key() == whole <==> ChildName(nodes[j].Key(), target) == Some(name)
      ensures nodes[j].Key() == whole ==> Overlay.Lookup(nodes, whole) == Some(j)
    {
      ChildPathIs(target, name, nodes[j].Key());
      if nodes[j].Key() == whole { Overlay.KeyIsAt(nodes, j); }
    }
  }

  // ---------------------------------------------------------------- a directory and its files

  /** A listing of the directory at comps, in order: nothing surprising in its layers, and every name a component. */
  ghost predicate Orderly(srv: Vfs.Server, nodes: seq<Overlay.Node>, comps: seq<Name>) {
    var target := Absolute(comps);
    && Components(comps) && Overlay.NodesOk(nodes) && Listable(srv.fat, target)
    && Usual(nodes, target, FatListing(srv.fat, target), StaticChildren(srv.root, target))
    && forall i: nat :: i < |FatListing(srv.fat, target)| ==> Component(FatListing(srv.fat, target)[i].name)
  }

  /** What the proofs for each layer need of that. */
  ghost predicate Sound(srv: Vfs.Server, nodes: seq<Overlay.Node>, comps: seq<Name>) {
    && Components(comps) && Overlay.NodesOk(nodes) && NodesPlain(nodes) && Canonical(Absolute(comps))
    && Listable(srv.fat, Absolute(comps))
  }

  lemma OrderlyFat(srv: Vfs.Server, nodes: seq<Overlay.Node>, comps: seq<Name>, i: nat)
    requires Orderly(srv, nodes, comps) && i < |FatListing(srv.fat, Absolute(comps))|
    ensures Sound(srv, nodes, comps) && OnlyMatch(FatListing(srv.fat, Absolute(comps)), i)
      && Component(FatListing(srv.fat, Absolute(comps))[i].name)
  {
    var listing := FatListing(srv.fat, Absolute(comps));
    assert forall j: nat :: j < i ==> !Fat32Volume.EqCi(listing[j].name, listing[i].name);
  }

  lemma OrderlyStatic(srv: Vfs.Server, nodes: seq<Overlay.Node>, comps: seq<Name>, i: nat)
    requires Orderly(srv, nodes, comps) && i < |StaticChildren(srv.root, Absolute(comps))|
    ensures Sound(srv, nodes, comps) && OnlyNamed(StaticChildren(srv.root, Absolute(comps)), i)
      && Component(UpToNul(StaticChildren(srv.root, Absolute(comps))[i].name))
  {
    var children := StaticChildren(srv.root, Absolute(comps));
    assert Plain(UpToNul(children[i].name));
    assert forall j: nat :: j < i ==> UpToNul(children[j].name) != UpToNul(children[i].name);
  }

  ghost function ListingOf(srv: Vfs.Server, nodes: seq<Overlay.Node>, comps: seq<Name>): seq<Entry>
    requires Orderly(srv, nodes, comps)
  {
    var target := Absolute(comps);
    Listing(nodes, target, FatListing(srv.fat, target), StaticChildren(srv.root, target))
  }

  /** The volume's share of a child's path. */
  lemma FatShare(srv: Vfs.Server, comps: seq<Name>, name: Name)
    requires srv.fat != null && Components(comps) && Component(name) && Listable(srv.fat, Absolute(comps))
    requires srv.LowerReadable(WholePath(Absolute(comps), name))
    ensures Fat32Volume.Lookup(srv.fat.vol, srv.fat.chains, WholePath(Absolute(comps), name)) ==
      Fat32Volume.FirstMatch(FatListing(srv.fat, Absolute(comps)), name)
  {
    FatChild(srv.fat.vol, srv.fat.chains, comps, name);
  }

  // ---------------------------------------------------------------- where a file lies

  /** The layer that answers for a path, and what it has there. */
  datatype Place = AtNode(i: nat) | AtVolume(fi: Fat32Volume.FileInfo) | AtTree(node: StaticTree.Tree)

  /** The path names a file of this size, there and in no higher layer. */
  ghost predicate Lies(srv: Vfs.Server, nodes: seq<Overlay.Node>, whole: Name, at: Place, size: nat) {
    match at
    case AtNode(i) =>
      Overlay.Lookup(nodes, whole) == Some(i) && !nodes[i].content.IsDir() && nodes[i].content.dlen == size
    case AtVolume(fi) =>
      && Overlay.Lookup(nodes, whole).None? && srv.fat != null && srv.LowerReadable(whole)
      && Fat32Volume.Lookup(srv.fat.vol, srv.fat.chains, whole) == Some(fi) && !fi.isDir && fi.size == size
    case AtTree(node) =>
      && Overlay.Lookup(nodes, whole).None? && srv.LowerReadable(whole)
      && (srv.fat != null ==> Fat32Volume.Lookup(srv.fat.vol, srv.fat.chains, whole).None?)
      && StaticTree.Resolve(srv.root, whole) == Some(node) && node.File? && |node.data| == size
  }

  lemma ReadThere(srv: Vfs.Server, nodes: seq<Overlay.Node>, whole: Name, at: Place, size: nat)
    requires Overlay.NodesOk(nodes) && Lies(srv, nodes, whole, at, size)
    ensures srv.Readable(nodes, whole) && srv.FileBytes(nodes, whole).Some?
    ensures |srv.FileBytes(nodes, whole).value| == size
  {
  }

  /** Wherever a file is read, it lies somewhere, if FAT32 has no directory there. */
  lemma LiesSomewhere(srv: Vfs.Server, nodes: seq<Overlay.Node>, whole: Name) returns (at: Place)
    requires Overlay.NodesOk(nodes) && srv.Readable(nodes, whole) && srv.FileBytes(nodes, whole).Some?
    requires srv.LowerReadable(whole) && srv.fat != null ==>
      var fi := Fat32Volume.Lookup(srv.fat.vol, srv.fat.chains, whole); fi.Some? ==> !fi.value.isDir
    ensures Lies(srv, nodes, whole, at, |srv.FileBytes(nodes, whole).value|)
  {
    var i := Overlay.Lookup(nodes, whole);
    if i.Some? {
      at := AtNode(i.value);
    } else if srv.fat != null && Fat32Volume.Lookup(srv.fat.vol, srv.fat.chains, whole).Some? {
      at := AtVolume(Fat32Volume.Lookup(srv.fat.vol, srv.fat.chains, whole).value);
    } else {
      at := AtTree(StaticTree.Resolve(srv.root, whole).value);
    }
  }

  // ---------------------------------------------------------------- listed is read

  /** Every file listed can be read under its name, and has the size listed, as long as no hidden twin lets the
      lowest layer show through. */
  lemma ListedIsRead(srv: Vfs.Server, nodes: seq<Overlay.Node>, comps: seq<Name>, e: Entry)
    requires Orderly(srv, nodes, comps)
    requires var target := Absolute(comps);
      !AnyTwinHidden(nodes, target, FatListing(srv.fat, target), StaticChildren(srv.root, target))
    requires e in ListingOf(srv, nodes, comps) && e.flags % 2 == 0
    requires srv.Readable(nodes, WholePath(Absolute(comps), e.name))
    ensures var file := srv.FileBytes(nodes, WholePath(Absolute(comps), e.name));
      file.Some? && |file.value| == e.size
  {
    var at := ListedLies(srv, nodes, comps, WholePath(Absolute(comps), e.name), e);
    ReadThere(srv, nodes, WholePath(Absolute(comps), e.name), at, e.size);
  }

  lemma ListedLies(srv: Vfs.Server, nodes: seq<Overlay.Node>, comps: seq<Name>, whole: Name, e: Entry)
    returns (at: Place)
    requires Orderly(srv, nodes, comps) && whole == WholePath(Absolute(comps), e.name)
    requires var target := Absolute(comps);
      !AnyTwinHidden(nodes, target, FatListing(srv.fat, target), StaticChildren(srv.root, target))
    requires e in ListingOf(srv, nodes, comps) && e.flags % 2 == 0 && srv.Readable(nodes, whole)
    ensures Lies(srv, nodes, whole, at, e.size)
  {
    var target := Absolute(comps);
    var listing, children := FatListing(srv.fat, target), StaticChildren(srv.root, target);
    ListingExactly(nodes, target, listing, children, e);
    ListedIsHighest(nodes, target, listing, children, e);
    match e.layer
    case FromOverlay =>
      var i: nat :| IsNode(nodes, target, e, i);
      NodeLies(srv, nodes, target, whole, e, i);
      at := AtNode(i);
    case FromFat =>
      var i: nat :| IsFat(listing, e, i);
      NotInOverlay(nodes, target, e.name);
      EvenIsZero(listing[i]);
      at := FatLies(srv, nodes, comps, whole, e, i);
    case FromStatic =>
      var i: nat :| IsStatic(children, e, i);
      at := StaticLies(srv, nodes, comps, whole, e, i);
  }

  lemma FatLies(srv: Vfs.Server, nodes: seq<Overlay.Node>, comps: seq<Name>, whole: Name, e: Entry, i: nat)
    returns (at: Place)
    requires Orderly(srv, nodes, comps) && whole == WholePath(Absolute(comps), e.name) && srv.Readable(nodes, whole)
    requires IsFat(FatListing(srv.fat, Absolute(comps)), e, i) && e.flags == 0
    requires !InOverlay(nodes, Absolute(comps), e.name)
    ensures Lies(srv, nodes, whole, at, e.size)
  {
    OrderlyFat(srv, nodes, comps, i);
    OverlayMisses(srv, nodes, comps, whole, e.name);
    at := EntryLies(srv, nodes, comps, whole, e.name, i);
  }

  lemma StaticLies(srv: Vfs.Server, nodes: seq<Overlay.Node>, comps: seq<Name>, whole: Name, e: Entry, i: nat)
    returns (at: Place)
    requires Orderly(srv, nodes, comps) && whole == WholePath(Absolute(comps), e.name) && srv.Readable(nodes, whole)
    requires IsStatic(StaticChildren(srv.root, Absolute(comps)), e, i) && e.flags % 2 == 0
    requires !InOverlay(nodes, Absolute(comps), e.name) && !InFat(FatListing(srv.fat, Absolute(comps)), e.name)
    ensures Lies(srv, nodes, whole, at, e.size)
  {
    OrderlyStatic(srv, nodes, comps, i);
    OverlayMisses(srv, nodes, comps, whole, e.name);
    if srv.fat != null { FatMisses(srv, comps, e.name); }
    ChildFound(srv.root, comps, whole, e.name, i);
    EvenIsFile(StaticChildren(srv.root, Absolute(comps))[i]);
    at := AtTree(StaticChildren(srv.root, Absolute(comps))[i].node);
  }

  lemma NodeLies(srv: Vfs.Server, nodes: seq<Overlay.Node>, target: Name, whole: Name, e: Entry, i: nat)
    requires Canonical(target) && NodesPlain(nodes) && IsNode(nodes, target, e, i) && e.flags % 2 == 0
    requires whole == WholePath(target, e.name)
    ensures Lies(srv, nodes, whole, AtNode(i), e.size)
  {
    NameIsComponent(nodes, target, i);
    OverlayChild(nodes, target, e.name);
  }

  lemma NameIsComponent(nodes: seq<Overlay.Node>, target: Name, i: nat)
    requires NodesPlain(nodes) && i < |nodes| && IsChild(nodes[i], target)
    ensures Component(ChildName(nodes[i].Key(), target).value)
  {
    var key, name := nodes[i].Key(), ChildName(nodes[i].Key(), target).value;
    assert key <= nodes[i].path;
    assert name == key[|key| - |name|..];
    forall k | 0 <= k < |name| ensures name[k] != 0x2F && name[k] != 0 {
      assert name[k] == key[|key| - |name| + k] == nodes[i].path[|key| - |name| + k];
    }
  }

  /** A name that only entry i has leads to it. */
  lemma EntryLies(srv: Vfs.Server, nodes: seq<Overlay.Node>, comps: seq<Name>, whole: Name, name: Name, i: nat)
    returns (at: Place)
    requires Components(comps) && Listable(srv.fat, Absolute(comps)) && srv.LowerReadable(whole)
    requires var listing := FatListing(srv.fat, Absolute(comps));
      OnlyMatch(listing, i) && listing[i].name == name && !listing[i].isDir
    requires Component(name) && whole == WholePath(Absolute(comps), name)
    requires Overlay.Lookup(nodes, whole).None?
    ensures Lies(srv, nodes, whole, at, FatListing(srv.fat, Absolute(comps))[i].size)
  {
    var listing := FatListing(srv.fat, Absolute(comps));
    FatShare(srv, comps, name);
    MatchIs(listing, i);
    at := AtVolume(Fat32Volume.FileInfo(listing[i].firstCluster, listing[i].size, listing[i].isDir));
  }

  lemma OverlayMisses(srv: Vfs.Server, nodes: seq<Overlay.Node>, comps: seq<Name>, whole: Name, name: Name)
    requires Sound(srv, nodes, comps) && Component(name) && whole == WholePath(Absolute(comps), name)
    requires !InOverlay(nodes, Absolute(comps), name) && srv.Readable(nodes, whole)
    ensures Overlay.Lookup(nodes, whole).None? && srv.LowerReadable(whole)
  {
    OverlayChild(nodes, Absolute(comps), name);
  }

  lemma NotInOverlay(nodes: seq<Overlay.Node>, target: Name, name: Name)
    requires !InOverlayCi(nodes, target, name)
    ensures !InOverlay(nodes, target, name)
  {
    if i: nat :| i < |nodes| && nodes[i].used && ChildName(nodes[i].Key(), target) == Some(name) {
      assert IsChild(nodes[i], target) && Fat32Volume.EqCi(ChildName(nodes[i].Key(), target).value, name);
    }
  }

  lemma ChildFound(root: StaticTree.Tree, comps: seq<Name>, whole: Name, name: Name, i: nat)
    requires Components(comps) && Component(name) && whole == WholePath(Absolute(comps), name)
    requires var children := StaticChildren(root, Absolute(comps));
      OnlyNamed(children, i) && UpToNul(children[i].name) == name
    ensures StaticTree.Resolve(root, whole) == Some(StaticChildren(root, Absolute(comps))[i].node)
  {
    StaticChild(root, comps, name);
    NamedIs(StaticChildren(root, Absolute(comps)), name, i);
  }

  lemma EvenIsZero(d: Fat32Names.DirEnt)
    requires FatEntry(d).flags % 2 == 0
    ensures FatEntry(d).flags == 0 && !d.isDir
  {
  }

  lemma EvenIsFile(c: StaticTree.Child)
    requires StaticEntry(c).flags % 2 == 0
    ensures c.node.File? && StaticEntry(c).size == |c.node.data|
  {
  }

  /** What the volume does not list below a directory it does not find there. */
  lemma FatMisses(srv: Vfs.Server, comps: seq<Name>, name: Name)
    requires srv.fat != null && Components(comps) && Component(name) && Listable(srv.fat, Absolute(comps))
    requires srv.LowerReadable(WholePath(Absolute(comps), name)) && !InFat(FatListing(srv.fat, Absolute(comps)), name)
    ensures Fat32Volume.Lookup(srv.fat.vol, srv.fat.chains, WholePath(Absolute(comps), name)).None?
  {
    FatShare(srv, comps, name);
    Fat32Volume.FirstMatchIs(FatListing(srv.fat, Absolute(comps)), name);
  }

  // ---------------------------------------------------------------- read is listed

  /** A listing shows a file of this size under this name, in whatever case. */
  ghost predicate Shows(out: seq<Entry>, name: Name, size: nat) {
    exists e :: e in out && Fat32Volume.EqCi(e.name, name) && e.size == size
  }

  lemma ShownBy(out: seq<Entry>, e: Entry, name: Name)
    requires e in out && Fat32Volume.EqCi(e.name, name)
    ensures Shows(out, name, e.size)
  {
  }

  /** Nothing gets in the way of a name: the overlay does not hold it in another case only, and FAT32 does not hold
      a directory of that name. */
  ghost predicate InNoWay(nodes: seq<Overlay.Node>, target: Name, listing: seq<Fat32Names.DirEnt>, name: Name) {
    && (InOverlayCi(nodes, target, name) ==> InOverlay(nodes, target, name))
    && forall i: nat :: i < |listing| && Fat32Volume.EqCi(listing[i].name, name) ==> !listing[i].isDir
  }

  /** Then every file that can be read by path is listed with its directory, at its size. */
  lemma ReadIsListed(srv: Vfs.Server, nodes: seq<Overlay.Node>, comps: seq<Name>, name: Name)
    requires Orderly(srv, nodes, comps) && Component(name)
      && InNoWay(nodes, Absolute(comps), FatListing(srv.fat, Absolute(comps)), name)
    requires srv.Readable(nodes, WholePath(Absolute(comps), name))
      && srv.FileBytes(nodes, WholePath(Absolute(comps), name)).Some?
    ensures Shows(ListingOf(srv, nodes, comps), name, |srv.FileBytes(nodes, WholePath(Absolute(comps), name)).value|)
  {
    var whole := WholePath(Absolute(comps), name);
    if srv.LowerReadable(whole) && srv.fat != null { NoDirectory(srv, comps, whole, name); }
    var at := LiesSomewhere(srv, nodes, whole);
    LyingListed(srv, nodes, comps, whole, name, at, |srv.FileBytes(nodes, whole).value|);
  }

  lemma NoDirectory(srv: Vfs.Server, comps: seq<Name>, whole: Name, name: Name)
    requires srv.fat != null && Components(comps) && Component(name) && Listable(srv.fat, Absolute(comps))
    requires whole == WholePath(Absolute(comps), name) && srv.LowerReadable(whole)
    requires var listing := FatListing(srv.fat, Absolute(comps));
      forall i: nat :: i < |listing| && Fat32Volume.EqCi(listing[i].name, name) ==> !listing[i].isDir
    ensures var fi := Fat32Volume.Lookup(srv.fat.vol, srv.fat.chains, whole); fi.Some? ==> !fi.value.isDir
  {
    FatShare(srv, comps, name);
    if Fat32Volume.FirstMatch(FatListing(srv.fat, Absolute(comps)), name).Some? {
      var i := FirstIs(FatListing(srv.fat, Absolute(comps)), name);
    }
  }

  lemma LyingListed(srv: Vfs.Server, nodes: seq<Overlay.Node>, comps: seq<Name>, whole: Name, name: Name, at: Place,
    size: nat)
    requires Orderly(srv, nodes, comps) && Component(name) && whole == WholePath(Absolute(comps), name)
    requires InNoWay(nodes, Absolute(comps), FatListing(srv.fat, Absolute(comps)), name)
    requires Lies(srv, nodes, whole, at, size)
    ensures Shows(ListingOf(srv, nodes, comps), name, size)
  {
    var target := Absolute(comps);
    var listing, children := FatListing(srv.fat, target), StaticChildren(srv.root, target);
    OverlayChild(nodes, target, name);
    match at
    case AtNode(_) =>
      var i: nat :| i < |nodes| && nodes[i].used && ChildName(nodes[i].Key(), target) == Some(name);
      NodeShown(nodes, target, listing, children, name, i);
    case AtVolume(_) =>
      FatShare(srv, comps, name);
      var i := FirstIs(listing, name);
      FatShown(nodes, target, listing, children, name, i);
    case AtTree(_) =>
      if srv.fat != null { FatShare(srv, comps, name); }
      NoMatch(listing, name);
      StaticChild(srv.root, comps, name);
      StaticShownAs(nodes, target, listing, children, name);
  }

  lemma FirstIs(listing: seq<Fat32Names.DirEnt>, name: Name) returns (i: nat)
    requires Fat32Volume.FirstMatch(listing, name).Some?
    ensures i < |listing| && Fat32Volume.EqCi(listing[i].name, name)
    ensures var fi := Fat32Volume.FirstMatch(listing, name).value;
      fi.size == listing[i].size && fi.isDir == listing[i].isDir
  {
    Fat32Volume.FirstMatchIs(listing, name);
    i :| 0 <= i < |listing| && Fat32Volume.IsFirst(listing, name, i) && Fat32Volume.FirstMatch(listing, name)
      == Some(Fat32Volume.FileInfo(listing[i].firstCluster, listing[i].size, listing[i].isDir));
  }

  lemma NoMatch(listing: seq<Fat32Names.DirEnt>, name: Name)
    requires Fat32Volume.FirstMatch(listing, name).None?
    ensures !InFat(listing, name)
  {
    Fat32Volume.FirstMatchIs(listing, name);
  }

  lemma NodeShown(nodes: seq<Overlay.Node>, target: Name, listing: seq<Fat32Names.DirEnt>,
    children: seq<StaticTree.Child>, name: Name, i: nat)
    requires Usual(nodes, target, listing, children) && i < |nodes| && nodes[i].used
    requires ChildName(nodes[i].Key(), target) == Some(name)
    ensures Shows(Listing(nodes, target, listing, children), name, nodes[i].content.dlen)
  {
    var e := Entry(FromOverlay, name, nodes[i].content.flags, nodes[i].content.dlen);
    NodeListed(nodes, target, listing, children, e, i);
    ShownBy(Listing(nodes, target, listing, children), e, name);
  }

  lemma NodeListed(nodes: seq<Overlay.Node>, target: Name, listing: seq<Fat32Names.DirEnt>,
    children: seq<StaticTree.Child>, e: Entry, i: nat)
    requires Usual(nodes, target, listing, children) && e.layer == FromOverlay && IsNode(nodes, target, e, i)
    ensures e in Listing(nodes, target, listing, children)
  {
    ListingExactly(nodes, target, listing, children, e);
  }

  lemma FatShown(nodes: seq<Overlay.Node>, target: Name, listing: seq<Fat32Names.DirEnt>,
    children: seq<StaticTree.Child>, name: Name, i: nat)
    requires Usual(nodes, target, listing, children) && i < |listing| && Fat32Volume.EqCi(listing[i].name, name)
    requires !InOverlayCi(nodes, target, name)
    ensures Shows(Listing(nodes, target, listing, children), name, listing[i].size)
  {
    var e := FatEntry(listing[i]);
    assert !InOverlayCi(nodes, target, e.name);
    assert IsFat(listing, e, i);
    ListingExactly(nodes, target, listing, children, e);
    ShownBy(Listing(nodes, target, listing, children), e, name);
  }

  lemma StaticShownAs(nodes: seq<Overlay.Node>, target: Name, listing: seq<Fat32Names.DirEnt>,
    children: seq<StaticTree.Child>, name: Name)
    requires Usual(nodes, target, listing, children) && StaticTree.ChildNamed(children, name).Some?
    requires !InOverlay(nodes, target, name) && !InFat(listing, name)
    ensures Shows(Listing(nodes, target, listing, children), name, StaticTree.ChildNamed(children, name).value.Size())
  {
    var c :| c in children && UpToNul(c.name) == name && c.node == StaticTree.ChildNamed(children, name).value;
    var i: nat :| i < |children| && children[i] == c;
    ChildListed(nodes, target, listing, children, StaticEntry(c), i);
    ShownBy(Listing(nodes, target, listing, children), StaticEntry(c), name);
  }

  lemma ChildListed(nodes: seq<Overlay.Node>, target: Name, listing: seq<Fat32Names.DirEnt>,
    children: seq<StaticTree.Child>, e: Entry, i: nat)
    requires Usual(nodes, target, listing, children) && e.layer == FromStatic && IsStatic(children, e, i)
    requires !InOverlay(nodes, target, e.name) && !InFat(listing, e.name)
    ensures e in Listing(nodes, target, listing, children)
  {
    ListingExactly(nodes, target, listing, children, e);
  }

  // ---------------------------------------------------------------- which paths are listed at all

  /** A path is listed exactly when the tree or the overlay holds a directory there, or neither holds anything and
      FAT32 a directory; then with the tree's children.  It is unknown, error 1, exactly when no layer holds it;
      any other is not a directory, error 2. */
  lemma DecidedExactly(nodes: seq<Overlay.Node>, root: StaticTree.Tree, fat: Fat32.Reader?, target: Name)
    requires Askable(nodes, root, fat, target)
    ensures var v := Decided(nodes, root, fat, target);
      var below, i := StaticTree.Resolve(root, target), Overlay.Lookup(nodes, UpToNul(target));
      var above := below.Some? || i.Some?;
      && (!above ==> Listable(fat, UpToNul(target)))
      && (v.Go? <==>
            || (below.Some? && below.value.Dir?) || (i.Some? && nodes[i.value].content.IsDir())
            || (!above && FatKind(fat, UpToNul(target)) == Some(true)))
      && (v.Go? ==> v.children == StaticChildren(root, target))
      && (v == Refuse(1) <==> !above && FatKind(fat, UpToNul(target)).None?)
      && (v.Refuse? ==> v.errno == 1 || v.errno == 2)
  {
    DecidedIs(nodes, root, fat, target);
  }
}
