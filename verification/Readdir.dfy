/** Directory listings of the file server: three layers merged into one series of entries. */
module Readdir {
  import opened Bytes
  import opened Fat32Names
  import opened Fat32Volume
  import opened Packing
  import Fat32
  import Overlay
  import StaticTree

  type Name = seq<Byte>

  const SLASH: Byte := 0x2F
  const ROOT: Name := [SLASH]
  const SEEN_MAX: nat := 32
  const NAME_BYTES: nat := 40
  /** Longest path a request message carries. */
  const PATH_BYTES: nat := 48

  const RESP_ENTRY: nat := 0x80
  const ENOENT: nat := 1
  const ENOTDIR: nat := 2

  datatype Layer = FromFat | FromStatic | FromOverlay

  /** One RESP_ENTRY. */
  datatype Entry = Entry(layer: Layer, name: Name, flags: nat, size: nat)

  function Cut(s: Name, n: nat): (r: Name)
    ensures |r| <= n && r <= s && (|s| <= n ==> r == s)
  {
    s[..Min(|s|, n)]
  }

  predicate Slashless(s: Name) { forall i :: 0 <= i < |s| ==> s[i] != SLASH }

  /** direct_child_name. */
  function ChildName(path: Name, parent: Name): (r: Option<Name>)
    ensures r.Some? ==> r.value != [] && Slashless(r.value)
  {
    if parent == ROOT then
      if |path| > 1 && path[0] == SLASH && Slashless(path[1..]) then Some(path[1..]) else None
    else if parent <= path && |path| > |parent| + 1 && path[|parent|] == SLASH
      && Slashless(path[|parent| + 1..]) then Some(path[|parent| + 1..])
    else None
  }

  /** build_child_path: the path of a child, in a 64-byte buffer. */
  function ChildPath(parent: Name, name: Name): Name {
    if parent == ROOT then ROOT + Cut(name, 63)
    else
      var p := Cut(parent, 63);
      if |p| < 63 then p + ROOT + Cut(name, 62 - |p|) else p
  }

  // ---------------------------------------------------------------- what each layer contributes

  predicate IsChild(n: Overlay.Node, parent: Name) { n.used && ChildName(n.Key(), parent).Some? }

  /** children_of: which of the first n nodes are below `parent`. */
  function Children(nodes: seq<Overlay.Node>, parent: Name, n: nat): (idxs: seq<nat>)
    requires n <= |nodes|
    ensures |idxs| <= n
  {
    if n == 0 then [] else Children(nodes, parent, n - 1) + if IsChild(nodes[n - 1], parent) then [n - 1] else []
  }

  /** The name children_of stores: at most 48 bytes, ended by a zero. */
  function StoredName(n: Overlay.Node, parent: Name): Name
    requires IsChild(n, parent)
  {
    UpToNul(Cut(ChildName(n.Key(), parent).value, 48))
  }

  function StoredNames(nodes: seq<Overlay.Node>, parent: Name, n: nat): seq<Name>
    requires n <= |nodes|
  {
    if n == 0 then [] else StoredNames(nodes, parent, n - 1) + if IsChild(nodes[n - 1], parent)
      then [StoredName(nodes[n - 1], parent)] else []
  }

  /** SeenNames after adding names in turn: only the first 32, each cut to 40 bytes. */
  function Seen(names: seq<Name>): (r: seq<Name>)
    ensures |r| <= SEEN_MAX
    ensures |names| <= SEEN_MAX ==> |r| == |names| && forall i :: 0 <= i < |r| ==> r[i] == Cut(names[i], NAME_BYTES)
  {
    if names == [] then []
    else
      var r := Seen(names[..|names| - 1]);
      if |r| >= SEEN_MAX then r else r + [Cut(names[|names| - 1], NAME_BYTES)]
  }

  /** SeenNames::contains. */
  predicate Has(seen: seq<Name>, name: Name) { exists i: nat :: i < |seen| && EqCi(seen[i], name) }

  function FatEntry(d: DirEnt): Entry { Entry(FromFat, d.name, if d.isDir then 1 else 0, d.size) }

  function FatPart(listing: seq<DirEnt>, hidden: seq<Name>): (out: seq<Entry>)
    ensures |out| <= |listing|
  {
    if listing == [] then []
    else
      var d := listing[|listing| - 1];
      FatPart(listing[..|listing| - 1], hidden) + if Has(hidden, d.name) then [] else [FatEntry(d)]
  }

  function Names(es: seq<Entry>): (names: seq<Name>)
    ensures |names| == |es| && forall i :: 0 <= i < |es| ==> names[i] == es[i].name
  {
    if es == [] then [] else Names(es[..|es| - 1]) + [es[|es| - 1].name]
  }

  /** A compiled-in name not to list: found in the overlay by path, or seen from FAT32. */
  predicate ShadowedName(nodes: seq<Overlay.Node>, parent: Name, fatSeen: seq<Name>, name: Name) {
    Overlay.Lookup(nodes, ChildPath(parent, name)).Some? || Has(fatSeen, name)
  }

  /** Which children that is. */
  function Shadows(children: seq<StaticTree.Child>, nodes: seq<Overlay.Node>, parent: Name,
    fatSeen: seq<Name>): (flags: seq<bool>)
    ensures |flags| == |children|
  {
    seq(|children|, i requires 0 <= i < |children| => ShadowedName(nodes, parent, fatSeen, UpToNul(children[i].name)))
  }

  function StaticEntry(c: StaticTree.Child): Entry { Entry(FromStatic, UpToNul(c.name), c.node.Flags(), c.node.Size()) }

  function StaticPart(children: seq<StaticTree.Child>, shadowed: seq<bool>): seq<Entry>
    requires |children| == |shadowed|
  {
    if children == [] then []
    else
      var n := |children| - 1;
      StaticPart(children[..n], shadowed[..n]) + if shadowed[n] then [] else [StaticEntry(children[n])]
  }

  function OverlayPart(nodes: seq<Overlay.Node>, parent: Name, n: nat): seq<Entry>
    requires n <= |nodes|
  {
    if n == 0 then [] else OverlayPart(nodes, parent, n - 1) + if IsChild(nodes[n - 1], parent)
      then [OverlayEntry(nodes[n - 1], parent)] else []
  }

  /** The c-th child: its node, its stored name and its entry go together. */
  lemma {:induction false} ChildAt(nodes: seq<Overlay.Node>, parent: Name, n: nat, c: nat)
    requires n <= |nodes| && c < |Children(nodes, parent, n)|
    ensures |StoredNames(nodes, parent, n)| == |OverlayPart(nodes, parent, n)| == |Children(nodes, parent, n)|
    ensures var i := Children(nodes, parent, n)[c];
      && i < n && IsChild(nodes[i], parent)
      && StoredNames(nodes, parent, n)[c] == StoredName(nodes[i], parent)
        && OverlayPart(nodes, parent, n)[c] == OverlayEntry(nodes[i], parent)
  {
    SameCount(nodes, parent, n - 1);
    if c < |Children(nodes, parent, n - 1)| { ChildAt(nodes, parent, n - 1, c); }
  }

  lemma {:induction false} SameCount(nodes: seq<Overlay.Node>, parent: Name, n: nat)
    requires n <= |nodes|
    ensures |StoredNames(nodes, parent, n)| == |OverlayPart(nodes, parent, n)| == |Children(nodes, parent, n)|
  {
    if n > 0 { SameCount(nodes, parent, n - 1); }
  }

  /** Every child has its place. */
  lemma {:induction false} ChildPlace(nodes: seq<Overlay.Node>, parent: Name, n: nat, i: nat) returns (c: nat)
    requires i < n <= |nodes| && IsChild(nodes[i], parent)
    ensures c < |Children(nodes, parent, n)| && Children(nodes, parent, n)[c] == i
    decreases n
  {
    if i < n - 1 { c := ChildPlace(nodes, parent, n - 1, i); } else { c := |Children(nodes, parent, n - 1)|; }
  }

  /** Places are in the order of the nodes. */
  lemma {:induction false} ChildrenClimb(nodes: seq<Overlay.Node>, parent: Name, n: nat, c: nat, d: nat)
    requires n <= |nodes| && c < d < |Children(nodes, parent, n)|
    ensures Children(nodes, parent, n)[c] < Children(nodes, parent, n)[d]
  {
    if d < |Children(nodes, parent, n - 1)| {
      ChildrenClimb(nodes, parent, n - 1, c, d);
    } else {
      ChildAt(nodes, parent, n - 1, c);
    }
  }

  function OverlayEntry(n: Overlay.Node, parent: Name): Entry
    requires IsChild(n, parent)
  {
    Entry(FromOverlay, StoredName(n, parent), n.content.flags, n.content.dlen)
  }

  /** The whole listing: FAT32 entries first, then the compiled-in ones, the overlay's last. */
  function Listing(nodes: seq<Overlay.Node>, target: Name, listing: seq<DirEnt>,
    children: seq<StaticTree.Child>): seq<Entry> {
    ListingAt(nodes, Overlay.KeyOf(target), UpToNul(target), listing, children)
  }

  /** The same, given the directory's key in the overlay and its path as spelled. */
  function ListingAt(nodes: seq<Overlay.Node>, parent: Name, spelled: Name, listing: seq<DirEnt>,
    children: seq<StaticTree.Child>): seq<Entry> {
    var fats := Fats(nodes, parent, listing);
    fats + StaticsAfter(nodes, spelled, fats, children) + Overlays(nodes, parent)
  }

  /** The overlay names FAT32 entries are hidden behind. */
  function Hidden(nodes: seq<Overlay.Node>, parent: Name): seq<Name> {
    Seen(StoredNames(nodes, parent, |nodes|))
  }

  function Fats(nodes: seq<Overlay.Node>, parent: Name, listing: seq<DirEnt>): seq<Entry> {
    FatPart(listing, Hidden(nodes, parent))
  }

  function StaticsAfter(nodes: seq<Overlay.Node>, spelled: Name, fats: seq<Entry>,
    children: seq<StaticTree.Child>): seq<Entry> {
    StaticPart(children, Shadows(children, nodes, spelled, Seen(Names(fats))))
  }

  function Overlays(nodes: seq<Overlay.Node>, parent: Name): seq<Entry> {
    OverlayPart(nodes, parent, |nodes|)
  }

  // ---------------------------------------------------------------- laws

  /** An absolute path without a trailing slash, as short as a message allows. */
  ghost predicate Canonical(p: Name) {
    && 0 < |p| < PATH_BYTES && p[0] == SLASH && (p == ROOT || p[|p| - 1] != SLASH)
    && (forall i :: 0 <= i < |p| ==> p[i] != 0)
  }

  predicate Plain(name: Name) {
    name != [] && |name| <= NAME_BYTES && Slashless(name) && forall i :: 0 <= i < |name| ==> name[i] != 0
  }

  /** Node paths as requests create them. */
  ghost predicate NodesPlain(nodes: seq<Overlay.Node>) {
    && Overlay.Unique(nodes) && |nodes| <= SEEN_MAX
    && forall i: nat {:trigger nodes[i]} :: i < |nodes| && nodes[i].used ==>
         |nodes[i].path| <= PATH_BYTES && forall k :: 0 <= k < |nodes[i].path| ==> nodes[i].path[k] != 0
  }

  /** The overlay holds a direct child of this name. */
  ghost predicate InOverlay(nodes: seq<Overlay.Node>, parent: Name, name: Name) {
    exists i: nat :: i < |nodes| && nodes[i].used && ChildName(nodes[i].Key(), parent) == Some(name)
  }

  /** A canonical parent and a plain name meet in exactly one path. */
  lemma ChildPathIs(parent: Name, name: Name, path: Name)
    requires Canonical(parent) && name != [] && Slashless(name)
    ensures ChildName(path, parent) == Some(name) <==> path == WholePath(parent, name)
  {
    var whole := WholePath(parent, name);
    if path == whole {
      if parent == ROOT { assert path[1..] == name; } else { assert path[|parent| + 1..] == name; }
    }
    assert ChildName(path, parent) == Some(name) ==> path == whole;
  }

  /** The static layer's shadow test asks exactly whether the overlay lists a child of that name. */
  lemma ShadowTest(nodes: seq<Overlay.Node>, parent: Name, name: Name)
    requires Canonical(parent) && NodesPlain(nodes) && Plain(name)
    ensures Overlay.Lookup(nodes, ChildPath(parent, name)).Some? <==> InOverlay(nodes, parent, name)
  {
    ChildKey(parent, name);
    var k := Overlay.KeyOf(ChildPath(parent, name));
    forall i: nat | i < |nodes| && nodes[i].used
      ensures nodes[i].Key() == k <==> ChildName(nodes[i].Key(), parent) == Some(name)
    {
      ChildPathIs(parent, name, nodes[i].Key());
      assert |nodes[i].Key()| <= |nodes[i].path| <= PATH_BYTES;
    }
  }

  function WholePath(parent: Name, name: Name): Name { if parent == ROOT then ROOT + name else parent + ROOT + name }

  /** The key a child path is looked up under: the whole path, or one too long for any node. */
  lemma ChildKey(parent: Name, name: Name)
    requires Canonical(parent) && Plain(name)
    ensures var k := Overlay.KeyOf(ChildPath(parent, name));
      k == WholePath(parent, name) || (|k| > PATH_BYTES && |WholePath(parent, name)| > PATH_BYTES)
  {
    var whole, p := WholePath(parent, name), ChildPath(parent, name);
    assert p <= whole && (|whole| <= 63 ==> p == whole) && (|whole| > 63 ==> |p| > PATH_BYTES + 1);
    NoNul(p);
  }

  /** What an overlay child is listed as is its name in full. */
  lemma StoredExact(nodes: seq<Overlay.Node>, parent: Name, i: nat)
    requires NodesPlain(nodes) && i < |nodes| && IsChild(nodes[i], parent)
    ensures Some(StoredName(nodes[i], parent)) == ChildName(nodes[i].Key(), parent)
  {
    var name := ChildName(nodes[i].Key(), parent).value;
    NoNul(name);
  }

  /** What a well-kept directory looks like in each layer. */
  ghost predicate Usual(nodes: seq<Overlay.Node>, target: Name, listing: seq<DirEnt>, children: seq<StaticTree.Child>) {
    && Canonical(target) && NodesPlain(nodes) && ShortChildren(nodes, target) && FatFits(listing)
    && (forall i: nat, j: nat {:trigger listing[i], listing[j]} ::
      i < j < |listing| ==> !EqCi(listing[i].name, listing[j].name))
    && (forall i: nat :: i < |children| ==> Plain(UpToNul(children[i].name)))
    && (forall i: nat, j: nat {:trigger children[i], children[j]} ::
      i < j < |children| ==> UpToNul(children[i].name) != UpToNul(children[j].name))
  }

  /** The overlay holds this name, in whatever case. */
  ghost predicate InOverlayCi(nodes: seq<Overlay.Node>, parent: Name, name: Name) {
    exists i: nat :: i < |nodes| && IsChild(nodes[i], parent) && EqCi(ChildName(nodes[i].Key(), parent).value, name)
  }

  /** The entry shows node i under its own name. */
  ghost predicate IsNode(nodes: seq<Overlay.Node>, target: Name, e: Entry, i: nat) {
    && i < |nodes| && IsChild(nodes[i], target)
    && e == Entry(FromOverlay, ChildName(nodes[i].Key(), target).value, nodes[i].content.flags, nodes[i].content.dlen)
  }

  ghost predicate IsFat(listing: seq<DirEnt>, e: Entry, i: nat) { i < |listing| && e == FatEntry(listing[i]) }

  ghost predicate IsStatic(children: seq<StaticTree.Child>, e: Entry, i: nat) {
    i < |children| && e == StaticEntry(children[i])
  }

  /** FAT32 holds this name, in whatever case, and the overlay does not hide it. */
  ghost predicate FatShows(nodes: seq<Overlay.Node>, target: Name, listing: seq<DirEnt>, name: Name) {
    exists i: nat :: i < |listing| && EqCi(listing[i].name, name) && !InOverlayCi(nodes, target, listing[i].name)
  }

  /** What the code lists: the overlay's children, FAT32 entries whose name the overlay does not hold in any
      case, and compiled-in ones the overlay does not hold and FAT32 does not show. */
  ghost predicate Listed(nodes: seq<Overlay.Node>, target: Name, listing: seq<DirEnt>, children: seq<StaticTree.Child>,
    e: Entry) {
    match e.layer
    case FromOverlay => exists i: nat :: IsNode(nodes, target, e, i)
    case FromFat => !InOverlayCi(nodes, target, e.name) && exists i: nat :: IsFat(listing, e, i)
    case FromStatic =>
      !InOverlay(nodes, target, e.name) && !FatShows(nodes, target, listing, e.name) && exists i: nat ::
      IsStatic(children, e, i)
  }

  lemma {:induction false} FatMembers(listing: seq<DirEnt>, hidden: seq<Name>, e: Entry)
    ensures e in FatPart(listing, hidden) <==> !Has(hidden, e.name) && exists i: nat :: IsFat(listing, e, i)
    decreases |listing|
  {
    if listing != [] {
      FatMembers(listing[..|listing| - 1], hidden, e);
      FatSplit(listing, e);
    }
  }

  lemma FatSplit(listing: seq<DirEnt>, e: Entry)
    requires listing != []
    ensures var n := |listing| - 1;
      (exists i: nat :: IsFat(listing, e, i)) <==>
        (exists i: nat :: IsFat(listing[..n], e, i)) || e == FatEntry(listing[n])
  {
    var n := |listing| - 1;
    if i: nat :| IsFat(listing[..n], e, i) { assert IsFat(listing, e, i); }
    if i: nat :| IsFat(listing, e, i) { assert i < n ==> IsFat(listing[..n], e, i); }
    assert e == FatEntry(listing[n]) ==> IsFat(listing, e, n);
  }

  ghost predicate IsShown(children: seq<StaticTree.Child>, shadowed: seq<bool>, e: Entry, i: nat)
    requires |children| == |shadowed|
  {
    i < |children| && !shadowed[i] && e == StaticEntry(children[i])
  }

  lemma {:induction false} StaticMembers(children: seq<StaticTree.Child>, shadowed: seq<bool>, e: Entry)
    requires |children| == |shadowed|
    ensures e in StaticPart(children, shadowed) <==> exists i: nat :: IsShown(children, shadowed, e, i)
    decreases |children|
  {
    if children != [] {
      var n := |children| - 1;
      var front, flags := children[..n], shadowed[..n];
      StaticMembers(front, flags, e);
      ShownSplit(children, shadowed, e);
    }
  }

  lemma ShownSplit(children: seq<StaticTree.Child>, shadowed: seq<bool>, e: Entry)
    requires |children| == |shadowed| > 0
    ensures var n := |children| - 1;
      (exists i: nat :: IsShown(children, shadowed, e, i)) <==>
      (exists i: nat :: IsShown(children[..n], shadowed[..n], e, i)) || (!shadowed[n] && e == StaticEntry(children[n]))
  {
    var n := |children| - 1;
    var front, flags := children[..n], shadowed[..n];
    if i: nat :| IsShown(front, flags, e, i) { assert IsShown(children, shadowed, e, i); }
    if i: nat :| IsShown(children, shadowed, e, i) { assert i < n ==> IsShown(front, flags, e, i); }
    assert e == StaticEntry(children[n]) && !shadowed[n] ==> IsShown(children, shadowed, e, n);
  }

  /** Shown is static and not shadowed. */
  lemma StaticShown(children: seq<StaticTree.Child>, nodes: seq<Overlay.Node>, parent: Name, fatSeen: seq<Name>,
    e: Entry)
    ensures e in StaticPart(children, Shadows(children, nodes, parent, fatSeen)) <==>
      !ShadowedName(nodes, parent, fatSeen, e.name) && exists i: nat :: IsStatic(children, e, i)
  {
    var flags := Shadows(children, nodes, parent, fatSeen);
    StaticMembers(children, flags, e);
    if i: nat :| IsShown(children, flags, e, i) {
      assert IsStatic(children, e, i);
    }
    if i: nat :| IsStatic(children, e, i) {
      assert !flags[i] ==> IsShown(children, flags, e, i);
    }
  }

  ghost predicate ShortChildren(nodes: seq<Overlay.Node>, target: Name) {
    forall i: nat {:trigger nodes[i]} ::
      i < |nodes| && IsChild(nodes[i], target) ==> |ChildName(nodes[i].Key(), target).value| <= NAME_BYTES
  }

  lemma HiddenAt(nodes: seq<Overlay.Node>, target: Name, c: nat)
    requires NodesPlain(nodes) && ShortChildren(nodes, target) && c < |Children(nodes, target, |nodes|)|
    ensures |Hidden(nodes, target)| == |Children(nodes, target, |nodes|)|
    ensures var i := Children(nodes, target, |nodes|)[c];
      i < |nodes| && IsChild(nodes[i], target) && Hidden(nodes, target)[c] == ChildName(nodes[i].Key(), target).value
  {
    ChildAt(nodes, target, |nodes|, c);
    StoredExact(nodes, target, Children(nodes, target, |nodes|)[c]);
  }

  /** They are the overlay's own, in whatever case. */
  lemma HiddenIs(nodes: seq<Overlay.Node>, target: Name, name: Name)
    requires NodesPlain(nodes) && ShortChildren(nodes, target)
    ensures Has(Hidden(nodes, target), name) <==> InOverlayCi(nodes, target, name)
  {
    var hidden := Hidden(nodes, target);
    SameCount(nodes, target, |nodes|);
    if c: nat :| c < |hidden| && EqCi(hidden[c], name) {
      ChildAt(nodes, target, |nodes|, c);
      HiddenAt(nodes, target, c);
    }
    if i: nat :| i < |nodes| && IsChild(nodes[i], target) && EqCi(ChildName(nodes[i].Key(), target).value, name) {
      var c := ChildPlace(nodes, target, |nodes|, i);
      HiddenAt(nodes, target, c);
      assert EqCi(hidden[c], name);
    }
  }

  /** That is exactly what a listing holds. */
  lemma ListingExactly(nodes: seq<Overlay.Node>, target: Name, listing: seq<DirEnt>, children: seq<StaticTree.Child>,
    e: Entry)
    requires Usual(nodes, target, listing, children)
    ensures e in Listing(nodes, target, listing, children) <==> Listed(nodes, target, listing, children, e)
  {
    TargetKey(target);
    match e.layer
    case FromOverlay => OverlayListed(nodes, target, listing, children, e);
    case FromFat => FatListed(nodes, target, listing, children, e);
    case FromStatic => StaticListed(nodes, target, listing, children, e);
  }

  lemma TargetKey(target: Name)
    requires Canonical(target)
    ensures UpToNul(target) == target && Overlay.KeyOf(target) == target
  {
    NoNul(target);
  }

  ghost function Statics(nodes: seq<Overlay.Node>, target: Name, listing: seq<DirEnt>,
    children: seq<StaticTree.Child>): seq<Entry> {
    StaticsAfter(nodes, target, Fats(nodes, target, listing), children)
  }

  lemma {:induction false} OverlayLayer(nodes: seq<Overlay.Node>, parent: Name, n: nat, e: Entry)
    requires n <= |nodes| && e in OverlayPart(nodes, parent, n)
    ensures e.layer == FromOverlay
  {
    if e in OverlayPart(nodes, parent, n - 1) { OverlayLayer(nodes, parent, n - 1, e); }
  }

  lemma ListingParts(nodes: seq<Overlay.Node>, target: Name, listing: seq<DirEnt>, children: seq<StaticTree.Child>,
    e: Entry)
    requires Canonical(target)
    ensures Listing(nodes, target, listing, children) ==
      Fats(nodes, target, listing) + Statics(nodes, target, listing, children) + Overlays(nodes, target)
    ensures e in Fats(nodes, target, listing) ==> e.layer == FromFat
    ensures e in Statics(nodes, target, listing, children) ==> e.layer == FromStatic
    ensures e in Overlays(nodes, target) ==> e.layer == FromOverlay
  {
    TargetKey(target);
    if e in Overlays(nodes, target) { OverlayLayer(nodes, target, |nodes|, e); }
    FatMembers(listing, Hidden(nodes, target), e);
    StaticMembers(children, Shadows(children, nodes, target, Seen(Names(Fats(nodes, target, listing)))), e);
  }

  /** An entry's layer says which part it is in. */
  lemma InPart(nodes: seq<Overlay.Node>, target: Name, listing: seq<DirEnt>, children: seq<StaticTree.Child>, e: Entry)
    requires Canonical(target)
    ensures e in Listing(nodes, target, listing, children) <==>
      match e.layer
      case FromFat => e in Fats(nodes, target, listing)
      case FromStatic => e in Statics(nodes, target, listing, children)
      case FromOverlay => e in Overlays(nodes, target)
  {
    ListingParts(nodes, target, listing, children, e);
  }

  lemma OverlayListed(nodes: seq<Overlay.Node>, target: Name, listing: seq<DirEnt>, children: seq<StaticTree.Child>,
    e: Entry)
    requires Usual(nodes, target, listing, children) && e.layer == FromOverlay
    ensures e in Listing(nodes, target, listing, children) <==> Listed(nodes, target, listing, children, e)
  {
    InPart(nodes, target, listing, children, e);
    if e in Overlays(nodes, target) {
      var c: nat :| c < |Overlays(nodes, target)| && Overlays(nodes, target)[c] == e;
      OverlayShows(nodes, target, c);
    }
    if i: nat :| IsNode(nodes, target, e, i) { OverlayShown(nodes, target, e, i); }
  }

  lemma OverlayShows(nodes: seq<Overlay.Node>, target: Name, c: nat)
    requires NodesPlain(nodes) && c < |Overlays(nodes, target)|
    ensures c < |Children(nodes, target, |nodes|)|
      && IsNode(nodes, target, Overlays(nodes, target)[c], Children(nodes, target, |nodes|)[c])
  {
    SameCount(nodes, target, |nodes|);
    ChildAt(nodes, target, |nodes|, c);
    StoredExact(nodes, target, Children(nodes, target, |nodes|)[c]);
  }

  lemma OverlayShown(nodes: seq<Overlay.Node>, target: Name, e: Entry, i: nat)
    requires NodesPlain(nodes) && IsNode(nodes, target, e, i)
    ensures e in Overlays(nodes, target)
  {
    StoredExact(nodes, target, i);
    var c := ChildPlace(nodes, target, |nodes|, i);
    ChildAt(nodes, target, |nodes|, c);
    assert Overlays(nodes, target)[c] == e;
  }

  lemma FatListed(nodes: seq<Overlay.Node>, target: Name, listing: seq<DirEnt>, children: seq<StaticTree.Child>,
    e: Entry)
    requires Usual(nodes, target, listing, children) && e.layer == FromFat
    ensures e in Listing(nodes, target, listing, children) <==> Listed(nodes, target, listing, children, e)
  {
    InPart(nodes, target, listing, children, e);
    FatMembers(listing, Hidden(nodes, target), e);
    HiddenIs(nodes, target, e.name);
  }

  lemma SeenAt(es: seq<Entry>, c: nat)
    requires c < |es| <= SEEN_MAX && |es[c].name| <= NAME_BYTES
    ensures |Seen(Names(es))| == |es| && Seen(Names(es))[c] == es[c].name
  {
  }

  /** A FAT32 listing whose names fit the tables. */
  ghost predicate FatFits(listing: seq<DirEnt>) {
    |listing| <= SEEN_MAX && forall i: nat :: i < |listing| ==> |listing[i].name| <= NAME_BYTES
  }

  /** The names seen from FAT32 are those of its visible entries. */
  lemma FatSeenIs(nodes: seq<Overlay.Node>, target: Name, listing: seq<DirEnt>, name: Name)
    requires NodesPlain(nodes) && ShortChildren(nodes, target) && FatFits(listing)
    ensures Has(Seen(Names(Fats(nodes, target, listing))), name) <==> FatShows(nodes, target, listing, name)
  {
    var fats := Fats(nodes, target, listing);
    var seen := Seen(Names(fats));
    if c: nat :| c < |seen| && EqCi(seen[c], name) { FatSeenShows(nodes, target, listing, name, c); }
    if i: nat :| i < |listing| && EqCi(listing[i].name, name) && !InOverlayCi(nodes, target, listing[i].name) {
      FatShownSeen(nodes, target, listing, name, i);
    }
  }

  lemma FatSeenShows(nodes: seq<Overlay.Node>, target: Name, listing: seq<DirEnt>, name: Name, c: nat)
    requires NodesPlain(nodes) && ShortChildren(nodes, target) && FatFits(listing)
    requires var seen := Seen(Names(Fats(nodes, target, listing))); c < |seen| && EqCi(seen[c], name)
    ensures FatShows(nodes, target, listing, name)
  {
    var e := Fats(nodes, target, listing)[c];
    FatMembers(listing, Hidden(nodes, target), e);
    var i: nat :| IsFat(listing, e, i);
    HiddenIs(nodes, target, e.name);
    SeenAt(Fats(nodes, target, listing), c);
  }

  lemma FatShownSeen(nodes: seq<Overlay.Node>, target: Name, listing: seq<DirEnt>, name: Name, i: nat)
    requires NodesPlain(nodes) && ShortChildren(nodes, target) && FatFits(listing)
    requires i < |listing| && EqCi(listing[i].name, name) && !InOverlayCi(nodes, target, listing[i].name)
    ensures Has(Seen(Names(Fats(nodes, target, listing))), name)
  {
    var fats, e := Fats(nodes, target, listing), FatEntry(listing[i]);
    HiddenIs(nodes, target, e.name);
    assert IsFat(listing, e, i);
    FatMembers(listing, Hidden(nodes, target), e);
    var c: nat :| c < |fats| && fats[c] == e;
    SeenAt(fats, c);
    assert EqCi(Seen(Names(fats))[c], name);
  }

  lemma StaticListed(nodes: seq<Overlay.Node>, target: Name, listing: seq<DirEnt>, children: seq<StaticTree.Child>,
    e: Entry)
    requires Usual(nodes, target, listing, children) && e.layer == FromStatic
    ensures e in Listing(nodes, target, listing, children) <==> Listed(nodes, target, listing, children, e)
  {
    InPart(nodes, target, listing, children, e);
    StaticShown(children, nodes, target, Seen(Names(Fats(nodes, target, listing))), e);
    FatSeenIs(nodes, target, listing, e.name);
    if i: nat :| IsStatic(children, e, i) { ShadowTest(nodes, target, e.name); }
  }

  /** FAT32 holds this name, in whatever case. */
  ghost predicate InFat(listing: seq<DirEnt>, name: Name) {
    exists i: nat :: i < |listing| && EqCi(listing[i].name, name)
  }

  /** The entry comes from the highest layer that holds its name: overlay before FAT32, whose names are
      compared ignoring case, before the compiled-in tree. */
  ghost predicate Highest(nodes: seq<Overlay.Node>, target: Name, listing: seq<DirEnt>,
    children: seq<StaticTree.Child>, e: Entry) {
    match e.layer
    case FromOverlay => exists i: nat :: IsNode(nodes, target, e, i)
    case FromFat => !InOverlayCi(nodes, target, e.name) && exists i: nat :: IsFat(listing, e, i)
    case FromStatic => !InOverlay(nodes, target, e.name) && !InFat(listing, e.name) && exists i: nat ::
      IsStatic(children, e, i)
  }

  /** Compiled-in child i has a twin in FAT32, entry j, that an overlay name differing from the child's
      only in case hides. */
  ghost predicate TwinHidden(nodes: seq<Overlay.Node>, target: Name, listing: seq<DirEnt>,
    children: seq<StaticTree.Child>, i: nat, j: nat)
    requires i < |children| && j < |listing|
  {
    && EqCi(listing[j].name, UpToNul(children[i].name)) && InOverlayCi(nodes, target, listing[j].name)
    && !InOverlay(nodes, target, UpToNul(children[i].name))
  }

  ghost predicate AnyTwinHidden(nodes: seq<Overlay.Node>, target: Name, listing: seq<DirEnt>,
    children: seq<StaticTree.Child>) {
    exists i: nat, j: nat :: i < |children| && j < |listing| && TwinHidden(nodes, target, listing, children, i, j)
  }

  /** The entries are those from the highest layers, all of them and no others. */
  ghost predicate AllHighest(out: seq<Entry>, nodes: seq<Overlay.Node>, target: Name, listing: seq<DirEnt>,
    children: seq<StaticTree.Child>) {
    forall e :: e in out <==> Highest(nodes, target, listing, children, e)
  }

  /** A listing shows each name from the highest layer that holds it exactly when there is no such child:
      the hidden twin hides nothing itself, so the lowest layer shows through. */
  lemma ListingIsHighest(nodes: seq<Overlay.Node>, target: Name, listing: seq<DirEnt>, children: seq<StaticTree.Child>)
    requires Usual(nodes, target, listing, children)
    ensures AllHighest(Listing(nodes, target, listing, children), nodes, target, listing, children) <==>
      !AnyTwinHidden(nodes, target, listing, children)
  {
    var out := Listing(nodes, target, listing, children);
    if AnyTwinHidden(nodes, target, listing, children) {
      var i: nat, j: nat :| i < |children| && j < |listing| && TwinHidden(nodes, target, listing, children, i, j);
      TwinHiddenListed(nodes, target, listing, children, i, j);
      assert StaticEntry(children[i]) in out && !Highest(nodes, target, listing, children, StaticEntry(children[i]));
    } else {
      forall e ensures e in out <==> Highest(nodes, target, listing, children, e) {
        ListingExactly(nodes, target, listing, children, e);
        ListedIsHighest(nodes, target, listing, children, e);
      }
    }
  }

  /** The compiled-in entry is listed, its FAT32 twin is not. */
  lemma TwinHiddenListed(nodes: seq<Overlay.Node>, target: Name, listing: seq<DirEnt>, children: seq<StaticTree.Child>,
    i: nat, j: nat)
    requires Usual(nodes, target, listing, children) && i < |children| && j < |listing|
      && TwinHidden(nodes, target, listing, children, i, j)
    ensures StaticEntry(children[i]) in Listing(nodes, target, listing, children)
    ensures FatEntry(listing[j]) !in Listing(nodes, target, listing, children)
    ensures !Highest(nodes, target, listing, children, StaticEntry(children[i]))
  {
    var e := StaticEntry(children[i]);
    assert IsStatic(children, e, i);
    TwinNotShown(nodes, target, listing, children, e.name, j);
    ListingExactly(nodes, target, listing, children, e);
    ListingExactly(nodes, target, listing, children, FatEntry(listing[j]));
    assert InFat(listing, e.name);
  }

  /** The twin is the only FAT32 entry of the name, and it is hidden. */
  lemma TwinNotShown(nodes: seq<Overlay.Node>, target: Name, listing: seq<DirEnt>, children: seq<StaticTree.Child>,
    name: Name, j: nat)
    requires Usual(nodes, target, listing, children) && j < |listing| && EqCi(listing[j].name, name)
      && InOverlayCi(nodes, target, listing[j].name)
    ensures !FatShows(nodes, target, listing, name)
  {
    forall k: nat | k < |listing| && EqCi(listing[k].name, name) ensures InOverlayCi(nodes, target, listing[k].name) {
      assert k == j by { assert EqCi(listing[k].name, listing[j].name) && EqCi(listing[j].name, listing[k].name); }
    }
  }

  /** Without such a child FAT32 shows every name it holds that the compiled-in tree could show. */
  lemma ListedIsHighest(nodes: seq<Overlay.Node>, target: Name, listing: seq<DirEnt>, children: seq<StaticTree.Child>,
    e: Entry)
    requires !AnyTwinHidden(nodes, target, listing, children)
    ensures Listed(nodes, target, listing, children, e) <==> Highest(nodes, target, listing, children, e)
  {
    if e.layer == FromStatic && !InOverlay(nodes, target, e.name) && InFat(listing, e.name) {
      if i: nat :| IsStatic(children, e, i) {
        var j: nat :| j < |listing| && EqCi(listing[j].name, e.name);
        assert !TwinHidden(nodes, target, listing, children, i, j);
      }
    }
  }

  /** The overlay's only node is used and has this path. */
  ghost predicate OnlyNode(nodes: seq<Overlay.Node>, path: Name) {
    && NodesPlain(nodes) && |nodes| > 0 && nodes[0].used && nodes[0].Key() == path
    && forall i: nat :: 0 < i < |nodes| ==> !nodes[i].used
  }

  /** An overlay with one file, just created. */
  function Created(path: Name): seq<Overlay.Node> {
    Overlay.Allocated(seq(Overlay.MAX_NODES, _ => Overlay.Node([], Overlay.Fresh(0), false)), path, 0).0
  }

  lemma CreatedIs(path: Name)
    requires 0 < |path| < PATH_BYTES && path[|path| - 1] != SLASH && forall i :: 0 <= i < |path| ==> path[i] != 0
    ensures var nodes := Created(path);
      Overlay.NodesOk(nodes) && OnlyNode(nodes, path)
  {
    var empty := seq(Overlay.MAX_NODES, _ => Overlay.Node([], Overlay.Fresh(0), false));
    NoNul(path);
    assert Overlay.KeyOf(path) == path;
    assert Created(path) == empty[0 := Overlay.Node(path, Overlay.Fresh(0), true)];
  }

  /** Such a directory: the overlay holds `foo`, FAT32 and the compiled-in tree both hold `Foo`.  The
      compiled-in one is listed, although a read of `/Foo` passes the overlay by and asks FAT32 first. */
  lemma LowestShowsThrough(d: DirEnt, t: StaticTree.Tree)
    requires d.name == [0x46, 0x6F, 0x6F]
    ensures var nodes, c := Created([SLASH, 0x66, 0x6F, 0x6F]), StaticTree.Child(d.name, t);
      && StaticEntry(c) in Listing(nodes, ROOT, [d], [c]) && FatEntry(d) !in Listing(nodes, ROOT, [d], [c])
      && !Highest(nodes, ROOT, [d], [c], StaticEntry(c)) && Overlay.Lookup(nodes, ROOT + d.name).None?
  {
    CreatedIs([SLASH, 0x66, 0x6F, 0x6F]);
    ShowsThrough(Created([SLASH, 0x66, 0x6F, 0x6F]), d, StaticTree.Child(d.name, t));
  }

  lemma ShowsThrough(nodes: seq<Overlay.Node>, d: DirEnt, c: StaticTree.Child)
    requires OnlyNode(nodes, [SLASH, 0x66, 0x6F, 0x6F]) && d.name == c.name == [0x46, 0x6F, 0x6F]
    ensures StaticEntry(c) in Listing(nodes, ROOT, [d], [c]) && FatEntry(d) !in Listing(nodes, ROOT, [d], [c])
    ensures !Highest(nodes, ROOT, [d], [c], StaticEntry(c)) && Overlay.Lookup(nodes, ROOT + d.name).None?
  {
    NotUpperCase(nodes);
    LowerCaseChild(nodes);
    NoNul(d.name);
    OneOfEach(nodes, d, c);
    TwinHiddenListed(nodes, ROOT, [d], [c], 0, 0);
  }

  lemma OneOfEach(nodes: seq<Overlay.Node>, d: DirEnt, c: StaticTree.Child)
    requires NodesPlain(nodes) && ShortChildren(nodes, ROOT) && UpToNul(c.name) == d.name && Plain(d.name)
    requires InOverlayCi(nodes, ROOT, d.name) && !InOverlay(nodes, ROOT, d.name)
    ensures Usual(nodes, ROOT, [d], [c]) && TwinHidden(nodes, ROOT, [d], [c], 0, 0)
  {
    var listing, children := [d], [c];
    assert listing[0] == d && children[0] == c;
  }

  lemma NotUpperCase(nodes: seq<Overlay.Node>)
    requires OnlyNode(nodes, [SLASH, 0x66, 0x6F, 0x6F])
    ensures Overlay.Lookup(nodes, ROOT + [0x46, 0x6F, 0x6F]).None?
  {
    var path: Name := ROOT + [0x46, 0x6F, 0x6F];
    assert path[1] == 0x46 && path[3] == 0x6F;
    NoNul(path);
    assert Overlay.KeyOf(path) == path;
  }

  /** `/foo` holds the name `Foo` only if case is ignored. */
  lemma LowerCaseChild(nodes: seq<Overlay.Node>)
    requires OnlyNode(nodes, [SLASH, 0x66, 0x6F, 0x6F])
    ensures InOverlayCi(nodes, ROOT, [0x46, 0x6F, 0x6F]) && !InOverlay(nodes, ROOT, [0x46, 0x6F, 0x6F])
      && ShortChildren(nodes, ROOT)
  {
    var path: Name, lower: Name, upper: Name := [SLASH, 0x66, 0x6F, 0x6F], [0x66, 0x6F, 0x6F], [0x46, 0x6F, 0x6F];
    assert path[1..] == lower && ChildName(path, ROOT) == Some(lower);
    assert LowerAll(lower) == LowerAll(upper);
    assert IsChild(nodes[0], ROOT) && EqCi(ChildName(nodes[0].Key(), ROOT).value, upper);
    assert lower[0] != upper[0];
  }

  // ---------------------------------------------------------------- no name twice

  ghost predicate Distinct(es: seq<Entry>) {
    forall i: nat, j: nat {:trigger es[i], es[j]} :: i < j < |es| ==> es[i].name != es[j].name
  }

  lemma DistinctJoin(a: seq<Entry>, b: seq<Entry>)
    requires Distinct(a) && Distinct(b) && forall x, y :: x in a && y in b ==> x.name != y.name
    ensures Distinct(a + b)
  {
    var ab := a + b;
    forall i: nat, j: nat | i < j < |ab| ensures ab[i].name != ab[j].name {
      if i < |a| && j >= |a| {
        assert ab[i] == a[i] && ab[i] in a && ab[j] == b[j - |a|] && ab[j] in b;
      } else if i >= |a| {
        assert ab[i] == b[i - |a|] && ab[j] == b[j - |a|];
      }
    }
  }

  lemma {:induction false} FatDistinct(listing: seq<DirEnt>, hidden: seq<Name>)
    requires forall i: nat, j: nat {:trigger listing[i], listing[j]} ::
      i < j < |listing| ==> !EqCi(listing[i].name, listing[j].name)
    ensures Distinct(FatPart(listing, hidden))
    decreases |listing|
  {
    if listing != [] {
      var front, d := listing[..|listing| - 1], listing[|listing| - 1];
      FatDistinct(front, hidden);
      forall x | x in FatPart(front, hidden) ensures x.name != d.name {
        FatMembers(front, hidden, x);
        var i: nat :| IsFat(front, x, i);
        assert front[i] == listing[i] && listing[|listing| - 1] == d;
      }
      DistinctJoin(FatPart(front, hidden), if Has(hidden, d.name) then [] else [FatEntry(d)]);
    }
  }

  lemma {:induction false} StaticDistinct(children: seq<StaticTree.Child>, shadowed: seq<bool>)
    requires |children| == |shadowed|
    requires forall i: nat, j: nat {:trigger children[i], children[j]} ::
      i < j < |children| ==> UpToNul(children[i].name) != UpToNul(children[j].name)
    ensures Distinct(StaticPart(children, shadowed))
    decreases |children|
  {
    if children != [] {
      var n := |children| - 1;
      var front, c := children[..n], children[n];
      StaticDistinct(front, shadowed[..n]);
      forall x | x in StaticPart(front, shadowed[..n]) ensures x.name != UpToNul(c.name) {
        StaticMembers(front, shadowed[..n], x);
        var i: nat :| IsShown(front, shadowed[..n], x, i);
        assert front[i] == children[i] && children[n] == c;
      }
      DistinctJoin(StaticPart(front, shadowed[..n]), if shadowed[n] then [] else [StaticEntry(c)]);
    }
  }

  lemma OverlayDistinct(nodes: seq<Overlay.Node>, target: Name)
    requires Canonical(target) && NodesPlain(nodes)
    ensures Distinct(Overlays(nodes, target))
  {
    var idxs, es := Children(nodes, target, |nodes|), Overlays(nodes, target);
    SameCount(nodes, target, |nodes|);
    forall c: nat, d: nat | c < d < |es| ensures es[c].name != es[d].name {
      ChildrenClimb(nodes, target, |nodes|, c, d);
      ChildAt(nodes, target, |nodes|, c);
      ChildAt(nodes, target, |nodes|, d);
      var i, j := idxs[c], idxs[d];
      StoredExact(nodes, target, i);
      StoredExact(nodes, target, j);
      var a, b := nodes[i].Key(), nodes[j].Key();
      ChildPathIs(target, es[c].name, a);
      ChildPathIs(target, es[c].name, b);
      assert nodes[i].used && nodes[j].used && a != b;
    }
  }

  /** Under whatever spelling a directory is asked for, a listing repeats a name exactly when a compiled-in
      name that the overlay also holds is not found under that spelling. */
  lemma DistinctExactly(nodes: seq<Overlay.Node>, target: Name, spelled: Name, listing: seq<DirEnt>,
    children: seq<StaticTree.Child>)
    requires Usual(nodes, target, listing, children)
    ensures Distinct(ListingAt(nodes, target, spelled, listing, children)) <==>
      forall i: nat :: i < |children| ==> OnceOnly(nodes, target, spelled, UpToNul(children[i].name))
  {
    var fats := Fats(nodes, target, listing);
    var statics, overlays := StaticsAfter(nodes, spelled, fats, children), Overlays(nodes, target);
    if i: nat :| i < |children| && !OnceOnly(nodes, target, spelled, UpToNul(children[i].name)) {
      ListedTwice(nodes, target, spelled, listing, children, i);
    } else {
      FatDistinct(listing, Hidden(nodes, target));
      StaticDistinct(children, Shadows(children, nodes, spelled, Seen(Names(fats))));
      OverlayDistinct(nodes, target);
      forall x, y | x in fats && y in statics
        ensures x.name != y.name
      {
        FatStaticApart(nodes, target, spelled, listing, children, x, y);
      }
      DistinctJoin(fats, statics);
      forall x, y | x in fats + statics && y in overlays ensures x.name != y.name {
        if x in fats {
          FatOverlayApart(nodes, target, listing, x, y);
        } else {
          StaticOverlayApart(nodes, target, spelled, listing, children, x, y);
        }
      }
      DistinctJoin(fats + statics, overlays);
    }
  }

  /** If the overlay holds the name, the path the shadow test looks up finds something. */
  ghost predicate OnceOnly(nodes: seq<Overlay.Node>, target: Name, spelled: Name, name: Name) {
    InOverlay(nodes, target, name) ==> Overlay.Lookup(nodes, ChildPath(spelled, name)).Some?
  }

  lemma ListedTwice(nodes: seq<Overlay.Node>, target: Name, spelled: Name, listing: seq<DirEnt>,
    children: seq<StaticTree.Child>, i: nat)
    requires Usual(nodes, target, listing, children) && i < |children|
      && !OnceOnly(nodes, target, spelled, UpToNul(children[i].name))
    ensures !Distinct(ListingAt(nodes, target, spelled, listing, children))
  {
    var fats, e := Fats(nodes, target, listing), StaticEntry(children[i]);
    var statics, overlays := StaticsAfter(nodes, spelled, fats, children), Overlays(nodes, target);
    assert e in statics by {
      assert IsStatic(children, e, i);
      FatSeenIs(nodes, target, listing, e.name);
      HeldNotShown(nodes, target, listing, e.name);
      StaticShown(children, nodes, spelled, Seen(Names(fats)), e);
    }
    var n: nat :| n < |nodes| && nodes[n].used && ChildName(nodes[n].Key(), target) == Some(e.name);
    var twin := Entry(FromOverlay, e.name, nodes[n].content.flags, nodes[n].content.dlen);
    assert IsNode(nodes, target, twin, n);
    OverlayShown(nodes, target, twin, n);
    SameNameTwice(fats + statics, overlays, e, twin);
  }

  /** FAT32 shows no name that the overlay holds. */
  lemma HeldNotShown(nodes: seq<Overlay.Node>, target: Name, listing: seq<DirEnt>, name: Name)
    requires InOverlay(nodes, target, name)
    ensures !FatShows(nodes, target, listing, name)
  {
    var n: nat :| n < |nodes| && nodes[n].used && ChildName(nodes[n].Key(), target) == Some(name);
    forall i: nat | i < |listing| && EqCi(listing[i].name, name) ensures InOverlayCi(nodes, target, listing[i].name) {
      assert IsChild(nodes[n], target) && EqCi(ChildName(nodes[n].Key(), target).value, listing[i].name);
    }
  }

  lemma SameNameTwice(a: seq<Entry>, b: seq<Entry>, x: Entry, y: Entry)
    requires x in a && y in b && x.name == y.name
    ensures !Distinct(a + b)
  {
    var i: nat :| i < |a| && a[i] == x;
    var j: nat :| j < |b| && b[j] == y;
    assert (a + b)[i] == x && (a + b)[|a| + j] == y;
  }

  /** No name is listed twice when the directory is asked for by its canonical path. */
  lemma ListingDistinct(nodes: seq<Overlay.Node>, target: Name, listing: seq<DirEnt>, children: seq<StaticTree.Child>)
    requires Usual(nodes, target, listing, children)
    ensures Distinct(Listing(nodes, target, listing, children))
  {
    TargetKey(target);
    DistinctExactly(nodes, target, target, listing, children);
    forall i: nat | i < |children| ensures OnceOnly(nodes, target, target, UpToNul(children[i].name)) {
      ShadowTest(nodes, target, UpToNul(children[i].name));
    }
  }

  lemma FatStaticApart(nodes: seq<Overlay.Node>, target: Name, spelled: Name, listing: seq<DirEnt>,
    children: seq<StaticTree.Child>, x: Entry, y: Entry)
    requires Usual(nodes, target, listing, children)
    requires x in Fats(nodes, target, listing)
      && y in StaticsAfter(nodes, spelled, Fats(nodes, target, listing), children)
    ensures x.name != y.name
  {
    var fats := Fats(nodes, target, listing);
    var c: nat :| c < |fats| && fats[c] == x;
    FatMembers(listing, Hidden(nodes, target), x);
    SeenAt(fats, c);
    StaticShown(children, nodes, spelled, Seen(Names(fats)), y);
    assert !EqCi(Seen(Names(fats))[c], y.name);
  }

  lemma NodeIsIn(nodes: seq<Overlay.Node>, target: Name, e: Entry, i: nat)
    requires IsNode(nodes, target, e, i)
    ensures InOverlay(nodes, target, e.name) && InOverlayCi(nodes, target, e.name)
  {
  }

  lemma FatOverlayApart(nodes: seq<Overlay.Node>, target: Name, listing: seq<DirEnt>, x: Entry, y: Entry)
    requires NodesPlain(nodes) && ShortChildren(nodes, target) && x in Fats(nodes, target, listing)
      && y in Overlays(nodes, target)
    ensures x.name != y.name
  {
    assert !InOverlayCi(nodes, target, x.name) by {
      FatMembers(listing, Hidden(nodes, target), x);
      HiddenIs(nodes, target, x.name);
    }
    var c: nat :| c < |Overlays(nodes, target)| && Overlays(nodes, target)[c] == y;
    OverlayShows(nodes, target, c);
    NodeIsIn(nodes, target, y, Children(nodes, target, |nodes|)[c]);
  }

  lemma StaticOverlayApart(nodes: seq<Overlay.Node>, target: Name, spelled: Name, listing: seq<DirEnt>,
    children: seq<StaticTree.Child>, x: Entry, y: Entry)
    requires Usual(nodes, target, listing, children) && y in Overlays(nodes, target)
    requires x in StaticsAfter(nodes, spelled, Fats(nodes, target, listing), children)
    requires forall i: nat :: i < |children| ==> OnceOnly(nodes, target, spelled, UpToNul(children[i].name))
    ensures x.name != y.name
  {
    StaticShown(children, nodes, spelled, Seen(Names(Fats(nodes, target, listing))), x);
    var i: nat :| IsStatic(children, x, i);
    assert OnceOnly(nodes, target, spelled, UpToNul(children[i].name));
    assert !InOverlay(nodes, target, x.name);
    var c: nat :| c < |Overlays(nodes, target)| && Overlays(nodes, target)[c] == y;
    OverlayShows(nodes, target, c);
    NodeIsIn(nodes, target, y, Children(nodes, target, |nodes|)[c]);
  }

  /** With one trailing slash the compiled-in layer looks for its children under a double slash: a name is
      listed twice exactly when the overlay holds it too and has no node of that other path. */
  lemma TrailingSlashExactly(nodes: seq<Overlay.Node>, target: Name, listing: seq<DirEnt>,
    children: seq<StaticTree.Child>)
    requires Usual(nodes, target, listing, children) && target != ROOT
    ensures Distinct(Listing(nodes, target + ROOT, listing, children)) <==>
      forall i: nat :: i < |children| ==> var name := UpToNul(children[i].name);
        InOverlay(nodes, target, name) ==> Overlay.Lookup(nodes, Cut(target + ROOT + ROOT + name, 63)).Some?
  {
    var spelled := target + ROOT;
    NoNul(spelled);
    assert spelled[..|spelled| - 1] == target;
    assert Overlay.KeyOf(spelled) == target;
    DistinctExactly(nodes, target, spelled, listing, children);
    forall name: Name ensures ChildPath(spelled, name) ==
      Cut(target + ROOT + ROOT + name, 63) { SlashedChild(target, name); }
    forall i: nat | i < |children|
      ensures var name := UpToNul(children[i].name); OnceOnly(nodes, target, spelled, name) <==>
        (InOverlay(nodes, target, name) ==> Overlay.Lookup(nodes, Cut(target + ROOT + ROOT + name, 63)).Some?) { }
  }

  lemma SlashedChild(target: Name, name: Name)
    requires target != [] && |target| + 1 < PATH_BYTES + 1
    ensures ChildPath(target + ROOT, name) == Cut(target + ROOT + ROOT + name, 63)
  {
  }

  /** Such a directory: `/a/` when the compiled-in tree and the overlay both hold `/a/b`. */
  lemma TrailingSlashListsTwice(t: StaticTree.Tree)
    ensures var nodes := Created([SLASH, 0x61, SLASH, 0x62]);
      Overlay.NodesOk(nodes) && !Distinct(Listing(nodes, [SLASH, 0x61, SLASH], [], [StaticTree.Child([0x62], t)]))
  {
    CreatedIs([SLASH, 0x61, SLASH, 0x62]);
    ListsTwice(Created([SLASH, 0x61, SLASH, 0x62]), t);
  }

  lemma ListsTwice(nodes: seq<Overlay.Node>, t: StaticTree.Tree)
    requires OnlyNode(nodes, [SLASH, 0x61, SLASH, 0x62])
    ensures !Distinct(Listing(nodes, [SLASH, 0x61, SLASH], [], [StaticTree.Child([0x62], t)]))
  {
    var path: Name, target: Name, name: Name := [SLASH, 0x61, SLASH, 0x62], [SLASH, 0x61], [0x62];
    NoNul(name);
    assert path[3..] == name && ChildName(path, target) == Some(name);
    OnlyChild(nodes, path, target, name);
    NoSuchNode(nodes);
    OneStatic(nodes, target, StaticTree.Child(name, t));
    assert target + ROOT == [SLASH, 0x61, SLASH];
  }

  lemma OnlyChild(nodes: seq<Overlay.Node>, path: Name, target: Name, name: Name)
    requires OnlyNode(nodes, path) && ChildName(path, target) == Some(name) && |name| <= NAME_BYTES
    ensures InOverlay(nodes, target, name) && ShortChildren(nodes, target)
  {
    assert nodes[0].used && ChildName(nodes[0].Key(), target) == Some(name);
  }

  lemma OneStatic(nodes: seq<Overlay.Node>, target: Name, c: StaticTree.Child)
    requires Canonical(target) && target != ROOT && NodesPlain(nodes) && ShortChildren(nodes, target)
      && Plain(UpToNul(c.name))
    requires InOverlay(nodes, target, UpToNul(c.name))
    requires Overlay.Lookup(nodes, Cut(target + ROOT + ROOT + UpToNul(c.name), 63)).None?
    ensures !Distinct(Listing(nodes, target + ROOT, [], [c]))
  {
    TrailingSlashExactly(nodes, target, [], [c]);
    assert [c][0] == c;
  }

  lemma NoSuchNode(nodes: seq<Overlay.Node>)
    requires OnlyNode(nodes, [SLASH, 0x61, SLASH, 0x62])
    ensures Overlay.Lookup(nodes, Cut([SLASH, 0x61] + ROOT + ROOT + [0x62], 63)).None?
  {
    var wrong: Name := [SLASH, 0x61] + ROOT + ROOT + [0x62];
    assert wrong[4] == 0x62;
    NoNul(wrong);
    assert Overlay.KeyOf(wrong) == wrong && |wrong| == 5;
  }

  // ---------------------------------------------------------------- the handler

  /** The table of names already emitted. */
  class SeenNames {
    var names: seq<Name>
    ghost var added: seq<Name>

    ghost predicate Valid()
      reads this
    {
      names == Seen(added)
    }

    constructor ()
      ensures Valid() && added == []
    {
      names, added := [], [];
    }

    method Add(name: Name)
      requires Valid()
      modifies this
      ensures Valid() && added == old(added) + [name]
    {
      added := added + [name];
      assert added[..|added| - 1] == old(added);
      if |names| >= SEEN_MAX { return; }
      names := names + [name[..Min(|name|, NAME_BYTES)]];
    }

    method Contains(name: Name) returns (b: bool)
      ensures b == Has(names, name)
    {
      for i := 0 to |names|
        invariant forall k: nat :: k < i ==> !EqCi(names[k], name)
      {
        if |names[i]| == |name| && LowerAll(names[i]) == LowerAll(name) { return true; }
      }
      b := false;
    }
  }

  /** children_of: no more than 32 names, which is all there can be. */
  method ChildrenOf(table: Overlay.Table, path: Name) returns (names: seq<Name>, idxs: seq<nat>)
    requires table.Valid()
    ensures idxs == Children(table.nodes[..], Overlay.KeyOf(path), Overlay.MAX_NODES)
    ensures names == StoredNames(table.nodes[..], Overlay.KeyOf(path), Overlay.MAX_NODES)
  {
    var parent := Overlay.Canon(UpToNul(path));
    names, idxs := [], [];
    ghost var nodes := table.nodes[..];
    for i := 0 to Overlay.MAX_NODES
      invariant idxs == Children(nodes, parent, i) && names == StoredNames(nodes, parent, i)
    {
      var n := table.nodes[i];
      assert n == nodes[i];
      if |idxs| < Overlay.MAX_NODES && n.used {
        var name := ChildName(Overlay.Canon(n.path), parent);
        if name.Some? {
          names := names + [UpToNul(name.value[..Min(|name.value|, 48)])];
          idxs := idxs + [i];
        }
      }
    }
  }

  lemma FatStep(listing: seq<DirEnt>, hidden: seq<Name>, i: nat, out: seq<Entry>)
    requires i < |listing| && out == FatPart(listing[..i], hidden)
    ensures FatPart(listing[..i + 1], hidden) == out + if Has(hidden, listing[i].name) then []
      else [FatEntry(listing[i])]
    ensures Names(out + [FatEntry(listing[i])]) == Names(out) + [listing[i].name]
  {
    assert listing[..i + 1][..i] == listing[..i];
    var more := out + [FatEntry(listing[i])];
    assert more[..|more| - 1] == out;
  }

  method EmitFat(listing: seq<DirEnt>, hidden: SeenNames) returns (out: seq<Entry>, seen: SeenNames)
    requires hidden.Valid()
    ensures out == FatPart(listing, hidden.names)
    ensures fresh(seen) && seen.Valid() && seen.names == Seen(Names(out))
  {
    out := [];
    seen := new SeenNames();
    ghost var known := hidden.names;
    for i := 0 to |listing|
      invariant out == FatPart(listing[..i], known) && fresh(seen) && seen.Valid() && seen.added == Names(out)
    {
      var d := listing[i];
      FatStep(listing, known, i, out);
      var skip := hidden.Contains(d.name);
      if !skip {
        seen.Add(d.name);
        out := out + [Entry(FromFat, d.name, if d.isDir then 1 else 0, d.size)];
      }
    }
    assert listing[..|listing|] == listing;
  }

  method EmitStatic(table: Overlay.Table, spelled: Name, children: seq<StaticTree.Child>, fatSeen: SeenNames)
    returns (out: seq<Entry>)
    requires table.Valid() && UpToNul(spelled) == spelled
    ensures out == StaticPart(children, Shadows(children, table.nodes[..], spelled, fatSeen.names))
  {
    out := [];
    ghost var flags := Shadows(children, table.nodes[..], spelled, fatSeen.names);
    for i := 0 to |children|
      invariant out == StaticPart(children[..i], flags[..i])
    {
      var c := children[i];
      StaticStep(children, flags, i);
      var name := UpToNul(c.name);
      var shadowed := InShadow(table, spelled, name, fatSeen);
      assert flags[i] == shadowed;
      if !shadowed { out := out + [Entry(FromStatic, name, c.node.Flags(), c.node.Size())]; }
    }
    assert children[..|children|] == children && flags[..|children|] == flags;
  }

  /** The overlay is asked by path, the FAT32 table by name. */
  method InShadow(table: Overlay.Table, spelled: Name, name: Name, fatSeen: SeenNames) returns (b: bool)
    requires table.Valid()
    ensures b == ShadowedName(table.nodes[..], spelled, fatSeen.names, name)
  {
    var found := table.Find(ChildPath(spelled, name));
    if found.Some? { return true; }
    b := fatSeen.Contains(name);
  }

  lemma StaticStep(children: seq<StaticTree.Child>, flags: seq<bool>, i: nat)
    requires i < |children| == |flags|
    ensures StaticPart(children[..i + 1], flags[..i + 1]) == StaticPart(children[..i], flags[..i]) + if flags[i]
      then [] else [StaticEntry(children[i])]
  {
    assert children[..i + 1][..i] == children[..i] && flags[..i + 1][..i] == flags[..i];
  }

  method EmitOverlay(table: Overlay.Table, ghost parent: Name, names: seq<Name>, idxs: seq<nat>)
    returns (out: seq<Entry>)
    requires table.Valid()
    requires idxs == Children(table.nodes[..], parent, Overlay.MAX_NODES)
      && names == StoredNames(table.nodes[..], parent, Overlay.MAX_NODES)
    ensures out == Overlays(table.nodes[..], parent)
  {
    out := [];
    ghost var nodes := table.nodes[..];
    ghost var all := OverlayPart(nodes, parent, |nodes|);
    SameCount(nodes, parent, |nodes|);
    for c := 0 to |idxs|
      invariant out == all[..c]
    {
      ChildAt(nodes, parent, |nodes|, c);
      var n := table.nodes[idxs[c]];
      assert n == nodes[idxs[c]] && all[c] == OverlayEntry(n, parent);
      out := out + [Entry(FromOverlay, names[c], n.content.flags, n.content.dlen)];
    }
  }

  /** Whether a path is a directory in some layer; fatIsDir is what FAT32 knows of it. */
  datatype Verdict = Refuse(errno: nat) | Go(children: seq<StaticTree.Child>)

  function Decide(nodes: seq<Overlay.Node>, root: StaticTree.Tree, fatIsDir: Option<bool>, target: Name): Verdict {
    var v := DecideLocally(nodes, root, target);
    if v.Some? then v.value else ByFat(fatIsDir)
  }

  function ByFat(isDir: Option<bool>): Verdict {
    if isDir.None? then Refuse(ENOENT) else if isDir.value then Go([]) else Refuse(ENOTDIR)
  }

  /** What the overlay and the compiled-in tree decide; None if neither knows the path. */
  function DecideLocally(nodes: seq<Overlay.Node>, root: StaticTree.Tree, target: Name): Option<Verdict> {
    var node, i := StaticTree.Resolve(root, target), Overlay.Lookup(nodes, UpToNul(target));
    if node.Some? && node.value.Dir? then Some(Go(node.value.children))
    else if i.Some? && nodes[i.value].content.IsDir() then Some(Go([]))
    else if node.Some? || i.Some? then Some(Refuse(ENOTDIR))
    else None
  }

  /** The objects a listing may change: the FAT32 reader with its caches and its driver. */
  ghost function ReaderOf(fat: Fat32.Reader?): set<object> { if fat == null then {} else {fat, fat.drv} }

  /** If the volume will be asked about the path, it can be listed. */
  ghost predicate Listable(fat: Fat32.Reader?, path: Name) { fat != null ==> Fat32.Lists(fat.vol, fat.chains, path) }

  /** What FAT32 knows of a path, and what it lists below it. */
  ghost function FatKind(fat: Fat32.Reader?, path: Name): Option<bool>
    requires Listable(fat, path)
  {
    if fat == null then None
    else
      var fi := Lookup(fat.vol, fat.chains, path);
      if fi.None? then None else Some(fi.value.isDir)
  }

  ghost function FatListing(fat: Fat32.Reader?, path: Name): seq<DirEnt>
    requires Listable(fat, path)
  {
    if fat == null || Fat32.Listing(fat.vol, fat.chains, path).None? then []
      else Fat32.Listing(fat.vol, fat.chains, path).value
  }

  ghost function Failures(fat: Fat32.Reader?): nat
    reads fat
  {
    if fat == null then 0 else fat.failures
  }

  /** If the overlay and the compiled-in tree do not refuse the path, the volume can be asked about it. */
  ghost predicate Askable(nodes: seq<Overlay.Node>, root: StaticTree.Tree, fat: Fat32.Reader?, target: Name) {
    Decide(nodes, root, Some(true), target).Go? ==> Listable(fat, UpToNul(target))
  }

  /** What all three layers together decide. */
  ghost function Decided(nodes: seq<Overlay.Node>, root: StaticTree.Tree, fat: Fat32.Reader?, target: Name): Verdict
    requires Askable(nodes, root, fat, target)
  {
    var v := Decide(nodes, root, Some(true), target);
    if v.Refuse? then v else Decide(nodes, root, FatKind(fat, UpToNul(target)), target)
  }

  /** What handle_readdir answers. */
  ghost predicate Answered(nodes: seq<Overlay.Node>, root: StaticTree.Tree, fat: Fat32.Reader?, target: Name,
    errno: nat, out: seq<Entry>)
    requires Askable(nodes, root, fat, target)
  {
    match Decided(nodes, root, fat, target)
    case Refuse(e) => errno == e && out == []
    case Go(children) => errno == 0 && out == Listing(nodes, target, FatListing(fat, UpToNul(target)), children)
  }

  /** handle_readdir. */
  method HandleReaddir(table: Overlay.Table, root: StaticTree.Tree, fat: Fat32.Reader?, path: Name)
    returns (errno: nat, out: seq<Entry>)
    requires table.Valid() && (fat != null ==> fat.Valid())
    requires Askable(table.nodes[..], root, fat, Target(path))
    modifies ReaderOf(fat)
    ensures (fat != null ==> fat.Valid()) && Failures(fat) >= old(Failures(fat))
      && table.nodes[..] == old(table.nodes[..])
    ensures Failures(fat) == old(Failures(fat)) ==> Answered(table.nodes[..], root, fat, Target(path), errno, out)
  {
    var target := Target(path);
    var children;
    errno, children := Admit(table, root, fat, target);
    if errno != 0 { return errno, []; }
    out := ListAll(table, fat, target, children);
  }

  /** Its second part: the entries of a directory. */
  method ListAll(table: Overlay.Table, fat: Fat32.Reader?, target: Name, children: seq<StaticTree.Child>)
    returns (out: seq<Entry>)
    requires table.Valid() && (fat != null ==> fat.Valid()) && Listable(fat, UpToNul(target))
    modifies ReaderOf(fat)
    ensures (fat != null ==> fat.Valid()) && Failures(fat) >= old(Failures(fat))
      && table.nodes[..] == old(table.nodes[..])
    ensures Failures(fat) == old(Failures(fat)) ==>
      out == Listing(table.nodes[..], target, FatListing(fat, UpToNul(target)), children)
  {
    assert table.nodes !in ReaderOf(fat);
    var listing := FatEntries(fat, UpToNul(target));
    out := Collect(table, target, listing, children);
  }

  /** Its FAT32 part. */
  method FatEntries(fat: Fat32.Reader?, path: Name) returns (listing: seq<DirEnt>)
    requires Listable(fat, path) && (fat != null ==> fat.Valid())
    modifies ReaderOf(fat)
    ensures (fat != null ==> fat.Valid()) && Failures(fat) >= old(Failures(fat))
    ensures Failures(fat) == old(Failures(fat)) ==> listing == FatListing(fat, path)
  {
    listing := [];
    if fat != null {
      var entries := fat.ReadDir(path);
      if entries.Some? { listing := entries.value; }
    }
  }

  function Target(path: Name): Name { if UpToNul(path) == [] then ROOT else path }

  /** Its first part: is the target a directory in some layer? */
  method Admit(table: Overlay.Table, root: StaticTree.Tree, fat: Fat32.Reader?, target: Name)
    returns (errno: nat, children: seq<StaticTree.Child>)
    requires table.Valid() && (fat != null ==> fat.Valid())
    requires Askable(table.nodes[..], root, fat, target)
    modifies ReaderOf(fat)
    ensures (fat != null ==> fat.Valid()) && Failures(fat) >= old(Failures(fat))
      && table.nodes[..] == old(table.nodes[..])
    ensures Failures(fat) == old(Failures(fat)) ==>
      Decided(table.nodes[..], root, fat, target) == if errno == 0 then Go(children) else Refuse(errno)
    ensures errno == 0 ==> Decide(table.nodes[..], root, Some(true), target).Go?
  {
    var local := AdmitLocally(table, root, target);
    errno, children := 0, [];
    ghost var nodes := table.nodes[..];
    DecidedIs(nodes, root, fat, target);
    if local.Some? {
      match local.value
      case Refuse(e) => errno := e;
      case Go(found) => children := found;
    } else if fat == null {
      errno := ENOENT;
    } else {
      var kind := AskFat(fat, UpToNul(target));
      assert table.nodes[..] == nodes;
      errno := if kind.None? then ENOENT else if kind.value then 0 else ENOTDIR;
    }
  }

  lemma DecidedIs(nodes: seq<Overlay.Node>, root: StaticTree.Tree, fat: Fat32.Reader?, target: Name)
    requires Askable(nodes, root, fat, target)
    ensures var v := DecideLocally(nodes, root, target);
      && (v.Some? ==> Decided(nodes, root, fat, target) == v.value == Decide(nodes, root, Some(true), target))
      && (v.None? ==>
            && Listable(fat, UpToNul(target)) && Decide(nodes, root, Some(true), target).Go?
            && Decided(nodes, root, fat, target) == ByFat(FatKind(fat, UpToNul(target))))
  {
  }

  method AdmitLocally(table: Overlay.Table, root: StaticTree.Tree, target: Name) returns (v: Option<Verdict>)
    requires table.Valid()
    ensures v == DecideLocally(table.nodes[..], root, target)
    ensures v.Some? && v.value.Refuse? ==> v.value.errno != 0
  {
    var trimmed := UpToNul(target);
    TrimTwice(target);
    var node := StaticTree.Resolve(root, target);
    var i := table.Find(trimmed);
    if node.Some? && node.value.Dir? { return Some(Go(node.value.children)); }
    if node.Some? {
      var isDir := i.Some? && table.nodes[i.value].content.IsDir();
      return Some(if isDir then Go([]) else Refuse(ENOTDIR));
    }
    if i.None? { return None; }
    v := Some(if table.nodes[i.value].content.IsDir() then Go([]) else Refuse(ENOTDIR));
  }

  method AskFat(fat: Fat32.Reader, path: Name) returns (isDir: Option<bool>)
    requires Listable(fat, path) && fat.Valid()
    modifies ReaderOf(fat)
    ensures fat.Valid() && Failures(fat) >= old(Failures(fat))
    ensures Failures(fat) == old(Failures(fat)) ==> isDir == FatKind(fat, path)
  {
    var fi := fat.LookupPath(path);
    isDir := if fi.None? then None else Some(fi.value.isDir);
  }

  /** The three layers, collected and emitted. */
  method Collect(table: Overlay.Table, target: Name, listing: seq<DirEnt>, children: seq<StaticTree.Child>)
    returns (out: seq<Entry>)
    requires table.Valid()
    ensures out == Listing(table.nodes[..], target, listing, children)
  {
    ghost var nodes, parent := table.nodes[..], Overlay.KeyOf(target);
    assert UpToNul(UpToNul(target)) == UpToNul(target) && Overlay.KeyOf(UpToNul(target)) == parent
      by { TrimTwice(target); }
    var names, idxs := ChildrenOf(table, UpToNul(target));
    var hidden := Remember(names);
    assert hidden.names == Hidden(nodes, parent);
    var fats, fatSeen := EmitFat(listing, hidden);
    assert fats == Fats(nodes, parent, listing);
    var statics := EmitStatic(table, UpToNul(target), children, fatSeen);
    assert statics == StaticsAfter(nodes, UpToNul(target), fats, children);
    var overlays := EmitOverlay(table, parent, names, idxs);
    assert overlays == Overlays(nodes, parent);
    out := fats + statics + overlays;
  }

  method Remember(names: seq<Name>) returns (seen: SeenNames)
    ensures fresh(seen) && seen.Valid() && seen.names == Seen(names)
  {
    seen := new SeenNames();
    for i := 0 to |names|
      invariant fresh(seen) && seen.Valid() && seen.added == names[..i]
    {
      seen.Add(names[i]);
    }
    assert names[..|names|] == names;
  }

  /** One RESP_ENTRY message: up to 40 bytes of the name. */
  method EntryMsg(e: Entry) returns (m: seq<nat>)
    ensures |m| == 8 && m[..3] == [RESP_ENTRY, e.flags, e.size] && Carries(m[3..], Cut(e.name, NAME_BYTES))
  {
    var words := PackBytesInto(DATA_WORDS, Cut(e.name, NAME_BYTES));
    m := [RESP_ENTRY, e.flags, e.size] + words;
    assert m[3..] == words;
  }
}
