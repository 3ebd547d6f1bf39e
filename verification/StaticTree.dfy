/** The compiled-in read-only directory tree, the lowest of the file server's three layers. */
module StaticTree {
  import opened Bytes

  datatype Tree = File(data: seq<Byte>, fflags: nat) | Dir(children: seq<Child>) {
    function Flags(): nat { if File? then fflags else 1 }
    function Size(): nat { if File? then |data| else |children| }
  }
  datatype Child = Child(name: seq<Byte>, node: Tree)

  function ChildNamed(children: seq<Child>, name: seq<Byte>): (r: Option<Tree>)
    ensures r.None? <==> forall c :: c in children ==> UpToNul(c.name) != name
    ensures r.Some? ==> exists c :: c in children && UpToNul(c.name) == name && c.node == r.value
  {
    if children == [] then None
    else if UpToNul(children[0].name) == name then Some(children[0].node)
    else ChildNamed(children[1..], name)
  }

  /** walk: a trailing slash still names the node it follows. */
  function Walk(node: Tree, remaining: seq<Byte>): Option<Tree>
    decreases |remaining|
  {
    if remaining == [] then Some(node)
    else if node.File? then None
    else
      var component := remaining[..SlashAt(remaining)];
      if component == [] then Some(node)
      else
        var next := ChildNamed(node.children, component);
        if next.None? then None else Walk(next.value, AfterSlash(remaining))
  }

  /** Going down by the components one after the other. */
  function Descend(node: Tree, comps: seq<seq<Byte>>): Option<Tree> {
    if comps == [] then Some(node)
    else if node.File? then None
    else
      var next := ChildNamed(node.children, comps[0]);
      if next.None? then None else Descend(next.value, comps[1..])
  }

  lemma {:induction false} WalkDescends(node: Tree, comps: seq<seq<Byte>>)
    requires forall i :: 0 <= i < |comps| ==> Component(comps[i])
    ensures Walk(node, JoinPath(comps)) == Descend(node, comps)
    decreases |comps|
  {
    if comps != [] {
      JoinSplit(comps);
      if node.Dir? {
        var next := ChildNamed(node.children, comps[0]);
        if next.Some? { WalkDescends(next.value, comps[1..]); }
      }
    }
  }

  /** A path names what its components lead to, with or without a slash in front. */
  lemma ResolveDescends(root: Tree, comps: seq<seq<Byte>>)
    requires comps != [] && forall i :: 0 <= i < |comps| ==> Component(comps[i])
    ensures Resolve(root, JoinPath(comps)) == Resolve(root, [0x2F] + JoinPath(comps)) == Descend(root, comps)
  {
    var p := JoinPath(comps);
    JoinHasNoNul(comps);
    NoNul(p);
    NoNul([0x2F] + p);
    JoinSplit(comps);
    assert p[..SlashAt(p)][0] == comps[0][0];
    assert ([0x2F] + p)[1..] == p;
    WalkDescends(root, comps);
  }

  /** lookup: absolute or root-relative. */
  function Resolve(root: Tree, path: seq<Byte>): Option<Tree> {
    var p := UpToNul(path);
    Walk(root, if p != [] && p[0] == 0x2F then p[1..] else p)
  }
}
