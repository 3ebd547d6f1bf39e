/** The file server's writable overlay: a flat array of nodes that stands for a map from canonical path
    to flags and bytes. */
module Overlay {
  import opened Bytes

  const MAX_NODES: nat := 32
  const MAX_DATA: nat := 4096
  const MAX_PATH: nat := 64
  const SLASH: Byte := 0x2F

  type Path = seq<Byte>

  /** `data` is the whole fixed buffer; its first `dlen` bytes are the file. */
  datatype Content = Content(flags: nat, dlen: nat, data: seq<Byte>) {
    predicate IsDir() { flags % 2 == 1 }
    predicate Ok() { dlen <= MAX_DATA && |data| == MAX_DATA }
    function Bytes(): seq<Byte>
      requires Ok()
    {
      data[..dlen]
    }
  }

  datatype Node = Node(path: Path, content: Content, used: bool) {
    function Key(): Path { Canon(path) }
  }

  /** canon: strips one trailing slash, except from the root. */
  function Canon(p: Path): (r: Path)
    ensures r <= p
  {
    if |p| > 1 && p[|p| - 1] == SLASH then p[..|p| - 1] else p
  }

  /** The key a request path is looked up under. */
  function KeyOf(path: Path): (k: Path) { Canon(UpToNul(path)) }

  /** Canonicalising the key again changes nothing. */
  predicate Stable(path: Path) { Canon(KeyOf(path)) == KeyOf(path) }

  /** Only a path of three bytes or more that ends in a double slash is not stable. */
  lemma StableExactly(path: Path)
    ensures Stable(path) <==>
      !(|UpToNul(path)| > 2 && UpToNul(path)[|UpToNul(path)| - 1] == SLASH
      && UpToNul(path)[|UpToNul(path)| - 2] == SLASH)
  {
    var p := UpToNul(path);
    var k := KeyOf(path);
    if k != p { assert k[|k| - 1] == p[|p| - 2]; }
  }

  function Fresh(flags: nat): (c: Content)
    ensures c.Ok()
  {
    Content(flags, 0, seq(MAX_DATA, _ => 0))
  }

  ghost predicate NodesOk(s: seq<Node>) {
    |s| == MAX_NODES && forall i: nat {:trigger s[i]} ::
      i < |s| ==> s[i].content.Ok() && (s[i].used ==> 1 <= |s[i].path| <= MAX_PATH)
  }

  // ---------------------------------------------------------------- what each scan finds

  /** The first used node at or after i whose key is k. */
  function FindKey(s: seq<Node>, k: Path, i: nat): (r: Option<nat>)
    requires i <= |s|
    ensures r.Some? ==> i <= r.value < |s| && s[r.value].used && s[r.value].Key() == k
    ensures r.None? ==> forall j :: i <= j < |s| ==> !(s[j].used && s[j].Key() == k)
    ensures r.Some? ==> forall j :: i <= j < r.value ==> !(s[j].used && s[j].Key() == k)
    decreases |s| - i
  {
    if i == |s| then None else if s[i].used && s[i].Key() == k then Some(i) else FindKey(s, k, i + 1)
  }

  function FreeNode(s: seq<Node>, i: nat): (r: Option<nat>)
    requires i <= |s|
    ensures r.Some? ==> i <= r.value < |s| && !s[r.value].used
    ensures r.None? ==> forall j :: i <= j < |s| ==> s[j].used
    ensures r.Some? ==> forall j :: i <= j < r.value ==> s[j].used
    decreases |s| - i
  {
    if i == |s| then None else if !s[i].used then Some(i) else FreeNode(s, i + 1)
  }

  function Lookup(s: seq<Node>, path: Path): Option<nat> { FindKey(s, KeyOf(path), 0) }

  /** The overlay after alloc(path, flags), and the index it returns. */
  function Allocated(s: seq<Node>, path: Path, flags: nat): (r: (seq<Node>, Option<nat>))
    ensures r.1.Some? ==> r.1.value < |s|
  {
    var k := KeyOf(path);
    if Lookup(s, path).Some? then (s, Lookup(s, path))
    else if |k| == 0 || |k| > MAX_PATH || FreeNode(s, 0).None? then (s, None)
    else var i := FreeNode(s, 0).value; (s[i := Node(k, Fresh(flags), true)], Some(i))
  }

  function Removed(s: seq<Node>, path: Path): seq<Node> {
    var i := Lookup(s, path);
    if i.Some? then s[i.value := s[i.value].(used := false)] else s
  }

  /** A write of src at `offset`; None if it does not fit. */
  function Written(c: Content, offset: nat, src: seq<Byte>): (r: Option<Content>)
    requires c.Ok()
    ensures r.Some? ==> r.value.Ok()
  {
    var end := offset + |src|;
    if end > MAX_DATA then None
    else Some(Content(c.flags, if end > c.dlen then end else c.dlen, c.data[..offset] + src + c.data[end..]))
  }

  /** What should be there afterwards, byte by byte: src in its range and the old bytes everywhere else, and no file
      gets shorter by it. */
  function Overwritten(c: Content, offset: nat, src: seq<Byte>): (r: Content)
    requires c.Ok() && offset + |src| <= MAX_DATA
    ensures r.Ok()
  {
    var end := offset + |src|;
    Content(c.flags, if c.dlen < end then end else c.dlen,
      seq(MAX_DATA, i requires 0 <= i < MAX_DATA => if offset <= i < end then src[i - offset] else c.data[i]))
  }

  lemma WrittenExactly(c: Content, offset: nat, src: seq<Byte>)
    requires c.Ok()
    ensures Written(c, offset, src) == if offset + |src| <= MAX_DATA then Some(Overwritten(c, offset, src)) else None
  {
    if offset + |src| <= MAX_DATA {
      assert Written(c, offset, src).value.data == Overwritten(c, offset, src).data;
    }
  }

  /** Inside a file or at its end: what stood before the write, what was written, and what stood behind it. */
  lemma SpliceIs(c: Content, offset: nat, src: seq<Byte>)
    requires c.Ok() && offset <= c.dlen && offset + |src| <= MAX_DATA
    ensures Overwritten(c, offset, src).Bytes() == Spliced(c.Bytes(), offset, src)
  {
    var r := Overwritten(c, offset, src);
    assert |r.Bytes()| == |Spliced(c.Bytes(), offset, src)|;
  }

  function Spliced(file: seq<Byte>, at: nat, src: seq<Byte>): seq<Byte>
    requires at <= |file|
  {
    file[..at] + src + if at + |src| < |file| then file[at + |src|..] else []
  }

  function Stored(s: seq<Node>, i: nat, c: Content): seq<Node>
    requires i < |s|
  {
    s[i := s[i].(content := c)]
  }

  // ---------------------------------------------------------------- the map the table stands for

  ghost predicate Unique(s: seq<Node>) {
    forall i: nat, j: nat {:trigger s[i], s[j]} :: i < j < |s| && s[i].used && s[j].used ==> s[i].Key() != s[j].Key()
  }

  ghost predicate Entry(s: seq<Node>, m: map<Path, Content>, k: Path) {
    && (k in m <==> FindKey(s, k, 0).Some?)
    && (k in m ==> m[k] == s[FindKey(s, k, 0).value].content)
  }

  ghost predicate Represents(s: seq<Node>, m: map<Path, Content>) {
    Unique(s) && forall k: Path {:trigger FindKey(s, k, 0)} {:trigger k in m} :: Entry(s, m, k)
  }

  lemma KeyIsAt(s: seq<Node>, i: nat)
    requires Unique(s) && i < |s| && s[i].used
    ensures FindKey(s, s[i].Key(), 0) == Some(i)
  {
    var r := FindKey(s, s[i].Key(), 0);
    assert r.Some? by { assert s[i].used; }
    SameKeySameSlot(s, i, r.value);
  }

  lemma SameKeySameSlot(s: seq<Node>, i: nat, j: nat)
    requires Unique(s) && i < |s| && j < |s| && s[i].used && s[j].used && s[i].Key() == s[j].Key()
    ensures i == j
  {
    var a, b := s[i], s[j];
  }

  /** Changing the content of a node changes one entry of the map. */
  lemma StoreRepresents(s: seq<Node>, m: map<Path, Content>, i: nat, c: Content)
    requires Represents(s, m) && i < |s| && s[i].used
    ensures Represents(Stored(s, i, c), m[s[i].Key() := c])
  {
    var s', m' := Stored(s, i, c), m[s[i].Key() := c];
    KeyIsAt(s, i);
    forall k: Path ensures Entry(s', m', k) {
      SameScan(s, s', k, 0);
      assert Entry(s, m, k);
    }
  }

  lemma {:induction false} SameScan(s: seq<Node>, s': seq<Node>, k: Path, i: nat)
    requires |s| == |s'| && i <= |s|
    requires forall j: nat {:trigger s[j]} :: j < |s| ==> s[j].used == s'[j].used && s[j].path == s'[j].path
    ensures FindKey(s, k, i) == FindKey(s', k, i)
    decreases |s| - i
  {
    if i < |s| { SameScan(s, s', k, i + 1); }
  }

  lemma InsertRepresents(s: seq<Node>, m: map<Path, Content>, i: nat, n: Node)
    requires Represents(s, m) && i < |s| && !s[i].used && n.used && FindKey(s, n.Key(), 0).None?
    ensures Represents(s[i := n], m[n.Key() := n.content])
  {
    var s', m' := s[i := n], m[n.Key() := n.content];
    forall a: nat, b: nat | a < b < |s'| && s'[a].used && s'[b].used ensures s'[a].Key() != s'[b].Key() {
      assert a != i ==> s'[a] == s[a];
      assert b != i ==> s'[b] == s[b];
    }
    forall k: Path ensures Entry(s', m', k) {
      assert Entry(s, m, k);
      if k == n.Key() { KeyIsAt(s', i); } else { OtherScan(s, s', i, k, 0); }
    }
  }

  lemma RemoveRepresents(s: seq<Node>, m: map<Path, Content>, i: nat)
    requires Represents(s, m) && i < |s| && s[i].used
    ensures Represents(s[i := s[i].(used := false)], m - {s[i].Key()})
  {
    var s', m' := s[i := s[i].(used := false)], m - {s[i].Key()};
    KeyIsAt(s, i);
    forall k: Path ensures Entry(s', m', k) {
      assert Entry(s, m, k);
      if k == s[i].Key() {
        forall j: nat | j < |s| && j != i ensures !(s'[j].used && s'[j].Key() == k) {
          if s[j].used { KeyIsAt(s, j); }
        }
      } else {
        OtherScan(s, s', i, k, 0);
      }
    }
  }

  /** A scan for k does not notice a slot that k is not, and was not, in. */
  lemma {:induction false} OtherScan(s: seq<Node>, s': seq<Node>, i: nat, k: Path, from: nat)
    requires |s| == |s'| && i < |s| && from <= |s|
    requires forall j: nat {:trigger s[j]} :: j < |s| && j != i ==> s[j] == s'[j]
    requires !(s[i].used && s[i].Key() == k) && !(s'[i].used && s'[i].Key() == k)
    ensures FindKey(s, k, from) == FindKey(s', k, from)
    decreases |s| - from
  {
    if from < |s| { OtherScan(s, s', i, k, from + 1); }
  }

  lemma {:induction false} KeysFrom(s: seq<Node>, keys: set<Path>, i: nat)
    requires Unique(s) && i <= |s|
    requires forall k :: k in keys <==> FindKey(s, k, i).Some?
    ensures |keys| <= |s| - i && (|keys| == |s| - i <==> FreeNode(s, i).None?)
    decreases |s| - i
  {
    if i == |s| {
      assert keys == {};
    } else if s[i].used {
      var k0 := s[i].Key();
      assert FindKey(s, k0, i + 1).None?;
      forall k ensures k in keys - {k0} <==> FindKey(s, k, i + 1).Some? { }
      KeysFrom(s, keys - {k0}, i + 1);
      assert k0 in keys by { assert FindKey(s, k0, i) == Some(i); }
    } else {
      KeysFrom(s, keys, i + 1);
    }
  }

  /** The table is full exactly when the map has 32 entries. */
  lemma FullExactly(s: seq<Node>, m: map<Path, Content>)
    requires Represents(s, m)
    ensures FreeNode(s, 0).None? <==> |m| == |s|
  {
    forall k ensures k in m.Keys <==> FindKey(s, k, 0).Some? { assert Entry(s, m, k); }
    KeysFrom(s, m.Keys, 0);
  }

  // ---------------------------------------------------------------- operation sequences

  /** The operations as the server composes them: every write or truncation follows a find. */
  datatype Op = OpAlloc(path: Path, flags: nat) | OpRemove(path: Path) | OpWrite(path: Path, offset: nat,
    src: seq<Byte>)
              | OpTruncate(path: Path) | OpRead(path: Path)

  datatype Result = Found(content: Content) | Absent | Refused | Done

  function Exec(s: seq<Node>, op: Op): (seq<Node>, Result)
    requires NodesOk(s)
  {
    var i := Lookup(s, op.path);
    match op
    case OpAlloc(p, flags) => var (s', r) := Allocated(s, p, flags); (s', if r.Some? then Done else Refused)
    case OpRemove(p) => (Removed(s, p), if i.Some? then Done else Absent)
    case OpWrite(p, offset, src) =>
      if i.None? then (s, Absent)
      else
        var c := Written(s[i.value].content, offset, src);
        if c.Some? then (Stored(s, i.value, c.value), Done) else (s, Refused)
    case OpTruncate(p) => if i.Some? then (Stored(s, i.value, s[i.value].content.(dlen := 0)), Done) else (s, Absent)
    case OpRead(p) => (s, if i.Some? then Found(s[i.value].content) else Absent)
  }

  /** The same operations on a plain map from canonical path to content. */
  function Spec(m: map<Path, Content>, op: Op): (map<Path, Content>, Result)
    requires forall k :: k in m ==> m[k].Ok()
  {
    var k := KeyOf(op.path);
    match op
    case OpAlloc(p, flags) =>
      if k in m then (m, Done)
      else if |k| == 0 || |k| > MAX_PATH || |m| == MAX_NODES then (m, Refused)
      else (m[k := Fresh(flags)], Done)
    case OpRemove(p) => (m - {k}, if k in m then Done else Absent)
    case OpWrite(p, offset, src) =>
      if k !in m then (m, Absent)
      else if offset + |src| > MAX_DATA then (m, Refused)
      else (m[k := Overwritten(m[k], offset, src)], Done)
    case OpTruncate(p) => if k in m then (m[k := m[k].(dlen := 0)], Done) else (m, Absent)
    case OpRead(p) => (m, if k in m then Found(m[k]) else Absent)
  }

  lemma RepresentsOk(s: seq<Node>, m: map<Path, Content>)
    requires NodesOk(s) && Represents(s, m)
    ensures forall k :: k in m ==> m[k].Ok()
  {
    forall k | k in m ensures m[k].Ok() { assert Entry(s, m, k); }
  }

  lemma ExecKeepsOk(s: seq<Node>, op: Op)
    requires NodesOk(s)
    ensures NodesOk(Exec(s, op).0)
  {
    var i := Lookup(s, op.path);
    match op
    case OpAlloc(p, flags) =>
      var f := FreeNode(s, 0);
      if f.Some? { NodeKeepsOk(s, f.value, Node(KeyOf(p), Fresh(flags), 1 <= |KeyOf(p)| <= MAX_PATH)); }
    case OpRemove(p) => if i.Some? { NodeKeepsOk(s, i.value, s[i.value].(used := false)); }
    case OpWrite(p, offset, src) =>
      if i.Some? {
        var c := Written(s[i.value].content, offset, src);
        if c.Some? { NodeKeepsOk(s, i.value, s[i.value].(content := c.value)); }
      }
    case OpTruncate(p) =>
      if i.Some? { NodeKeepsOk(s, i.value, s[i.value].(content := s[i.value].content.(dlen := 0))); }
    case OpRead(p) =>
  }

  lemma NodeKeepsOk(s: seq<Node>, i: nat, n: Node)
    requires NodesOk(s) && i < |s| && n.content.Ok() && (n.used ==> 1 <= |n.path| <= MAX_PATH)
    ensures NodesOk(s[i := n])
  {
  }

  /** There is a file of this path, or there is room for one. */
  predicate Fits(m: map<Path, Content>, k: Path) { k in m || (1 <= |k| <= MAX_PATH && |m| != MAX_NODES) }

  lemma AllocRefines(s: seq<Node>, m: map<Path, Content>, p: Path, flags: nat)
    requires NodesOk(s) && Represents(s, m) && Stable(p)
    ensures var k := KeyOf(p);
      && Represents(Allocated(s, p, flags).0, if k !in m && Fits(m, k) then m[k := Fresh(flags)] else m)
      && (Allocated(s, p, flags).1.Some? <==> Fits(m, k))
  {
    var k := KeyOf(p);
    assert Entry(s, m, k);
    FullExactly(s, m);
    if k !in m && Fits(m, k) { InsertRepresents(s, m, FreeNode(s, 0).value, Node(k, Fresh(flags), true)); }
  }

  lemma WriteRefines(s: seq<Node>, m: map<Path, Content>, p: Path, offset: nat, src: seq<Byte>)
    requires NodesOk(s) && Represents(s, m) && forall k :: k in m ==> m[k].Ok()
    ensures var (s', r) := Exec(s, OpWrite(p, offset, src));
      Represents(s', Spec(m, OpWrite(p, offset, src)).0) && r == Spec(m, OpWrite(p, offset, src)).1
  {
    var i := Lookup(s, p);
    assert Entry(s, m, KeyOf(p));
    if i.Some? {
      var c := s[i.value].content;
      WrittenExactly(c, offset, src);
      if offset + |src| <= MAX_DATA { StoreRepresents(s, m, i.value, Overwritten(c, offset, src)); }
    }
  }

  /** One operation on a stable path does to the map what it does to the table. */
  lemma ExecRefines(s: seq<Node>, m: map<Path, Content>, op: Op)
    requires NodesOk(s) && Represents(s, m) && Stable(op.path)
    ensures forall k :: k in m ==> m[k].Ok()
    ensures Represents(Exec(s, op).0, Spec(m, op).0) && Exec(s, op).1 == Spec(m, op).1
  {
    RepresentsOk(s, m);
    var k := KeyOf(op.path);
    var i := FindKey(s, k, 0);
    assert Entry(s, m, k);
    match op
    case OpAlloc(p, flags) =>
      AllocRefines(s, m, p, flags);
    case OpRemove(p) =>
      if i.Some? { RemoveRepresents(s, m, i.value); } else { assert m - {k} == m; }
    case OpWrite(p, offset, src) =>
      WriteRefines(s, m, p, offset, src);
    case OpTruncate(p) =>
      if i.Some? { StoreRepresents(s, m, i.value, s[i.value].content.(dlen := 0)); }
    case OpRead(p) =>
  }

  function ExecAll(s: seq<Node>, ops: seq<Op>): (seq<Node>, seq<Result>)
    requires NodesOk(s)
    decreases |ops|
  {
    if ops == [] then (s, [])
    else
      ExecKeepsOk(s, ops[0]);
      var (s', r) := Exec(s, ops[0]);
      var (s'', rs) := ExecAll(s', ops[1..]);
      (s'', [r] + rs)
  }

  function SpecAll(m: map<Path, Content>, ops: seq<Op>): (map<Path, Content>, seq<Result>)
    requires forall k :: k in m ==> m[k].Ok()
    decreases |ops|
  {
    if ops == [] then (m, [])
    else
      var (m', r) := Spec(m, ops[0]);
      var (m'', rs) := SpecAll(m', ops[1..]);
      (m'', [r] + rs)
  }

  /** Every sequence of operations over stable paths answers exactly as the map does. */
  lemma {:induction false} RunRefines(s: seq<Node>, m: map<Path, Content>, ops: seq<Op>)
    requires NodesOk(s) && Represents(s, m)
    requires forall i :: 0 <= i < |ops| ==> Stable(ops[i].path)
    ensures forall k :: k in m ==> m[k].Ok()
    ensures Represents(ExecAll(s, ops).0, SpecAll(m, ops).0) && ExecAll(s, ops).1 == SpecAll(m, ops).1
    decreases |ops|
  {
    RepresentsOk(s, m);
    if ops != [] {
      ExecKeepsOk(s, ops[0]);
      ExecRefines(s, m, ops[0]);
      RunRefines(Exec(s, ops[0]).0, Spec(m, ops[0]).0, ops[1..]);
    }
  }

  /** A newly allocated path is found again exactly when it is stable. */
  lemma AllocThenFind(s: seq<Node>, path: Path, flags: nat)
    requires Lookup(s, path).None? && Allocated(s, path, flags).1.Some?
    ensures Lookup(Allocated(s, path, flags).0, path).Some? <==> Stable(path)
  {
    var k := KeyOf(path);
    var i := FreeNode(s, 0).value;
    var s' := s[i := Node(k, Fresh(flags), true)];
    if Stable(path) {
      assert s'[i].used && s'[i].Key() == k;
    } else {
      OtherScan(s, s', i, k, 0);
    }
  }

  /** `/a//` is stored as `/a/` and answers to `/a`, so it can be created again and again. */
  lemma DoubleSlashDuplicates(s: seq<Node>)
    requires NodesOk(s) && (forall i: nat :: i < |s| ==> !s[i].used)
    ensures var p := [SLASH, 0x61, SLASH, SLASH];
      var once := Allocated(s, p, 0).0;
      var twice := Allocated(once, p, 0).0;
      && Lookup(once, p).None? && Lookup(once, [SLASH, 0x61]).Some? && !Unique(twice)
  {
    var p := [SLASH, 0x61, SLASH, SLASH];
    assert UpToNul(p[3..]) == p[3..] && UpToNul(p[2..]) == p[2..] && UpToNul(p[1..]) == p[1..] && UpToNul(p) == p;
    var q := [SLASH, 0x61];
    assert UpToNul(q[1..]) == q[1..] && UpToNul(q) == q;
    var k := [SLASH, 0x61, SLASH];
    assert KeyOf(p) == k && KeyOf(q) == q && Canon(k) == q;
    var once := Allocated(s, p, 0).0;
    assert once == s[0 := Node(k, Fresh(0), true)];
    var twice := Allocated(once, p, 0).0;
    assert !once[1].used && FreeNode(once, 0) == FreeNode(once, 1) == Some(1);
    assert FindKey(s, q, 0).None?;
    assert twice == once[1 := Node(k, Fresh(0), true)];
    assert twice[0].used && twice[1].used && twice[0].Key() == twice[1].Key();
  }

  /** Truncation hides bytes but keeps them: a write past the end brings them back. */
  lemma TruncateKeepsBytes(c: Content, offset: nat, src: seq<Byte>, i: nat)
    requires c.Ok() && i < offset && offset + |src| <= MAX_DATA
    ensures var c' := Written(c.(dlen := 0), offset, src).value;
      i < |c'.Bytes()| && c'.Bytes()[i] == c.data[i]
  {
  }

  // ---------------------------------------------------------------- the table in place

  class Table {
    const nodes: array<Node>

    ghost predicate Valid()
      reads nodes
    {
      nodes.Length == MAX_NODES && NodesOk(nodes[..])
    }

    constructor ()
      ensures Valid() && fresh(nodes) && Represents(nodes[..], map[])
    {
      nodes := new Node[MAX_NODES](_ => Node([], Fresh(0), false));
      new;
      forall k: Path ensures Entry(nodes[..], map[], k) { }
    }

    /** find. */
    method Find(path: Path) returns (r: Option<nat>)
      requires Valid()
      ensures r == Lookup(nodes[..], path) && (r.Some? ==> r.value < MAX_NODES)
    {
      var p := Canon(UpToNul(path));
      for i := 0 to MAX_NODES
        invariant FindKey(nodes[..], p, 0) == FindKey(nodes[..], p, i)
      {
        if nodes[i].used && Canon(nodes[i].path) == p { return Some(i); }
      }
      r := None;
    }

    /** alloc. */
    method Alloc(path: Path, flags: nat) returns (r: Option<nat>)
      requires Valid()
      modifies nodes
      ensures Valid() && (nodes[..], r) == Allocated(old(nodes[..]), path, flags)
    {
      r := Find(path);
      if r.Some? { return; }
      var p := Canon(UpToNul(path));
      if |p| == 0 || |p| > MAX_PATH { return None; }
      for i := 0 to MAX_NODES
        invariant nodes[..] == old(nodes[..]) && FreeNode(nodes[..], 0) == FreeNode(nodes[..], i)
      {
        if !nodes[i].used {
          nodes[i] := Node(p, Fresh(flags), true);
          return Some(i);
        }
      }
    }

    /** remove. */
    method Remove(path: Path) returns (ok: bool)
      requires Valid()
      modifies nodes
      ensures Valid() && nodes[..] == Removed(old(nodes[..]), path) && (ok <==> Lookup(old(nodes[..]), path).Some?)
    {
      var i := Find(path);
      if i.Some? { nodes[i.value] := nodes[i.value].(used := false); }
      ok := i.Some?;
    }

    /** write_chunk. */
    method WriteChunk(idx: nat, offset: nat, src: seq<Byte>) returns (ok: bool)
      requires Valid() && idx < MAX_NODES
      modifies nodes
      ensures Valid() && (ok <==> offset + |src| <= MAX_DATA)
      ensures nodes[..] == if ok then Stored(old(nodes[..]), idx, Overwritten(old(nodes[idx].content), offset, src))
        else old(nodes[..])
    {
      WrittenExactly(nodes[idx].content, offset, src);
      var end := offset + |src|;
      if end > MAX_DATA { return false; }
      var c := nodes[idx].content;
      var data := c.data[..offset] + src + c.data[end..];
      var dlen := if end > c.dlen then end else c.dlen;
      nodes[idx] := nodes[idx].(content := Content(c.flags, dlen, data));
      ok := true;
    }

    /** truncate. */
    method Truncate(idx: nat)
      requires Valid()
      modifies nodes
      ensures Valid()
      ensures nodes[..] == if idx < MAX_NODES then Stored(old(nodes[..]), idx, old(nodes[..])[idx].content.(dlen := 0))
        else old(nodes[..])
    {
      if idx < MAX_NODES { nodes[idx] := nodes[idx].(content := nodes[idx].content.(dlen := 0)); }
    }
  }
}
