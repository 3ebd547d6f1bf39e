/** End-to-end laws of the storage stack, from the C library down to the layers of the file server. */
module FileRoundTrip {
  import opened Bytes
  import opened Packing
  import FdTable
  import Overlay
  import StaticTree
  import opened Vfs
  import opened Libc

  /** O_RDWR | O_CREAT | O_TRUNC. */
  const REWRITE: nat := 14

  // ---------------------------------------------------------------- what open does

  /** Open flags as a C program puts them together: the access mode and three switches. */
  function Flags(mode: nat, creat: bool, trunc: bool, append: bool): nat {
    mode + (if creat then 4 else 0) + (if trunc then 8 else 0) + (if append then 16 else 0)
  }

  lemma FlagsMean(mode: nat, creat: bool, trunc: bool, append: bool, offset: nat, path: Path)
    requires mode < 4
    ensures var o := Flags(mode, creat, trunc, append);
      var f := FdTable.OpenFile(o, offset, path);
      && o % 4 == mode && (o / 4 % 2 == 1 <==> creat) && (o / 8 % 2 == 1 <==> trunc) && (o / 16 % 2 == 1 <==> append)
      && (f.Readable() <==> mode == 0 || mode == 2) && (f.Writable() <==> mode == 1 || mode == 2)
      && (f.Appending() <==> append)
  {
  }

  /** What an open should do to the overlay's files, and the error it ends in, 0 for none.  Opened for writing, a
      file of the overlay is emptied if asked, any other is created if asked and if there is room; a file that
      only lies below cannot be written.  Opened for reading, it only has to be there. */
  ghost function OpenSpec(m: map<Path, Overlay.Content>, below: Option<StaticTree.Tree>, k: Path, mode: nat,
    creat: bool,
    trunc: bool): (map<Path, Overlay.Content>, nat) {
    var writing := mode == 1 || mode == 2;
    if k in m then (if writing && trunc then m[k := m[k].(dlen := 0)] else m, 0)
    else if !writing then (m, if below.None? then ENOENT else 0)
    else if !creat then (m, if below.None? then ENOENT else if below.value.Dir? then EISDIR else EACCES)
    else if Overlay.Fits(m, k) then (m[k := Overlay.Fresh(0)], 0)
    else (m, ENOSPC)
  }

  /** And handle_open does exactly that, to the one file and to no other. */
  lemma OpenRefines(nodes: seq<Overlay.Node>, m: map<Path, Overlay.Content>, root: StaticTree.Tree, p: Path, mode: nat,
    creat: bool, trunc: bool, append: bool)
    requires Overlay.NodesOk(nodes) && Overlay.Represents(nodes, m) && Overlay.Stable(p) && mode < 4
    ensures var (nodes', errno) := OpenNodes(nodes, root, Flags(mode, creat, trunc, append), p);
      var (m', e) := OpenSpec(m, StaticTree.Resolve(root, p), Overlay.KeyOf(p), mode, creat, trunc);
      Overlay.Represents(nodes', m') && errno == e
  {
    var o := Flags(mode, creat, trunc, append);
    FlagsMean(mode, creat, trunc, append, 0, p);
    if (mode == 1 || mode == 2) && creat {
      CreateRefines(nodes, m, root, p, o);
    } else {
      FoundIs(nodes, m, p);
      if mode == 1 || mode == 2 { TruncRefines(nodes, m, o, p); }
    }
  }

  lemma FoundIs(nodes: seq<Overlay.Node>, m: map<Path, Overlay.Content>, p: Path)
    requires Overlay.Represents(nodes, m)
    ensures Overlay.Lookup(nodes, p).Some? <==> Overlay.KeyOf(p) in m
  {
    assert Overlay.Entry(nodes, m, Overlay.KeyOf(p));
  }

  lemma CreateRefines(nodes: seq<Overlay.Node>, m: map<Path, Overlay.Content>, root: StaticTree.Tree, p: Path, o: nat)
    requires Overlay.NodesOk(nodes) && Overlay.Represents(nodes, m) && Overlay.Stable(p)
    requires (o % 4 == 1 || o % 4 == 2) && o / 4 % 2 == 1
    ensures var (m', e) := OpenSpec(m, StaticTree.Resolve(root, p), Overlay.KeyOf(p), o % 4, true, o / 8 % 2 == 1);
      Overlay.Represents(OpenNodes(nodes, root, o, p).0, m') && OpenNodes(nodes, root, o, p).1 == e
  {
    AllocRefines(nodes, m, root, p);
    var (m1, e) := OpenSpec(m, StaticTree.Resolve(root, p), Overlay.KeyOf(p), 1, true, false);
    if e == 0 { CreatedTruncated(nodes, m, root, p, o); }
  }

  lemma CreatedTruncated(nodes: seq<Overlay.Node>, m: map<Path, Overlay.Content>, root: StaticTree.Tree, p: Path,
    o: nat)
    requires Overlay.Stable(p)
    requires var (m1, e) := OpenSpec(m, StaticTree.Resolve(root, p), Overlay.KeyOf(p), 1, true, false);
      var n1 := Overlay.Allocated(nodes, p, 0).0;
      e == 0 && Overlay.NodesOk(n1) && Overlay.Represents(n1, m1)
    ensures var (m', _) := OpenSpec(m, StaticTree.Resolve(root, p), Overlay.KeyOf(p), 1, true, o / 8 % 2 == 1);
      Overlay.Represents(TruncIf(Overlay.Allocated(nodes, p, 0).0, o, p), m')
  {
    var k := Overlay.KeyOf(p);
    TruncRefines(Overlay.Allocated(nodes, p, 0).0, OpenSpec(m, StaticTree.Resolve(root, p), k, 1, true, false).0, o, p);
    if k !in m { FreshTruncated(m, k); }
  }

  /** Creation alone. */
  lemma AllocRefines(nodes: seq<Overlay.Node>, m: map<Path, Overlay.Content>, root: StaticTree.Tree, p: Path)
    requires Overlay.NodesOk(nodes) && Overlay.Represents(nodes, m) && Overlay.Stable(p)
    ensures var (n1, i) := Overlay.Allocated(nodes, p, 0);
      var (m1, e) := OpenSpec(m, StaticTree.Resolve(root, p), Overlay.KeyOf(p), 1, true, false);
      Overlay.NodesOk(n1) && Overlay.Represents(n1, m1) && e == if i.Some? then 0 else ENOSPC
  {
    Overlay.ExecKeepsOk(nodes, Overlay.OpAlloc(p, 0));
    Overlay.AllocRefines(nodes, m, p, 0);
  }

  /** A file just created is empty already. */
  lemma FreshTruncated(m: map<Path, Overlay.Content>, k: Path)
    ensures var m1 := m[k := Overlay.Fresh(0)]; m1[k := m1[k].(dlen := 0)] == m1
  {
  }

  lemma TruncRefines(nodes: seq<Overlay.Node>, m: map<Path, Overlay.Content>, o: nat, p: Path)
    requires Overlay.NodesOk(nodes) && Overlay.Represents(nodes, m) && Overlay.Stable(p)
    ensures var k := Overlay.KeyOf(p);
      Overlay.Represents(TruncIf(nodes, o, p), if o / 8 % 2 == 1 && k in m then m[k := m[k].(dlen := 0)] else m)
  {
    assert Overlay.Entry(nodes, m, Overlay.KeyOf(p));
    if o / 8 % 2 == 1 { Overlay.ExecRefines(nodes, m, Overlay.OpTruncate(p)); }
  }

  /** A descriptor opened for appending starts at the end of the file, any other at its beginning. */
  lemma StartsAt(nodes: seq<Overlay.Node>, m: map<Path, Overlay.Content>, p: Path, mode: nat, creat: bool, trunc: bool,
    append: bool)
    requires Overlay.Represents(nodes, m) && mode < 4
    ensures StartOffset(nodes, Flags(mode, creat, trunc, append), p) ==
      if append && Overlay.KeyOf(p) in m then m[Overlay.KeyOf(p)].dlen else 0
  {
    FlagsMean(mode, creat, trunc, append, 0, p);
    assert Overlay.Entry(nodes, m, Overlay.KeyOf(p));
  }

  /** Opening for rewriting leaves an empty overlay file, unless the path was a directory. */
  lemma OpenTruncates(nodes: seq<Overlay.Node>, root: StaticTree.Tree, p: Path)
    requires Overlay.NodesOk(nodes) && Overlay.Stable(p) && OpenNodes(nodes, root, REWRITE, p).1 == 0
    requires var i := Overlay.Lookup(nodes, p); i.Some? ==> !nodes[i.value].content.IsDir()
    ensures var n1 := OpenNodes(nodes, root, REWRITE, p).0;
      var i := Overlay.Lookup(n1, p);
      i.Some? && n1[i.value].content.dlen == 0 && !n1[i.value].content.IsDir()
  {
    var created := Overlay.Allocated(nodes, p, 0).0;
    RewriteOpens(nodes, root, p);
    CreatedFile(nodes, p);
    TruncEmpties(created, p);
  }

  /** A file created by such an open can be reached again exactly when its path is stable: under a path
      ending in a double slash every write and read of the new descriptor misses it. */
  lemma RewriteReachesExactly(nodes: seq<Overlay.Node>, root: StaticTree.Tree, p: Path)
    requires Overlay.Lookup(nodes, p).None? && OpenNodes(nodes, root, REWRITE, p).1 == 0
    ensures Overlay.Lookup(OpenNodes(nodes, root, REWRITE, p).0, p).Some? <==> Overlay.Stable(p)
  {
    RewriteOpens(nodes, root, p);
    TruncFinds(Overlay.Allocated(nodes, p, 0).0, p);
    Overlay.AllocThenFind(nodes, p, 0);
  }

  lemma RewriteOpens(nodes: seq<Overlay.Node>, root: StaticTree.Tree, p: Path)
    requires OpenNodes(nodes, root, REWRITE, p).1 == 0
    ensures Overlay.Allocated(nodes, p, 0).1.Some?
      && OpenNodes(nodes, root, REWRITE, p).0 == TruncIf(Overlay.Allocated(nodes, p, 0).0, REWRITE, p)
  {
  }

  lemma TruncFinds(nodes: seq<Overlay.Node>, p: Path)
    ensures Overlay.Lookup(TruncIf(nodes, REWRITE, p), p) == Overlay.Lookup(nodes, p)
  {
    if Overlay.Lookup(nodes, p).Some? { TruncEmpties(nodes, p); }
  }

  lemma CreatedFile(nodes: seq<Overlay.Node>, p: Path)
    requires Overlay.Stable(p) && Overlay.Allocated(nodes, p, 0).1.Some?
    requires var i := Overlay.Lookup(nodes, p); i.Some? ==> !nodes[i.value].content.IsDir()
    ensures var created := Overlay.Allocated(nodes, p, 0).0;
      Overlay.Lookup(created, p).Some? && !created[Overlay.Lookup(created, p).value].content.IsDir()
  {
    if Overlay.Lookup(nodes, p).None? {
      Overlay.AllocThenFind(nodes, p, 0);
      NewestFound(nodes, p);
    }
  }

  lemma TruncEmpties(nodes: seq<Overlay.Node>, p: Path)
    requires Overlay.Lookup(nodes, p).Some?
    ensures var n1, i := TruncIf(nodes, REWRITE, p), Overlay.Lookup(nodes, p);
      Overlay.Lookup(n1, p) == i && n1[i.value].content == nodes[i.value].content.(dlen := 0)
  {
    Overlay.SameScan(nodes, TruncIf(nodes, REWRITE, p), Overlay.KeyOf(p), 0);
  }

  lemma NewestFound(nodes: seq<Overlay.Node>, p: Path)
    requires Overlay.Stable(p) && Overlay.Lookup(nodes, p).None? && Overlay.Allocated(nodes, p, 0).1.Some?
    requires Overlay.Lookup(Overlay.Allocated(nodes, p, 0).0, p).Some?
    ensures var created := Overlay.Allocated(nodes, p, 0).0;
      created[Overlay.Lookup(created, p).value].content == Overlay.Fresh(0)
  {
    var created := Overlay.Allocated(nodes, p, 0).0;
    var i, j := Overlay.FreeNode(nodes, 0).value, Overlay.Lookup(created, p).value;
    forall k: nat | k < |nodes| && k != i ensures created[k] == nodes[k] { }
  }

  /** A whole write inside a file or at its end: the bytes before it, the data, and the bytes behind it. */
  lemma WriteSplices(pid: nat, vfd: nat, file: seq<Byte>, data: seq<Byte>, was: Files, now: Files,
    nodes: seq<Overlay.Node>, nodes': seq<Overlay.Node>, total: int)
    requires Overlay.NodesOk(nodes) && Overlay.NodesOk(nodes')
    requires (pid, vfd) in was && was[(pid, vfd)].Writable() && Holds(nodes, was[(pid, vfd)].path, file)
    requires WritesAt(was[(pid, vfd)], file) <= |file| && WritesAt(was[(pid, vfd)], file) + |data| <= Overlay.MAX_DATA
    requires WriteOutcome(pid, vfd, data, was, now, nodes, nodes', total)
    ensures total == |data| && (pid, vfd) in now
      && now[(pid, vfd)] == was[(pid, vfd)].(offset := now[(pid, vfd)].offset)
    ensures Holds(nodes', was[(pid, vfd)].path, Overlay.Spliced(file, WritesAt(was[(pid, vfd)], file), data))
  {
    var t := TargetOf(pid, vfd, was, nodes).value;
    assert total == |data|;
    var at := WritesAt(t.f, file);
    assert data[..total] == data;
    Overlay.WrittenExactly(t.c, at, data);
    Overlay.SpliceIs(t.c, at, data);
    if data != [] { StoredHolds(nodes, t.f.path, t.node, Overlay.Overwritten(t.c, at, data)); }
  }

  lemma StoredHolds(nodes: seq<Overlay.Node>, path: Path, i: nat, c: Overlay.Content)
    requires Overlay.NodesOk(nodes) && Overlay.Lookup(nodes, path) == Some(i) && c.Ok() && !c.IsDir()
    ensures var nodes' := Overlay.Stored(nodes, i, c);
      Overlay.NodesOk(nodes') && Holds(nodes', path, c.Bytes())
  {
    Overlay.SameScan(nodes, Overlay.Stored(nodes, i, c), Overlay.KeyOf(path), 0);
  }

  /** Where a write through f starts: at its offset, with O_APPEND at the end. */
  function WritesAt(f: FdTable.OpenFile, file: seq<Byte>): nat {
    if f.Appending() then |file| else f.offset
  }

  /** The overlay file at `path` holds exactly `data`. */
  ghost predicate Holds(nodes: seq<Overlay.Node>, path: Path, data: seq<Byte>)
    requires Overlay.NodesOk(nodes)
  {
    var i := Overlay.Lookup(nodes, path);
    i.Some? && !nodes[i.value].content.IsDir() && nodes[i.value].content.Bytes() == data
  }

  /** The descriptor stands for f, open for reading and writing on an overlay file holding `file`. */
  ghost predicate Editing(p: Process, fd: int, f: FdTable.OpenFile, file: seq<Byte>)
    reads p, p.fdTable, p.srv, p.srv.fds, p.srv.fds.tbl, p.srv.overlay.nodes, p.srv.Below()
  {
    && p.Valid() && p.srv.Valid() && fd >= 3 && p.Vfd(fd).Some? && p.At(p.Vfd(fd).value) == Some(f)
    && f.Readable() && f.Writable() && |file| <= Overlay.MAX_DATA && Holds(p.srv.Nodes(), f.path, file)
  }

  /** The write half: the file with the data in its place. */
  method WriteBack(p: Process, fd: int, ghost f: FdTable.OpenFile, ghost file: seq<Byte>, data: seq<Byte>)
    returns (wrote: int, ghost f': FdTable.OpenFile)
    requires Editing(p, fd, f, file)
    requires WritesAt(f, file) <= |file| && WritesAt(f, file) + |data| <= Overlay.MAX_DATA
    modifies p.srv.fds, p.srv.fds.tbl, p.srv.overlay.nodes
    ensures wrote == |data| && f' == f.(offset := f'.offset)
    ensures Editing(p, fd, f', Overlay.Spliced(file, WritesAt(f, file), data)) == true
  {
    ghost var was, nodes, vfd := p.srv.Files(), p.srv.Nodes(), p.Vfd(fd).value;
    wrote := p.Write(fd, data);
    WriteSplices(p.pid, vfd, file, data, was, p.srv.Files(), nodes, p.srv.Nodes(), wrote);
    f' := p.At(vfd).value;
  }

  /** Writing inside a longer file and reading it back from the start: the data in its place, everything before and
      behind it as it was. With O_APPEND the data goes to the end, wherever the seek went. */
  method WriteInside(p: Process, fd: int, ghost f: FdTable.OpenFile, ghost file: seq<Byte>, at: nat, data: seq<Byte>,
    buf: array<Byte>, n: nat)
    returns (wrote: int, got: int)
    requires Editing(p, fd, f, file) && at < U32 && n <= buf.Length
    requires var a := WritesAt(f.(offset := at), file); a <= |file| && a + |data| <= Overlay.MAX_DATA
    modifies p.srv.Below(), p.srv.fds, p.srv.fds.tbl, p.srv.overlay.nodes, buf
    ensures p.srv.Valid() && wrote == |data|
    ensures Got(buf[..], Overlay.Spliced(file, WritesAt(f.(offset := at), file), data), 0, n, got)
  {
    ghost var vfd := p.Vfd(fd).value;
    var _ := p.Lseek(fd, at, SEEK_SET);
    assert p.At(vfd) == Some(f.(offset := at));
    ghost var f';
    wrote, f' := WriteBack(p, fd, f.(offset := at), file, data);
    got := ReadBack(p, fd, f', Overlay.Spliced(file, WritesAt(f.(offset := at), file), data), buf, n);
  }

  /** The read half: seek to the start, then one read. */
  method ReadBack(p: Process, fd: int, ghost f: FdTable.OpenFile, ghost data: seq<Byte>, buf: array<Byte>, n: nat)
    returns (got: int)
    requires Editing(p, fd, f, data) && n <= buf.Length
    modifies p.srv.Below(), p.srv.fds, p.srv.fds.tbl, buf
    ensures p.srv.Valid() && Got(buf[..], data, 0, n, got)
  {
    ghost var vfd := p.Vfd(fd).value;
    var _ := p.Lseek(fd, 0, SEEK_SET);
    assert p.At(vfd) == Some(f.(offset := 0));
    ghost var pos;
    got, pos := ReadOnce(p, fd, f.(offset := 0), data, buf, n);
  }

  /** The open: a descriptor at the start of an empty file. */
  method OpenEmpty(p: Process, path: Path) returns (fd: int)
    requires p.Valid() && p.srv.Valid() && Overlay.Stable(Sent(path))
    requires var i := Overlay.Lookup(p.srv.Nodes(), Sent(path)); i.Some? ==> !p.srv.Nodes()[i.value].content.IsDir()
    modifies p.srv.fds, p.srv.fds.tbl, p.srv.overlay.nodes, p.fdTable
    ensures p.Valid() && p.srv.Valid() && (fd >= 0 <==> old(p.CanOpen(path, REWRITE)))
    ensures fd >= 0 ==> Editing(p, fd, FdTable.OpenFile(REWRITE, 0, Sent(path)), []) == true
  {
    ghost var nodes := p.srv.Nodes();
    fd := p.Open(path, REWRITE);
    if fd >= 0 {
      OpenTruncates(nodes, p.srv.root, Sent(path));
      assert p.NewFile(REWRITE, path) == FdTable.OpenFile(REWRITE, 0, Sent(path));
    }
  }

  method WriteThenRead(p: Process, fd: int, ghost f: FdTable.OpenFile, data: seq<Byte>, buf: array<Byte>, n: nat)
    returns (wrote: int, got: int)
    requires Editing(p, fd, f, []) && f.oflags == REWRITE && f.offset == 0 && |data| <= Overlay.MAX_DATA
    requires n <= buf.Length
    modifies p.srv.Below(), p.srv.fds, p.srv.fds.tbl, p.srv.overlay.nodes, buf
    ensures p.srv.Valid() && wrote == |data| && Got(buf[..], data, 0, n, got)
  {
    ghost var f';
    wrote, f' := WriteBack(p, fd, f, [], data);
    assert Overlay.Spliced([], 0, data) == data;
    got := ReadBack(p, fd, f', data, buf, n);
  }

  /** What is written to a freshly created or truncated file is what is read back from its start. */
  method RoundTrip(p: Process, path: Path, data: seq<Byte>, buf: array<Byte>, n: nat)
    returns (fd: int, wrote: int, got: int)
    requires p.Valid() && p.srv.Valid() && |data| <= Overlay.MAX_DATA && n <= buf.Length
    requires Overlay.Stable(Sent(path))
    requires var i := Overlay.Lookup(p.srv.Nodes(), Sent(path)); i.Some? ==> !p.srv.Nodes()[i.value].content.IsDir()
    modifies p.srv.Below(), p.srv.fds, p.srv.fds.tbl, p.srv.overlay.nodes, p.fdTable, buf
    ensures p.Valid() && p.srv.Valid() && (fd >= 0 <==> old(p.CanOpen(path, REWRITE)))
    ensures fd >= 0 ==> wrote == |data| && Got(buf[..], data, 0, n, got)
  {
    wrote, got := -1, -1;
    fd := OpenEmpty(p, path);
    assert p.fdTable !in p.srv.Below();
    if fd >= 0 { wrote, got := WriteThenRead(p, fd, FdTable.OpenFile(REWRITE, 0, Sent(path)), data, buf, n); }
  }

  /** The descriptor is open for reading on an overlay file holding `data`, at f's offset. */
  ghost predicate Standing(p: Process, fd: int, f: FdTable.OpenFile, data: seq<Byte>)
    reads p, p.fdTable, p.srv, p.srv.fds, p.srv.fds.tbl, p.srv.overlay.nodes, p.srv.Below()
  {
    && p.Valid() && p.srv.Valid() && fd >= 3 && p.Vfd(fd).Some? && p.At(p.Vfd(fd).value) == Some(f)
    && f.Readable() && f.offset <= |data| <= Overlay.MAX_DATA && Holds(p.srv.Nodes(), f.path, data)
  }

  /** A buffer starts with as many of the bytes from `at` on as are wanted and there are. */
  ghost predicate Got(buf: seq<Byte>, data: seq<Byte>, at: nat, want: nat, got: int) {
    at <= |data| && got == Min(want, |data| - at) && got <= |buf| && buf[..got] == data[at..at + got]
  }

  /** One read of such a file: the bytes at its offset, which moves on by whole chunks. */
  method ReadOnce(p: Process, fd: int, ghost f: FdTable.OpenFile, ghost data: seq<Byte>, buf: array<Byte>, n: nat)
    returns (got: int, ghost pos: nat)
    requires Standing(p, fd, f, data) && n <= buf.Length
    modifies p.srv.Below(), p.srv.fds, p.srv.fds.tbl, buf
    ensures Got(buf[..], data, f.offset, n, got) && pos == ReadPos(false, |data|, f.offset, n)
    ensures Standing(p, fd, f.(offset := pos), data) == true
  {
    Served(p.srv, p.srv.Nodes(), f.path, data);
    PosWithin(|data|, f.offset, n);
    ghost var was := buf[..];
    assert p.fdTable !in p.srv.Below();
    got, pos := p.Read(fd, buf, n, f, data);
    GotThem(f, data, n, got, pos, was, buf[..]);
  }

  lemma GotThem(f: FdTable.OpenFile, data: seq<Byte>, n: nat, got: int, pos: nat, was: seq<Byte>, buf: seq<Byte>)
    requires ReadGave(f, data, n, false, got, pos, was, buf) && f.offset <= |data| && n <= |was| == |buf|
    ensures Got(buf, data, f.offset, n, got)
  {
    assert f.offset == |data| ==> got == 0 && buf[..got] == data[f.offset..f.offset + got];
  }

  /** A second read starts where the whole chunks of the first ended, which is not always where its
      bytes ended: ContiguousExactly says when it is. */
  method ReadTwice(p: Process, fd: int, ghost f: FdTable.OpenFile, ghost data: seq<Byte>, first: array<Byte>, a: nat,
    second: array<Byte>, b: nat)
    returns (got1: int, got2: int)
    requires Standing(p, fd, f, data) == true && a <= first.Length && b <= second.Length && first != second
    modifies p.srv.Below(), p.srv.fds, p.srv.fds.tbl, first, second
    ensures Got(first[..], data, f.offset, a, got1) == true
    ensures Got(second[..], data, ReadPos(false, |data|, f.offset, a), b, got2) == true
  {
    ghost var pos, at;
    got1, at := ReadOnce(p, fd, f, data, first, a);
    ghost var filled := first[..];
    assert first !in p.srv.Below();
    got2, pos := ReadOnce(p, fd, f.(offset := at), data, second, b);
    assert first[..] == filled;
  }

  lemma Served(srv: Server, nodes: seq<Overlay.Node>, path: Path, data: seq<Byte>)
    requires Overlay.NodesOk(nodes) && Holds(nodes, path, data)
    ensures srv.Readable(nodes, path) && srv.FileBytes(nodes, path) == Some(data)
    ensures srv.ServesPieces(nodes, path, data) && !srv.FromFat(nodes, path)
  {
    srv.PiecesServed(nodes, path);
  }

  lemma {:induction false} PosWithin(len: nat, pos: nat, want: nat)
    requires pos <= len
    ensures ReadPos(false, len, pos, want) <= len
    decreases want
  {
    if want > 0 && pos < len {
      var n := Min(CHUNK_SIZE, len - pos);
      if n < want { PosWithin(len, pos + n, want - n); }
    }
  }
}
