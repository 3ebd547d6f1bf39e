/** The C library's file calls: chunk loops over packed messages to the file server. */
module Libc {
  import opened Bytes
  import opened Packing
  import FdTable
  import Overlay
  import Fat32
  import Fat32Volume
  import opened Vfs

  const SECTOR: nat := Fat32Volume.SECTOR

  const OPEN_MAX: nat := 32
  const PATH_BYTES: nat := 48
  const PATH_WORDS: nat := 6
  const SEEK_SET: int := 0

  const OP_OPEN: nat := 0x30
  const OP_READ_FD: nat := 0x32
  const OP_WRITE_FD: nat := 0x33
  const OP_SEEK: nat := 0x34

  /** pack_path: at most 47 bytes and a terminator. */
  function PackPath(path: Path): (w: seq<nat>)
    ensures |w| == PATH_WORDS
  {
    CastWords(ZeroPad(path[..Min(|path|, PATH_BYTES - 1)], PATH_BYTES))
  }

  /** The part of a path that reaches the server. */
  function Sent(path: Path): Path { UpToNul(path[..Min(|path|, PATH_BYTES - 1)]) }

  lemma PathTravels(path: Path)
    ensures PathIn(PackPath(path)) == Sent(path)
  {
    var sent := path[..Min(|path|, PATH_BYTES - 1)];
    var buf := PathBytes(PackPath(path));
    forall i | 0 <= i < PATH_BYTES ensures buf[i] == ZeroPad(sent, PATH_BYTES)[i] {
      CastByte(ZeroPad(sent, PATH_BYTES), i);
    }
    assert buf == ZeroPad(sent, PATH_BYTES);
    TrimPadded(sent, PATH_BYTES - |sent|);
  }

  lemma {:induction false} TrimPadded(s: seq<Byte>, n: nat)
    requires n > 0
    ensures UpToNul(s + seq(n, _ => 0)) == UpToNul(s)
  {
    var t: seq<Byte> := s + seq(n, _ => 0);
    if s != [] {
      assert t[1..] == s[1..] + seq(n, _ => 0);
      TrimPadded(s[1..], n);
    }
  }

  /** Two writes in a row are one write of both. */
  lemma WrittenTwice(c: Overlay.Content, at: nat, a: seq<Byte>, b: seq<Byte>)
    requires c.Ok() && at + |a| <= Overlay.MAX_DATA
    ensures Overlay.Written(Overlay.Written(c, at, a).value, at + |a|, b) == Overlay.Written(c, at, a + b)
  {
    var c1 := Overlay.Written(c, at, a).value;
    if at + |a| + |b| <= Overlay.MAX_DATA {
      assert c1.data[..at + |a|] == c.data[..at] + a;
      assert c1.data[at + |a| + |b|..] == c.data[at + |a| + |b|..];
      assert c.data[..at] + a + b == c.data[..at] + (a + b);
    }
  }

  /** What one VfsReadChunk does with the reply r: n bytes land in `dst` from `at`. */
  ghost predicate Copied(r: Reply, n: int, at: nat, room: nat, was: seq<Byte>, now: seq<Byte>) {
    match r
    case Data(_, chunk) => n == Min(|chunk|, room) && at + n <= |was| && now == was[..at] + chunk[..n] + was[at + n..]
    case Done => n == 0 && now == was
    case _ => n == -1 && now == was
  }

  class Process {
    const srv: Server
    const pid: nat
    const fdTable: array<Option<nat>>

    constructor (srv: Server, pid: nat)
      ensures Valid() && this.srv == srv && this.pid == pid && fresh(fdTable) && forall i ::
        0 <= i < OPEN_MAX ==> fdTable[i].None?
    {
      this.srv, this.pid := srv, pid;
      fdTable := new Option<nat>[OPEN_MAX](_ => None);
    }

    ghost predicate Valid()
      reads fdTable
    {
      fdTable.Length == OPEN_MAX && forall i :: 0 <= i < OPEN_MAX && fdTable[i].Some? ==> fdTable[i].value < 256
    }

    /** The open file behind a server descriptor of this process. */
    ghost function At(vfd: nat): Option<FdTable.OpenFile>
      reads srv.fds
    {
      if (pid, vfd) in srv.Files() then Some(srv.Files()[(pid, vfd)]) else None
    }

    /** What the server answers to a read of the open file f, when it had counted `fails` failed reads: only
        failures on the way to a file of FAT32 make a difference. */
    ghost predicate Answered(f: FdTable.OpenFile, r: Reply, fails: nat)
      reads srv.overlay.nodes, srv.fat
      requires Overlay.NodesOk(srv.Nodes()) && (f.Readable() ==> srv.Readable(srv.Nodes(), f.path))
    {
      if !f.Readable() then r == Err(EACCES)
      else
        && (srv.Failures() == fails || !srv.FromFat(srv.Nodes(), f.path) ==>
          r == srv.ReadReply(srv.Nodes(), f.path, f.offset))
        && (srv.FileBytes(srv.Nodes(), f.path).None? ==> r.Err?)
    }

    /** vfs_read_chunk; r is what the server answered. */
    method VfsReadChunk(vfd: nat, dst: array<Byte>, at: nat, room: nat) returns (n: int, ghost r: Reply)
      requires srv.Valid() && vfd < 256 && at + room <= dst.Length && srv.CanRead(pid, vfd)
      modifies srv.Below(), srv.fds, srv.fds.tbl, dst
      ensures srv.Valid() && srv.Failures() >= old(srv.Failures()) && srv.Nodes() == old(srv.Nodes())
      ensures Copied(r, n, at, room, old(dst[..]), dst[..])
      ensures old(At(vfd)).None? ==> r == Err(EBADF) && srv.Files() == old(srv.Files())
      ensures old(At(vfd)).Some? ==> srv.Files() == old(srv.Files())[(pid, vfd) := Past(old(At(vfd)).value, r.Moved())]
      ensures old(At(vfd)).Some? ==> Answered(old(At(vfd)).value, r, old(srv.Failures()))
    {
      ghost var f := At(vfd);
      var resp;
      resp, r := Ask(vfd);
      ghost var files, nodes := srv.Files(), srv.Nodes();
      n := Receive(resp, dst, at, room, r);
      assert srv.Files() == files && srv.Nodes() == nodes;
    }

    /** Its request. */
    method Ask(vfd: nat) returns (resp: Msg, ghost r: Reply)
      requires srv.Valid() && vfd < 256 && srv.CanRead(pid, vfd)
      modifies srv.Below(), srv.fds, srv.fds.tbl
      ensures srv.Valid() && srv.Failures() >= old(srv.Failures()) && srv.Nodes() == old(srv.Nodes()) && Says(resp, r)
      ensures old(At(vfd)).None? ==> r == Err(EBADF) && srv.Files() == old(srv.Files())
      ensures old(At(vfd)).Some? ==> srv.Files() == old(srv.Files())[(pid, vfd) := Past(old(At(vfd)).value, r.Moved())]
      ensures old(At(vfd)).Some? ==> Answered(old(At(vfd)).value, r, old(srv.Failures()))
    {
      ghost var f := At(vfd);
      var req := [OP_READ_FD, vfd, 0, 0, 0, 0, 0, 0];
      var fd := req[1] % 256;
      assert fd == vfd;
      ghost var how;
      resp, r, how := srv.HandleReadFd(pid, fd);
      if f.Some? && f.value.Readable() { AnswerIs(f.value, r, how); }
    }

    lemma AnswerIs(f: FdTable.OpenFile, r: Reply, how: Fat32.Outcome)
      requires srv.Valid() && f.Readable() && srv.Readable(srv.Nodes(), f.path)
      requires r == srv.AnswerTo(srv.Nodes(), f.path, f.offset, how)
      ensures how == Fat32.Right || !srv.FromFat(srv.Nodes(), f.path) ==>
        r == srv.ReadReply(srv.Nodes(), f.path, f.offset)
      ensures srv.FileBytes(srv.Nodes(), f.path).None? ==> r.Err?
    {
      srv.AnswersWithin(srv.Nodes(), f.path, f.offset, how);
      if srv.FileBytes(srv.Nodes(), f.path).None? { srv.NoFileRefused(srv.Nodes(), f.path, f.offset, how); }
    }

    /** The client's half of a read reply. */
    method Receive(resp: Msg, dst: array<Byte>, at: nat, room: nat, ghost r: Reply) returns (n: int)
      requires at + room <= dst.Length && Says(resp, r)
      modifies dst
      ensures Copied(r, n, at, room, old(dst[..]), dst[..])
    {
      n := -1;
      if resp[0] == RESP_DATA {
        n := UnpackData(resp[3..8], dst, at, room, resp[2]);
        assert resp[3..8] == resp[3..];
        CastOfCarried(resp[3..], r.chunk, n);
      } else if resp[0] == RESP_DONE {
        n := 0;
      }
    }

    /** vfs_write_chunk. */
    method VfsWriteChunk(vfd: nat, data: seq<Byte>) returns (n: int, ghost m: Msg)
      requires srv.Valid() && vfd < 256
      modifies srv.fds, srv.fds.tbl, srv.overlay.nodes
      ensures srv.Valid()
      ensures WriteFdPost(pid, vfd, data[..Min(|data|, CHUNK_SIZE)], old(srv.Files()), srv.Files(), old(srv.Nodes()),
        srv.Nodes(), m)
      ensures n == if Says(m, Okay) then Min(|data|, CHUNK_SIZE) else -1
    {
      var k := Min(|data|, CHUNK_SIZE);
      var words := PackData(data[..k]);
      PackDataCarries(data[..k]);
      var req := [OP_WRITE_FD, vfd, k] + words;
      assert req[3..8] == words;
      var resp := srv.ServeWriteFd(pid, req, data[..k]);
      m := resp;
      n := if |resp| == 8 && resp[0] == RESP_OK then k else -1;
    }

    /** vfs_seek. */
    method VfsSeek(vfd: nat, offset: nat) returns (ok: bool)
      requires srv.Valid() && vfd < 256 && offset < U32
      modifies srv.fds, srv.fds.tbl
      ensures srv.Valid() && (ok <==> old(At(vfd)).Some?)
      ensures srv.Files() == if ok then old(srv.Files())[(pid, vfd) := old(At(vfd)).value.(offset := offset)]
        else old(srv.Files())
    {
      var req := [OP_SEEK, vfd, offset, 0, 0, 0, 0, 0];
      var resp := srv.HandleSeek(pid, req[1] % 256, req[2] % U32);
      ok := resp[0] == RESP_OK;
    }

    /** vfs_open: the server's descriptor number. */
    method VfsOpen(path: Path, oflags: nat) returns (vfd: Option<nat>)
      requires srv.Valid() && oflags < 256
      modifies srv.fds, srv.fds.tbl, srv.overlay.nodes
      ensures srv.Valid() && srv.Nodes() == OpenNodes(old(srv.Nodes()), srv.root, oflags, Sent(path)).0
      ensures vfd.Some? <==>
        OpenNodes(old(srv.Nodes()), srv.root, oflags, Sent(path)).1 == 0
          && FdTable.CanGrant(pid, old(srv.Files()), Sent(path))
      ensures vfd.None? ==> srv.Files() == old(srv.Files())
      ensures vfd.Some? ==>
        && vfd.value < 256 && OpenNodes(old(srv.Nodes()), srv.root, oflags, Sent(path)).1 == 0
        && FdTable.IsLowest(pid, old(srv.Files()), vfd.value)
        && srv.Files() == old(srv.Files())[(pid, vfd.value) := NewFile(oflags, path)]
    {
      var req := [OP_OPEN, oflags] + PackPath(path);
      assert |req| == 8 && req[1] % 256 == oflags && PathIn(req[2..8]) == Sent(path) by {
        assert req[2..8] == PackPath(path);
        PathTravels(path);
      }
      ghost var was, e := srv.Files(), OpenNodes(srv.Nodes(), srv.root, oflags, Sent(path)).1;
      var m := srv.ServeOpen(pid, req);
      vfd := if |m| == 8 && m[0] == RESP_FD then Some(m[1]) else None;
      OpenMeans(pid, was, srv.Files(), Sent(path), NewFile(oflags, path), e, m, vfd);
    }

    /** What a descriptor just opened stands for. */
    ghost function NewFile(oflags: nat, path: Path): FdTable.OpenFile
      reads srv.overlay.nodes
    {
      FdTable.OpenFile(oflags, StartOffset(srv.Nodes(), oflags, Sent(path)), Sent(path))
    }

    /** The descriptor is not open for reading on a file. */
    ghost predicate Refuses(vfd: nat)
      requires srv.Valid() && srv.CanRead(pid, vfd)
      reads srv.fds, srv.fds.tbl, srv.overlay.nodes, srv.Below()
    {
      var f := At(vfd);
      f.None? || !f.value.Readable() || srv.FileBytes(srv.Nodes(), f.value.path).None?
    }

    /** f is open for reading on the file `all`. */
    ghost predicate Good(nodes: seq<Overlay.Node>, f: FdTable.OpenFile, all: seq<Byte>)
      requires Overlay.NodesOk(nodes)
    {
      && f.Readable() && srv.Readable(nodes, f.path) && srv.FileBytes(nodes, f.path) == Some(all) && |all| < U32
      && srv.ServesPieces(nodes, f.path, all)
    }

    /** Whether the layer that serves f cuts its answers at the ends of sectors. */
    ghost predicate Sectored(nodes: seq<Overlay.Node>, f: FdTable.OpenFile)
      requires srv.Readable(nodes, f.path)
    {
      srv.FromFat(nodes, f.path)
    }

    /** The loop of `read`.  On a descriptor that stands for the file `all`, through whichever layer: as many
        bytes as are wanted and there are; the descriptor ends up behind the last whole answer.  Any other is
        refused. */
    method ReadLoop(vfd: nat, dst: array<Byte>, count: nat, ghost f: FdTable.OpenFile, ghost all: seq<Byte>)
      returns (total: int, ghost pos: nat)
      requires srv.Valid() && vfd < 256 && count <= dst.Length && srv.CanRead(pid, vfd)
      requires !Refuses(vfd) ==> At(vfd) == Some(f) && Good(srv.Nodes(), f, all) == true
      modifies srv.Below(), srv.fds, srv.fds.tbl, dst
      ensures srv.Valid() && srv.Failures() >= old(srv.Failures()) && srv.Nodes() == old(srv.Nodes())
      ensures old(Refuses(vfd)) ==>
        total == (if count == 0 then 0 else -1) && srv.Files() == old(srv.Files()) && dst[..] == old(dst[..])
      ensures !old(Refuses(vfd)) ==> pos < U32 && srv.Files() == old(srv.Files())[(pid, vfd) := f.(offset := pos)]
      ensures !old(Refuses(vfd)) && (srv.Failures() == old(srv.Failures()) || !Sectored(srv.Nodes(), f)) ==>
        ReadGave(f, all, count, Sectored(srv.Nodes(), f), total, pos, old(dst[..]), dst[..]) == true
    {
      total, pos := 0, f.offset;
      ghost var files, nodes, was, fails := srv.Files(), srv.Nodes(), dst[..], srv.Failures();
      ghost var refused, sectored := Refuses(vfd), !Refuses(vfd) && Sectored(srv.Nodes(), f);
      if !refused {
        srv.fds.OffsetFits((pid, vfd));
        BeginRead(f, all, count, was, sectored);
        Unmoved(files, (pid, vfd), f);
      }
      while total < count
        invariant srv.Valid() && srv.Nodes() == nodes && 0 <= total <= count && srv.Failures() >= fails
        invariant refused ==> total == 0 && srv.Files() == files && dst[..] == was
        invariant !refused ==> pos < U32 && srv.Files() == files[(pid, vfd) := f.(offset := pos)]
        invariant !refused && (srv.Failures() == fails || !sectored) ==>
          InRead(f, pos, all, count, total, was, dst[..], sectored) == true
      {
        var n, next, pos' := ReadTurn(vfd, dst, count, total, files, f, all, was, pos, refused, sectored, fails);
        pos := pos';
        if n == -1 { return if total == 0 then -1 else total, pos; }
        total := next;
        if n == 0 { break; }
      }
      if !refused && (srv.Failures() == fails
        || !sectored) { EndRead(f, pos, all, count, total, was, dst[..], sectored); }
    }

    /** One turn of that loop. */
    method ReadTurn(vfd: nat, dst: array<Byte>, count: nat, total: nat, ghost files: Files, ghost f: FdTable.OpenFile,
                    ghost all: seq<Byte>, ghost was: seq<Byte>, ghost pos: nat, ghost refused: bool,
                      ghost sectored: bool,
                    ghost fails: nat)
      returns (n: int, next: nat, ghost pos': nat)
      requires srv.Valid() && vfd < 256 && total < count <= dst.Length && srv.Failures() >= fails
      requires refused ==> srv.CanRead(pid, vfd) && Refuses(vfd)
      requires !refused ==> Stands(srv.Files(), srv.Nodes(), vfd, files, f, pos, all, sectored)
      requires !refused && (srv.Failures() == fails || !sectored) ==>
        InRead(f, pos, all, count, total, was, dst[..], sectored)
      modifies srv.Below(), srv.fds, srv.fds.tbl, dst
      ensures srv.Valid() && srv.Nodes() == old(srv.Nodes()) && srv.Failures() >= old(srv.Failures())
      ensures -1 <= n && next <= count && next == (if n < 0 then total else total + n)
      ensures refused ==> n == -1 && srv.Files() == old(srv.Files()) && dst[..] == old(dst[..])
      ensures !refused ==> pos' < U32 && srv.Files() == files[(pid, vfd) := f.(offset := pos')]
      ensures !refused && (srv.Failures() == fails || !sectored) ==>
        && n >= 0 && (n == 0 <==> f.offset + total >= |all|)
        && InRead(f, pos', all, count, next, was, dst[..], sectored) == true
    {
      ghost var mid, r := dst[..], Done;
      n, r, pos' := ChunkFrom(vfd, dst, total, Min(count - total, CHUNK_SIZE), files, f, pos, all, refused, sectored);
      if !refused && (srv.Failures() == fails || !sectored) {
        TurnStep(f, pos, all, count, total, was, mid, dst[..], r, n, sectored);
      }
      next := if n < 0 then total else total + n;
    }

    /** The descriptor stands at `pos`; otherwise the open files are as they were. */
    ghost predicate Stands(now: Files, nodes: seq<Overlay.Node>, vfd: nat, files: Files, f: FdTable.OpenFile, pos: nat,
      all: seq<Byte>,
                           sectored: bool)
      requires Overlay.NodesOk(nodes)
    {
      && pos < U32 && now == files[(pid, vfd) := f.(offset := pos)]
      && Good(nodes, f, all) && sectored == Sectored(nodes, f)
    }

    /** Its request, on a descriptor that stands at `pos` or is refused. */
    method ChunkFrom(vfd: nat, dst: array<Byte>, at: nat, room: nat, ghost files: Files, ghost f: FdTable.OpenFile,
                     ghost pos: nat, ghost all: seq<Byte>, ghost refused: bool, ghost sectored: bool)
      returns (n: int, ghost r: Reply, ghost pos': nat)
      requires srv.Valid() && vfd < 256 && at + room <= dst.Length
      requires refused ==> srv.CanRead(pid, vfd) && Refuses(vfd)
      requires !refused ==> Stands(srv.Files(), srv.Nodes(), vfd, files, f, pos, all, sectored)
      modifies srv.Below(), srv.fds, srv.fds.tbl, dst
      ensures srv.Valid() && srv.Nodes() == old(srv.Nodes()) && srv.Failures() >= old(srv.Failures())
      ensures Copied(r, n, at, room, old(dst[..]), dst[..]) == true
      ensures refused ==> n == -1 && srv.Files() == old(srv.Files()) && dst[..] == old(dst[..])
      ensures !refused ==>
        pos' == Min(pos + r.Moved(), U32 - 1) && srv.Files() == files[(pid, vfd) := f.(offset := pos')]
      ensures !refused && (srv.Failures() == old(srv.Failures()) || !sectored) ==> r == PieceReply(sectored, all, pos)
    {
      ghost var before, here, k := srv.Files(), f.(offset := pos), (pid, vfd);
      if k in before { srv.fds.OffsetFits(k); }
      assert !refused ==> k in before && before[k] == here;
      n, r := VfsReadChunk(vfd, dst, at, room);
      pos' := Min(pos + r.Moved(), U32 - 1);
      if !refused {
        assert Past(here, r.Moved()) == f.(offset := pos');
        MovedTwice(files, before, srv.Files(), k, here, f.(offset := pos'));
      } else if k in before {
        StayedPut(before, k);
      }
    }

    /** The loop of `write`. */
    method WriteLoop(vfd: nat, src: seq<Byte>) returns (total: int)
      requires srv.Valid() && vfd < 256
      modifies srv.fds, srv.fds.tbl, srv.overlay.nodes
      ensures srv.Valid() && WriteOutcome(pid, vfd, src, old(srv.Files()), srv.Files(), old(srv.Nodes()), srv.Nodes(),
        total) == true
      ensures total == -1 || (0 <= total && Aligned(src, total) == true)
    {
      total := 0;
      ghost var was, nodes := srv.Files(), srv.Nodes();
      assert Progress(pid, vfd, src, was, was, nodes, nodes, 0);
      while total < |src|
        invariant srv.Valid() && 0 <= total <= |src| && Aligned(src, total) == true
        invariant Progress(pid, vfd, src, was, srv.Files(), nodes, srv.Nodes(), total) == true // taken over whole
      {
        var ok, next := WriteNext(vfd, src, total, was, nodes);
        if !ok { return if total == 0 then -1 else total; }
        total := next;
      }
      assert WriteOutcome(pid, vfd, src, was, srv.Files(), nodes, srv.Nodes(), total);
    }

    /** One turn of that loop. */
    method WriteNext(vfd: nat, src: seq<Byte>, total: nat, ghost was: Files, ghost nodes: seq<Overlay.Node>)
      returns (ok: bool, next: nat)
      requires srv.Valid() && vfd < 256 && total < |src| && Overlay.NodesOk(nodes) && Aligned(src, total)
      requires Progress(pid, vfd, src, was, srv.Files(), nodes, srv.Nodes(), total)
      modifies srv.fds, srv.fds.tbl, srv.overlay.nodes
      ensures srv.Valid() && total < next <= |src| && Aligned(src, next)
      ensures ok ==> Progress(pid, vfd, src, was, srv.Files(), nodes, srv.Nodes(), next) == true
      ensures !ok ==>
        WriteOutcome(pid, vfd, src, was, srv.Files(), nodes, srv.Nodes(), if total == 0 then -1 else total) == true
    {
      var chunk := Min(|src| - total, CHUNK_SIZE);
      NextAligned(src, total);
      ghost var f1, n1 := srv.Files(), srv.Nodes();
      var piece := src[total..total + chunk];
      assert Min(|piece|, CHUNK_SIZE) == chunk && piece[..chunk] == piece;
      var n, m := VfsWriteChunk(vfd, piece);
      ghost var f2, n2 := srv.Files(), srv.Nodes();
      WriteTurn(pid, vfd, src, was, f1, f2, nodes, n1, n2, total, chunk, m, n);
      ok, next := n >= 0, if n >= 0 then total + n else total + chunk;
    }

    // -------------------------------------------------------------- POSIX calls

    /** to_vfd. */
    method ToVfd(fd: int) returns (vfd: Option<nat>)
      requires Valid()
      ensures vfd == Vfd(fd) && (vfd.Some? ==> vfd.value < 256)
    {
      if fd < 3 || fd >= OPEN_MAX { return None; }
      vfd := fdTable[fd];
    }

    ghost function Vfd(fd: int): Option<nat>
      requires Valid()
      reads fdTable
    {
      if 3 <= fd < OPEN_MAX then fdTable[fd] else None
    }

    /** alloc_fd: the lowest free descriptor from 3 on. */
    method AllocSlot(vfd: nat) returns (fd: int)
      requires Valid() && vfd < 256
      modifies fdTable
      ensures Valid() && (fd == -1 || (3 <= fd < OPEN_MAX && old(fdTable[fd]).None?))
      ensures fdTable[..] == if fd == -1 then old(fdTable[..]) else old(fdTable[..])[fd := Some(vfd)]
      ensures forall i :: 3 <= i < (if fd == -1 then OPEN_MAX else fd) ==> old(fdTable[i]).Some?
    {
      for i := 3 to OPEN_MAX
        invariant fdTable[..] == old(fdTable[..]) && forall k :: 3 <= k < i ==> fdTable[k].Some?
      {
        if fdTable[i].None? {
          fdTable[i] := Some(vfd);
          return i;
        }
      }
      fd := -1;
    }

    /** An open can succeed: the layers allow it, the server has a descriptor left and so has this process. */
    ghost predicate CanOpen(path: Path, oflags: nat)
      requires Valid()
      reads fdTable, srv.fds, srv.overlay.nodes
    {
      && OpenNodes(srv.Nodes(), srv.root, oflags, Sent(path)).1 == 0 && FdTable.CanGrant(pid, srv.Files(), Sent(path))
      && exists i :: 3 <= i < OPEN_MAX && fdTable[i].None?
    }

    /** open.  A descriptor that finds no local slot is closed again on the server. */
    method Open(path: Path, flags: nat) returns (fd: int)
      requires Valid() && srv.Valid()
      modifies srv.fds, srv.fds.tbl, srv.overlay.nodes, fdTable
      ensures Valid() && srv.Valid() && srv.Nodes() == OpenNodes(old(srv.Nodes()), srv.root, flags % 32, Sent(path)).0
      ensures fd >= 0 <==> old(CanOpen(path, flags % 32))
      ensures fd < 0 ==> fd == -1 && srv.Files() == old(srv.Files()) && fdTable[..] == old(fdTable[..])
      ensures fd >= 0 ==>
        && OpenNodes(old(srv.Nodes()), srv.root, flags % 32, Sent(path)).1 == 0
        && Vfd(fd).Some? && fdTable[..] == old(fdTable[..])[fd := Vfd(fd)]
        && old(fdTable[fd]).None? && (forall i :: 3 <= i < fd ==> old(fdTable[i]).Some?)
        && FdTable.IsLowest(pid, old(srv.Files()), Vfd(fd).value)
        && srv.Files() == old(srv.Files())[(pid, Vfd(fd).value) := NewFile(flags % 32, path)]
    {
      ghost var table := fdTable[..];
      var vfd := VfsOpen(path, flags % 32);
      assert fdTable[..] == table;
      if vfd.None? { return -1; }
      ghost var files, nodes := srv.Files(), srv.Nodes();
      fd := AllocSlot(vfd.value);
      assert srv.Files() == files && srv.Nodes() == nodes;
      if fd < 0 { Undo(vfd.value, old(srv.Files())); }
    }

    /** vfs_close of a descriptor just opened. */
    method Undo(vfd: nat, ghost was: Files)
      requires srv.Valid() && (pid, vfd) !in was && At(vfd).Some? && srv.Files() == was[(pid, vfd) := At(vfd).value]
      modifies srv.fds, srv.fds.tbl
      ensures srv.Valid() && srv.Files() == was
    {
      var _ := srv.HandleClose(pid, vfd);
    }

    /** read, on a VFS descriptor; pos is where the descriptor ends up. */
    method Read(fd: int, buf: array<Byte>, count: nat, ghost f: FdTable.OpenFile, ghost all: seq<Byte>)
      returns (n: int, ghost pos: nat)
      requires Valid() && srv.Valid() && count <= buf.Length && fd != 0
      requires Vfd(fd).Some? ==>
        && srv.CanRead(pid, Vfd(fd).value)
        && (!Refuses(Vfd(fd).value) ==> At(Vfd(fd).value) == Some(f) && Good(srv.Nodes(), f, all) == true)
      modifies srv.Below(), srv.fds, srv.fds.tbl, buf
      ensures srv.Valid() && srv.Nodes() == old(srv.Nodes()) && srv.Failures() >= old(srv.Failures())
      ensures old(Vfd(fd)).None? ==>
        n == (if count == 0 then 0 else -1) && srv.Files() == old(srv.Files()) && buf[..] == old(buf[..])
      ensures old(Vfd(fd)).Some? ==>
        ReadPost(old(Vfd(fd)).value, old(Refuses(Vfd(fd).value)), f, all, count, n, pos, old(srv.Files()),
          old(srv.Failures()),
          old(buf[..]), buf[..]) == true
    {
      pos := f.offset;
      if count == 0 {
        if Vfd(fd).Some? { NothingRead(Vfd(fd).value, f, all, buf[..]); }
        return 0, pos;
      }
      var vfd := ToVfd(fd);
      if vfd.None? { return -1, pos; }
      n, pos := ReadFrom(vfd.value, buf, count, f, all);
    }

    lemma NothingRead(vfd: nat, f: FdTable.OpenFile, all: seq<Byte>, buf: seq<Byte>)
      requires srv.Valid() && srv.CanRead(pid, vfd) && (!Refuses(vfd) ==> At(vfd) == Some(f))
      ensures ReadPost(vfd, Refuses(vfd), f, all, 0, 0, f.offset, srv.Files(), srv.Failures(), buf, buf)
    {
      if !Refuses(vfd) {
        srv.fds.OffsetFits((pid, vfd));
        ZeroRead(f, all, buf, Sectored(srv.Nodes(), f));
        Unmoved(srv.Files(), (pid, vfd), f);
      }
    }

    /** What a read leaves behind: nothing on a descriptor that refuses it; otherwise the descriptor has moved, and
        the bytes are right unless a file of FAT32 could not be read. */
    ghost predicate ReadPost(vfd: nat, refused: bool, f: FdTable.OpenFile, all: seq<Byte>, count: nat, n: int, pos: nat,
                             was: Files, fails: nat, before: seq<Byte>, buf: seq<Byte>)
      reads srv.fds, srv.overlay.nodes, srv.fat
    {
      if refused then n == (if count == 0 then 0 else -1) && srv.Files() == was && buf == before
      else
        && pos < U32 && srv.Files() == was[(pid, vfd) := f.(offset := pos)] && srv.Readable(srv.Nodes(), f.path)
        && (srv.Failures() == fails || !Sectored(srv.Nodes(), f) ==>
              ReadGave(f, all, count, Sectored(srv.Nodes(), f), n, pos, before, buf))
    }

    /** Its part behind the POSIX descriptor. */
    method ReadFrom(vfd: nat, buf: array<Byte>, count: nat, ghost f: FdTable.OpenFile, ghost all: seq<Byte>)
      returns (n: int, ghost pos: nat)
      requires srv.Valid() && vfd < 256 && 0 < count <= buf.Length && srv.CanRead(pid, vfd)
      requires !Refuses(vfd) ==> At(vfd) == Some(f) && Good(srv.Nodes(), f, all) == true
      modifies srv.Below(), srv.fds, srv.fds.tbl, buf
      ensures srv.Valid() && srv.Nodes() == old(srv.Nodes()) && srv.Failures() >= old(srv.Failures())
      ensures ReadPost(vfd, old(Refuses(vfd)), f, all, count, n, pos, old(srv.Files()), old(srv.Failures()),
        old(buf[..]),
        buf[..]) == true
    {
      n, pos := ReadLoop(vfd, buf, count, f, all);
    }

    /** write, on a VFS descriptor. */
    method Write(fd: int, src: seq<Byte>) returns (n: int)
      requires Valid() && srv.Valid() && fd != 1 && fd != 2
      modifies srv.fds, srv.fds.tbl, srv.overlay.nodes
      ensures srv.Valid()
      ensures Vfd(fd).None? ==> n == -1 && srv.Files() == old(srv.Files()) && srv.Nodes() == old(srv.Nodes())
      ensures Vfd(fd).Some? ==>
        WriteOutcome(pid, Vfd(fd).value, src, old(srv.Files()), srv.Files(), old(srv.Nodes()), srv.Nodes(), n) == true
    {
      var vfd := ToVfd(fd);
      if vfd.None? { return -1; }
      n := WriteLoop(vfd.value, src);
    }

    /** lseek: absolute offsets only. */
    method Lseek(fd: int, offset: int, whence: int) returns (r: int)
      requires Valid() && srv.Valid()
      modifies srv.fds, srv.fds.tbl
      ensures srv.Valid() && (r == offset || r == -1)
      ensures whence == SEEK_SET && 0 <= offset < U32 && Vfd(fd).Some? && old(At(Vfd(fd).value)).Some? <==> r >= 0
      ensures srv.Files() == if r < 0 then old(srv.Files())
        else old(srv.Files())[(pid, Vfd(fd).value) := old(At(Vfd(fd).value)).value.(offset := offset)]
    {
      if whence != SEEK_SET || offset < 0 || offset >= U32 { return -1; }
      var vfd := ToVfd(fd);
      if vfd.None? { return -1; }
      var ok := VfsSeek(vfd.value, offset);
      r := if ok then offset else -1;
    }
  }

  /** The client's reading of an open reply. */
  lemma OpenMeans(pid: nat, was: Files, now: Files, path: Path, f: FdTable.OpenFile, errno: nat, m: Msg,
    vfd: Option<nat>)
    requires if errno != 0 then Says(m, Err(errno)) && now == was else Granted(pid, was, now, path, f, m)
    requires vfd == if |m| == 8 && m[0] == RESP_FD then Some(m[1]) else None
    ensures vfd.Some? <==> errno == 0 && FdTable.CanGrant(pid, was, path)
    ensures vfd.None? ==> now == was
    ensures vfd.Some? ==>
      errno == 0 && vfd.value < 256 && FdTable.IsLowest(pid, was, vfd.value) && now == was[(pid, vfd.value) := f]
  {
  }

  /** A whole number of chunks, or everything. */
  predicate Aligned(src: seq<Byte>, total: nat) { total == |src| || total % CHUNK_SIZE == 0 }

  lemma NextAligned(src: seq<Byte>, total: nat)
    requires total < |src| && Aligned(src, total)
    ensures Aligned(src, total + Min(|src| - total, CHUNK_SIZE))
  {
  }

  /** `total` bytes of a file `all` have been copied from offset `off` on; while more are wanted the
      descriptor stands right behind them. */
  ghost predicate ReadSoFar(all: seq<Byte>, off: nat, count: nat, total: nat, pos: nat, was: seq<Byte>,
    now: seq<Byte>) {
    if off >= |all| then total == 0 && pos == off && now == was
    else
      && total <= count <= |was| && off + total <= pos <= |all|
      && (total < count ==> pos == off + total)
      && now == all[off..off + total] + was[total..]
  }

  /** Where a descriptor stands after `want` more bytes were read from a file of `len`, answer by answer: the
      last answer counts whole even if only part of it was wanted. */
  function ReadPos(sectored: bool, len: nat, pos: nat, want: nat): (p: nat)
    ensures pos <= p
    decreases want
  {
    if want == 0 || pos >= len then pos
    else
      var n := Stride(sectored, len, pos);
      if n >= want then pos + n else ReadPos(sectored, len, pos + n, want - n)
  }

  /** From the overlay and the compiled-in tree, the next read continues where this one stopped exactly when it
      asked for whole chunks or reached the end of the file. */
  lemma {:induction false} ContiguousExactly(len: nat, pos: nat, want: nat)
    requires pos <= len
    ensures ReadPos(false, len, pos, want) == pos + Min(want, len - pos) <==>
      want % CHUNK_SIZE == 0 || pos + want >= len
    decreases want
  {
    if want > 0 && pos < len {
      var n := Min(CHUNK_SIZE, len - pos);
      if n < want {
        ContiguousExactly(len, pos + n, want - n);
        if n == CHUNK_SIZE { assert (want - n) % CHUNK_SIZE == want % CHUNK_SIZE; }
      }
    }
  }

  /** Where the answers that lead up to `end` start to be counted in 40s: at `pos`, or at the start of end's
      sector if that lies behind pos's own. */
  function CountedFrom(pos: nat, end: nat): nat {
    if end <= (pos / SECTOR + 1) * SECTOR then pos else end / SECTOR * SECTOR
  }

  /** One of FAT32's answers to reads from `pos` on ends at `end`: at the end of a sector, or whole chunks from
      where the last sector's answers start. */
  predicate AnswerEnds(pos: nat, end: nat)
    requires pos <= end
  {
    end % SECTOR == 0 || (end - CountedFrom(pos, end)) % CHUNK_SIZE == 0
  }

  /** From FAT32, exactly when it reached the end of the file or where one of the answers ends. */
  lemma {:induction false} ContiguousFromFat(len: nat, pos: nat, want: nat)
    requires pos <= len
    ensures var end := pos + want;
      ReadPos(true, len, pos, want) == pos + Min(want, len - pos) <==>
      end >= len || AnswerEnds(pos, end)
    decreases want
  {
    var end := pos + want;
    if want > 0 && pos < len {
      var n := Stride(true, len, pos);
      if n < want {
        ContiguousFromFat(len, pos + n, want - n);
        if end < len { CountedOn(pos, n, end); }
      } else if end < len {
        LastAnswer(len, pos, want, n);
      }
    }
  }

  /** Counting on after one whole answer comes to the same. */
  lemma CountedOn(pos: nat, n: nat, end: nat)
    requires n == Min(CHUNK_SIZE, SECTOR - pos % SECTOR) && pos + n < end
    ensures AnswerEnds(pos, end) <==> AnswerEnds(pos + n, end)
  {
    var q := pos / SECTOR;
    assert pos == q * SECTOR + pos % SECTOR;
    if pos % SECTOR + CHUNK_SIZE < SECTOR {
      SameSector(pos, q);
      assert end <= (q + 1) * SECTOR ==> (end - pos - CHUNK_SIZE) % CHUNK_SIZE == (end - pos) % CHUNK_SIZE;
    } else {
      assert pos + n == (q + 1) * SECTOR;
      assert end <= (q + 2) * SECTOR ==> end == (q + 2) * SECTOR || end / SECTOR == q + 1;
    }
  }

  lemma SameSector(pos: nat, q: nat)
    requires pos / SECTOR == q && pos % SECTOR + CHUNK_SIZE < SECTOR
    ensures (pos + CHUNK_SIZE) / SECTOR == q
  {
    assert pos == q * SECTOR + pos % SECTOR;
  }

  lemma LastAnswer(len: nat, pos: nat, want: nat, n: nat)
    requires pos + want < len && 0 < want <= n == Stride(true, len, pos)
    ensures n == want <==> AnswerEnds(pos, pos + want)
  {
    var q := pos / SECTOR;
    assert pos == q * SECTOR + pos % SECTOR;
  }

  /** At 480 in a file of 1000 bytes on FAT32, a read of 40 bytes makes the next one skip 32, and a read of 32
      does not make it skip any. */
  lemma FatReadSkips()
    ensures ReadPos(true, 1000, 480, 40) == 552 && ReadPos(true, 1000, 480, 32) == 512
  {
    assert Stride(true, 1000, 480) == 32 && Stride(true, 1000, 512) == 40;
  }

  /** A `read` under way: what was copied is right, and the descriptor stands where it should. */
  ghost predicate InRead(f: FdTable.OpenFile, pos: nat, all: seq<Byte>, count: nat, total: nat, was: seq<Byte>,
    buf: seq<Byte>, sectored: bool) {
    true == (
      && ReadSoFar(all, f.offset, count, total, pos, was, buf) && total <= count
      && ReadPos(sectored, |all|, pos, count - total) == ReadPos(sectored, |all|, f.offset, count))
  }

  lemma BeginRead(f: FdTable.OpenFile, all: seq<Byte>, count: nat, was: seq<Byte>, sectored: bool)
    requires count <= |was|
    ensures InRead(f, f.offset, all, count, 0, was, was, sectored)
  {
    assert f.offset < |all| ==> all[f.offset..f.offset + 0] + was[0..] == was;
  }

  lemma EndRead(f: FdTable.OpenFile, pos: nat, all: seq<Byte>, count: nat, total: nat, was: seq<Byte>, buf: seq<Byte>,
    sectored: bool)
    requires InRead(f, pos, all, count, total, was, buf, sectored) && (total == count || f.offset + total >= |all|)
    ensures ReadGave(f, all, count, sectored, total, pos, was, buf)
  {
  }

  /** `front` has been written to the beginning of a buffer that was `was`. */
  ghost predicate Front(buf: seq<Byte>, front: seq<Byte>, was: seq<Byte>) {
    |front| <= |was| && buf == front + was[|front|..]
  }

  /** What one `read` returns: as many of the file's bytes at its offset as are wanted and there are. */
  ghost predicate ReadGave(f: FdTable.OpenFile, all: seq<Byte>, count: nat, sectored: bool, n: int, pos: nat,
    was: seq<Byte>, buf: seq<Byte>) {
    && n == Min(count, if f.offset >= |all| then 0 else |all| - f.offset)
    && (f.offset < |all| ==> Front(buf, all[f.offset..f.offset + n], was))
    && (f.offset >= |all| ==> buf == was)
    && pos == ReadPos(sectored, |all|, f.offset, count)
  }

  lemma ZeroRead(f: FdTable.OpenFile, all: seq<Byte>, was: seq<Byte>, sectored: bool)
    ensures ReadGave(f, all, 0, sectored, 0, f.offset, was, was)
  {
    assert [] + was == was;
  }

  lemma Unmoved(files: Files, k: (nat, nat), f: FdTable.OpenFile)
    requires k in files && files[k] == f
    ensures files == files[k := f.(offset := f.offset)]
  {
  }

  lemma StayedPut(files: Files, k: (nat, nat))
    requires k in files && files[k].offset < U32
    ensures files[k := Past(files[k], 0)] == files
  {
  }

  lemma MovedTwice(files: Files, mid: Files, now: Files, k: (nat, nat), g: FdTable.OpenFile, h: FdTable.OpenFile)
    requires mid == files[k := g] && now == mid[k := h]
    ensures now == files[k := h]
  {
  }

  /** A turn of the read loop, on values. */
  lemma TurnStep(f: FdTable.OpenFile, pos: nat, all: seq<Byte>, count: nat, total: nat, was: seq<Byte>, mid: seq<Byte>,
                 now: seq<Byte>, r: Reply, n: int, sectored: bool)
    requires pos < U32 && |all| < U32 && total < count && r == PieceReply(sectored, all, pos)
    requires Copied(r, n, total, Min(count - total, CHUNK_SIZE), mid, now)
    requires InRead(f, pos, all, count, total, was, mid, sectored)
    ensures n >= 0 && (n == 0 <==> f.offset + total >= |all|)
    ensures InRead(f, Min(pos + r.Moved(), U32 - 1), all, count, total + n, was, now, sectored)
  {
    PieceContinues(sectored, all, pos);
    ReadStep(all, f.offset, count, total, pos, was, mid, now, r, n);
    assert pos + r.Moved() < U32;
  }

  /** One more reply. */
  lemma ReadStep(all: seq<Byte>, off: nat, count: nat, total: nat, pos: nat, was: seq<Byte>, mid: seq<Byte>,
    now: seq<Byte>, r: Reply, n: int)
    requires ReadSoFar(all, off, count, total, pos, was, mid) && total < count && |all| < U32
    requires Continues(r, all, pos) && Copied(r, n, total, Min(count - total, CHUNK_SIZE), mid, now)
    ensures 0 <= n && ReadSoFar(all, off, count, total + n, pos + r.Moved(), was, now)
    ensures n == 0 <==> off + total >= |all|
  {
    if off < |all| && pos < |all| {
      var part := r.chunk[..n];
      assert part == all[off + total..off + total + n];
      assert all[off..off + total] + part == all[off..off + total + n];
      assert mid[..total] == all[off..off + total];
      assert mid[total + n..] == was[total + n..];
    } else {
      assert off < |all| ==> n == 0 && now == mid;
    }
  }

  /** Where the next write of a descriptor lands. */
  function WriteAt(f: FdTable.OpenFile, c: Overlay.Content): nat { if f.Appending() then c.dlen else f.offset }

  /** What a descriptor open for writing on an overlay node writes to. */
  datatype Target = Target(f: FdTable.OpenFile, node: nat, c: Overlay.Content) {
    function Start(): nat { WriteAt(f, c) }
  }

  function TargetOf(pid: nat, vfd: nat, files: Files, nodes: seq<Overlay.Node>): (t: Option<Target>)
    ensures t.Some? ==> t.value.node < |nodes| && t.value.c == nodes[t.value.node].content
  {
    if (pid, vfd) !in files then None
    else
      var f := files[(pid, vfd)];
      var i := Overlay.Lookup(nodes, f.path);
      if f.Writable() && i.Some? then Some(Target(f, i.value, nodes[i.value].content)) else None
  }

  /** The nodes after the first `total` bytes of src were written to t. */
  function NodesAfter(nodes: seq<Overlay.Node>, t: Target, src: seq<Byte>, total: nat): seq<Overlay.Node>
    requires t.node < |nodes| && t.c.Ok() && total <= |src|
  {
    if total == 0 || t.Start() + total > Overlay.MAX_DATA then nodes
    else Overlay.Stored(nodes, t.node, Overlay.Written(t.c, t.Start(), src[..total]).value)
  }

  /** total bytes of src have been written, as one write would have. */
  ghost predicate Progress(pid: nat, vfd: nat, src: seq<Byte>, was: Files, now: Files, nodes: seq<Overlay.Node>,
    nodes': seq<Overlay.Node>, total: nat)
    requires Overlay.NodesOk(nodes)
  {
    match TargetOf(pid, vfd, was, nodes)
    case None => total == 0 && now == was && nodes' == nodes
    case Some(t) =>
      && total <= |src| && (total == 0 || t.Start() + total <= Overlay.MAX_DATA)
      && nodes' == NodesAfter(nodes, t, src, total)
      && now == if total == 0 then was else was[(pid, vfd) := Past(t.f, total)]
  }

  /** The next chunk after `total` bytes is refused. */
  ghost predicate Stuck(pid: nat, vfd: nat, src: seq<Byte>, was: Files, nodes: seq<Overlay.Node>, total: nat)
    requires total <= |src|
  {
    match TargetOf(pid, vfd, was, nodes)
    case None => true
    case Some(t) => t.Start() + total + Min(CHUNK_SIZE, |src| - total) > Overlay.MAX_DATA
  }

  /** What `write` leaves behind: everything when it fits; otherwise the whole chunks that fit, or
      failure when not even the first does. */
  ghost predicate WriteOutcome(pid: nat, vfd: nat, src: seq<Byte>, was: Files, now: Files, nodes: seq<Overlay.Node>,
    nodes': seq<Overlay.Node>, total: int)
    requires Overlay.NodesOk(nodes)
  {
    var done := if total < 0 then 0 else total;
    && -1 <= total <= |src| && Progress(pid, vfd, src, was, now, nodes, nodes', done)
    && (total < |src| ==> total != 0 && Stuck(pid, vfd, src, was, nodes, done))
  }

  /** The second write of a descriptor continues the first. */
  lemma WriteContinues(f: FdTable.OpenFile, c: Overlay.Content, a: seq<Byte>, b: seq<Byte>)
    requires c.Ok() && |a| > 0 && WriteAt(f, c) + |a| <= Overlay.MAX_DATA
    ensures var c1 := Overlay.Written(c, WriteAt(f, c), a).value;
      && WriteAt(Past(f, |a|), c1) == WriteAt(f, c) + |a|
      && Overlay.Written(c1, WriteAt(Past(f, |a|), c1), b) == Overlay.Written(c, WriteAt(f, c), a + b)
  {
    WrittenTwice(c, WriteAt(f, c), a, b);
  }

  /** After `total` bytes the same node is written, and writing on gives the longer prefix. */
  lemma NodesContinue(nodes: seq<Overlay.Node>, t: Target, path: Path, src: seq<Byte>, total: nat, chunk: nat)
    requires Overlay.NodesOk(nodes) && Overlay.Lookup(nodes, path) == Some(t.node) && t.c == nodes[t.node].content
    requires total + chunk <= |src| && 0 < chunk && (total == 0 || t.Start() + total <= Overlay.MAX_DATA)
    ensures var n1, f1 := NodesAfter(nodes, t, src, total), if total == 0 then t.f else Past(t.f, total);
      && Overlay.Lookup(n1, path) == Some(t.node)
      && n1[t.node].content.Ok() && WriteAt(f1, n1[t.node].content) == t.Start() + total
      && var w := Overlay.Written(n1[t.node].content, t.Start() + total, src[total..total + chunk]);
         && (w.None? <==> t.Start() + total + chunk > Overlay.MAX_DATA)
         && (w.Some? ==> Overlay.Stored(n1, t.node, w.value) == NodesAfter(nodes, t, src, total + chunk))
  {
    assert src[..total + chunk] == src[..total] + src[total..total + chunk];
    if total == 0 {
      assert src[..chunk] == src[0..chunk];
    } else {
      Overlay.SameScan(nodes, NodesAfter(nodes, t, src, total), Overlay.KeyOf(path), 0);
      WriteContinues(t.f, t.c, src[..total], src[total..total + chunk]);
    }
  }

  lemma WriteTurn(pid: nat, vfd: nat, src: seq<Byte>, was: Files, f1: Files, f2: Files,
                  nodes: seq<Overlay.Node>, n1: seq<Overlay.Node>, n2: seq<Overlay.Node>, total: nat, chunk: nat,
                    m: Msg, n: int)
    requires Overlay.NodesOk(nodes) && Overlay.NodesOk(n1) && total < |src| && chunk == Min(|src| - total, CHUNK_SIZE)
    requires Progress(pid, vfd, src, was, f1, nodes, n1, total)
    requires WriteFdPost(pid, vfd, src[total..total + chunk], f1, f2, n1, n2, m)
    requires n == if Says(m, Okay) then chunk else -1
    ensures n >= 0 ==> Progress(pid, vfd, src, was, f2, nodes, n2, total + n)
    ensures n < 0 ==> WriteOutcome(pid, vfd, src, was, f2, nodes, n2, if total == 0 then -1 else total)
  {
    var target := TargetOf(pid, vfd, was, nodes);
    if target.None? {
      NoTarget(pid, vfd, src[total..total + chunk], was, f2, nodes, n2, m);
    } else {
      TargetStep(pid, vfd, src, was, f1, f2, nodes, n1, n2, total, chunk, m, target.value);
    }
  }

  lemma NoTarget(pid: nat, vfd: nat, src: seq<Byte>, was: Files, now: Files, nodes: seq<Overlay.Node>,
    nodes': seq<Overlay.Node>, m: Msg)
    requires Overlay.NodesOk(nodes) && TargetOf(pid, vfd, was, nodes).None?
      && WriteFdPost(pid, vfd, src, was, now, nodes, nodes', m)
    ensures !Says(m, Okay) && now == was && nodes' == nodes
  {
  }

  lemma TargetStep(pid: nat, vfd: nat, src: seq<Byte>, was: Files, f1: Files, f2: Files,
                   nodes: seq<Overlay.Node>, n1: seq<Overlay.Node>, n2: seq<Overlay.Node>, total: nat, chunk: nat,
                     m: Msg, t: Target)
    requires Overlay.NodesOk(nodes) && Overlay.NodesOk(n1) && total < |src| && chunk == Min(|src| - total, CHUNK_SIZE)
    requires TargetOf(pid, vfd, was, nodes) == Some(t) && Progress(pid, vfd, src, was, f1, nodes, n1, total)
    requires WriteFdPost(pid, vfd, src[total..total + chunk], f1, f2, n1, n2, m)
    ensures Says(m, Okay) <==> t.Start() + total + chunk <= Overlay.MAX_DATA
    ensures Says(m, Okay) ==>
      n2 == NodesAfter(nodes, t, src, total + chunk) && f2 == was[(pid, vfd) := Past(t.f, total + chunk)]
    ensures !Says(m, Okay) ==> n2 == n1 && f2 == f1
  {
    NodesContinue(nodes, t, t.f.path, src, total, chunk);
    var f := if total == 0 then t.f else Past(t.f, total);
    assert f1[(pid, vfd)] == f && f.Writable();
    assert WroteNode(pid, vfd, f, t.node, src[total..total + chunk], f1, f2, n1, n2, m);
    assert was[(pid, vfd) := f][(pid, vfd) := Past(f, chunk)] == was[(pid, vfd) := Past(t.f, total + chunk)];
  }
}
