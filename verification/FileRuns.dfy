/** Runs of the file server: requests of any processes in any order, and what the reader of one
    descriptor sees of them. */
module FileRuns {
  import opened Bytes
  import opened Packing
  import FdTable
  import Overlay
  import opened Vfs

  /** The open descriptors and the overlay between two requests. */
  datatype State = State(files: Files, nodes: seq<Overlay.Node>)

  // ---------------------------------------------------------------- one request

  datatype Request =
    | Read(path: Path, offset: nat)
    | ReadFd(from: nat, fd: nat)
    | Open(from: nat, oflags: nat, path: Path)
    | WriteFd(from: nat, fd: nat, len: nat, bytes: seq<Byte>)
    | Seek(from: nat, fd: nat, offset: nat)
    | Close(from: nat, fd: nat)
    | Unlink(path: Path)

  /** What the server does with a request in state s: the state afterwards and the reply.  `sound` says
      that no read of the disk failed meanwhile. */
  ghost predicate Serves(srv: Server, s: State, q: Request, t: State, m: Msg, sound: bool)
    requires Overlay.NodesOk(s.nodes)
  {
    match q
    case Read(path, offset) =>
      && t == s
      && (srv.Readable(s.nodes, UpToNul(path)) && (sound || !srv.FromFat(s.nodes, UpToNul(path))) ==>
            Says(m, srv.ReadReply(s.nodes, UpToNul(path), offset)))
    case ReadFd(from, fd) => t.nodes == s.nodes && exists r ::
      Says(m, r) && FdRead(srv, s, (from, fd), r, t.files, sound)
    case Open(from, oflags, path) =>
      var (nodes, errno) := OpenNodes(s.nodes, srv.root, oflags, UpToNul(path));
      && t.nodes == nodes && Opens(s.files, t, from, oflags, UpToNul(path), errno, m)
    case WriteFd(from, fd, len, bytes) =>
      WriteFdPost(from, fd, bytes[..Min(|bytes|, Min(len, CHUNK_SIZE))], s.files, t.files, s.nodes, t.nodes, m)
    case Seek(from, fd, offset) =>
      var k := (from, fd);
      && t == State(if k in s.files then s.files[k := s.files[k].(offset := offset)] else s.files, s.nodes)
      && Says(m, if k in s.files then Okay else Err(EBADF))
    case Close(from, fd) =>
      && t == State(s.files - {(from, fd)}, s.nodes)
      && Says(m, if (from, fd) in s.files then Okay else Err(EBADF))
    case Unlink(path) =>
      && t == State(SparedByUnlink(s.files, path), Overlay.Removed(s.nodes, UpToNul(path)))
      && Says(m, if Overlay.Lookup(s.nodes, UpToNul(path)).Some? then Okay else Err(ENOENT))
  }

  /** A read of descriptor k is answered with r. */
  ghost predicate FdRead(srv: Server, s: State, k: (nat, nat), r: Reply, files: Files, sound: bool)
    requires Overlay.NodesOk(s.nodes)
  {
    if k !in s.files then r == Err(EBADF) && files == s.files
    else
      var f := s.files[k];
      && files == s.files[k := Past(f, r.Moved())]
      && (!f.Readable() ==> r == Err(EACCES))
      && (f.Readable() && srv.Readable(s.nodes, f.path) && (sound || !srv.FromFat(s.nodes, f.path)) ==>
            r == srv.ReadReply(s.nodes, f.path, f.offset))
  }

  ghost predicate Opens(was: Files, t: State, from: nat, oflags: nat, path: Path, errno: nat, m: Msg) {
    if errno != 0 then Says(m, Err(errno)) && t.files == was
    else Granted(from, was, t.files, path, FdTable.OpenFile(oflags, StartOffset(t.nodes, oflags, path), path), m)
  }

  /** What a request demands: message fields have their widths, and the part of the volume a read walks
      is in order. */
  ghost predicate Proper(srv: Server, s: State, q: Request) {
    match q
    case Read(path, _) => srv.Readable(s.nodes, UpToNul(path))
    case ReadFd(from, fd) =>
      (from, fd) in s.files && s.files[(from, fd)].Readable() ==> srv.Readable(s.nodes, s.files[(from, fd)].path)
    case WriteFd(_, _, _, bytes) => |bytes| == CHUNK_SIZE
    case Seek(_, _, offset) => offset < U32
    case _ => true
  }

  ghost function Now(srv: Server): State
    reads srv.fds, srv.overlay.nodes
  {
    State(srv.Files(), srv.Nodes())
  }

  /** The dispatcher: every handler does what Serves says. */
  method Serve(srv: Server, q: Request) returns (m: Msg)
    requires srv.Valid() && Proper(srv, Now(srv), q)
    modifies srv.Below(), srv.fds, srv.fds.tbl, srv.overlay.nodes
    ensures srv.Valid() && srv.Failures() >= old(srv.Failures())
    ensures Serves(srv, old(Now(srv)), q, Now(srv), m, srv.Failures() == old(srv.Failures()))
  {
    match q {
      case Read(path, offset) => m := ServeRead(srv, path, offset);
      case ReadFd(from, fd) => m := ServeReadFd(srv, from, fd);
      case Open(from, oflags, path) => m := srv.HandleOpen(from, oflags, path);
      case WriteFd(from, fd, len, bytes) => m := srv.HandleWriteFd(from, fd, len, bytes);
      case Seek(from, fd, offset) => m := srv.HandleSeek(from, fd, offset);
      case Close(from, fd) => m := srv.HandleClose(from, fd);
      case Unlink(path) => m := srv.HandleUnlink(path);
    }
  }

  method ServeRead(srv: Server, path: Path, offset: nat) returns (m: Msg)
    requires srv.Valid() && srv.Readable(srv.Nodes(), UpToNul(path))
    modifies srv.Below()
    ensures srv.Valid() && srv.Failures() >= old(srv.Failures())
    ensures srv.Nodes() == old(srv.Nodes()) && srv.Files() == old(srv.Files())
    ensures srv.Failures() == old(srv.Failures()) || !srv.FromFat(srv.Nodes(), UpToNul(path)) ==>
      Says(m, srv.ReadReply(srv.Nodes(), UpToNul(path), offset))
  {
    ghost var how;
    m, how := srv.HandleRead(offset, path);
    srv.AnswersWithin(srv.Nodes(), UpToNul(path), offset, how);
  }

  method ServeReadFd(srv: Server, from: nat, fd: nat) returns (m: Msg)
    requires srv.Valid() && srv.CanRead(from, fd)
    modifies srv.Below(), srv.fds, srv.fds.tbl
    ensures srv.Valid() && srv.Failures() >= old(srv.Failures()) && srv.Nodes() == old(srv.Nodes())
    ensures exists r ::
      Says(m, r) && FdRead(srv, old(Now(srv)), (from, fd), r, srv.Files(), srv.Failures() == old(srv.Failures()))
  {
    ghost var f := if (from, fd) in srv.Files() then Some(srv.Files()[(from, fd)]) else None;
    ghost var r, how;
    m, r, how := srv.HandleReadFd(from, fd);
    if f.Some? && f.value.Readable() { srv.AnswersWithin(srv.Nodes(), f.value.path, f.value.offset, how); }
    assert FdRead(srv, old(Now(srv)), (from, fd), r, srv.Files(), srv.Failures() == old(srv.Failures()));
  }

  // ---------------------------------------------------------------- what others leave alone

  /** Every stateless read of the path answers as before. */
  ghost predicate SameReads(srv: Server, nodes: seq<Overlay.Node>, nodes': seq<Overlay.Node>, path: Path)
    requires Overlay.NodesOk(nodes) && Overlay.NodesOk(nodes')
  {
    && srv.Readable(nodes, path) && srv.Readable(nodes', path)
    && forall offset: nat
         {:trigger srv.ReadReply(nodes', path, offset)} {:trigger srv.ReadReply(nodes, path, offset)} ::
         srv.ReadReply(nodes', path, offset) == srv.ReadReply(nodes, path, offset)
  }

  /** Neither descriptor k nor what reads of its file answer has changed. */
  ghost predicate Spares(srv: Server, k: (nat, nat), s: State, t: State)
    requires Overlay.NodesOk(s.nodes) && Overlay.NodesOk(t.nodes) && k in s.files
  {
    k in t.files && t.files[k] == s.files[k] && SameReads(srv, s.nodes, t.nodes, s.files[k].path)
  }

  /** No node a request on path q finds or creates answers to `path`. */
  ghost predicate Elsewhere(q: Path, path: Path) {
    Overlay.KeyOf(q) != Overlay.KeyOf(path) && Overlay.Canon(Overlay.KeyOf(q)) != Overlay.KeyOf(path)
  }

  /** Requests that do not concern descriptor k and do not change its file: any path may be read, other
      descriptors may be read, moved and closed, other files created, written, truncated and unlinked, and
      the file itself opened as long as that neither creates nor truncates it. */
  ghost predicate Unconcerned(s: State, q: Request, k: (nat, nat))
    requires k in s.files
  {
    var path := s.files[k].path;
    match q
    case Read(_, _) => true
    case ReadFd(from, fd) => (from, fd) != k
    case Open(_, oflags, p) =>
      || Elsewhere(UpToNul(p), path) || oflags % 4 == 0 || oflags % 4 == 3
      || (oflags / 8 % 2 == 0 && (oflags / 4 % 2 == 0 || Overlay.Lookup(s.nodes, UpToNul(p)).Some?))
    case WriteFd(from, fd, _, _) =>
      (from, fd) != k && ((from, fd) in s.files ==> Overlay.KeyOf(s.files[(from, fd)].path) != Overlay.KeyOf(path))
    case Seek(from, fd, _) => (from, fd) != k
    case Close(from, fd) => (from, fd) != k
    case Unlink(p) => Overlay.KeyOf(UpToNul(p)) != Overlay.KeyOf(path) && UpToNul(p)[..Min(|UpToNul(p)|, 64)] != path
  }

  lemma UnconcernedSpares(srv: Server, s: State, q: Request, t: State, m: Msg, sound: bool, k: (nat, nat))
    requires Overlay.NodesOk(s.nodes) && Overlay.NodesOk(t.nodes) && k in s.files
      && srv.Readable(s.nodes, s.files[k].path)
    requires Serves(srv, s, q, t, m, sound) && Unconcerned(s, q, k)
    ensures Spares(srv, k, s, t)
  {
    var path := s.files[k].path;
    match q
    case Open(from, oflags, p) =>
      OpenKeepsFiles(srv, s, t, from, oflags, UpToNul(p), m, k);
      OpenKeepsReads(srv, s.nodes, oflags, UpToNul(p), path);
    case WriteFd(from, fd, len, bytes) =>
      WriteKeeps(srv, s, t, from, fd, bytes[..Min(|bytes|, Min(len, CHUNK_SIZE))], m, k);
    case Unlink(p) =>
      var i := Overlay.Lookup(s.nodes, UpToNul(p));
      if i.Some? { OtherNode(srv, s.nodes, t.nodes, i.value, path); }
    case _ =>
  }

  /** Changing a node that does not answer to `path`, before or after, changes no read of it. */
  lemma OtherNode(srv: Server, nodes: seq<Overlay.Node>, nodes': seq<Overlay.Node>, i: nat, path: Path)
    requires Overlay.NodesOk(nodes) && Overlay.NodesOk(nodes') && srv.Readable(nodes, path)
    requires i < |nodes| && nodes' == nodes[i := nodes'[i]]
    requires nodes[i].used ==> nodes[i].Key() != Overlay.KeyOf(path)
    requires nodes'[i].used ==> nodes'[i].Key() != Overlay.KeyOf(path)
    ensures SameReads(srv, nodes, nodes', path)
  {
    Overlay.OtherScan(nodes, nodes', i, Overlay.KeyOf(path), 0);
  }

  lemma OpenKeepsFiles(srv: Server, s: State, t: State, from: nat, oflags: nat, path: Path, m: Msg, k: (nat, nat))
    requires k in s.files && Opens(s.files, t, from, oflags, path, OpenNodes(s.nodes, srv.root, oflags, path).1, m)
    ensures k in t.files && t.files[k] == s.files[k]
  {
  }

  lemma OpenKeepsReads(srv: Server, nodes: seq<Overlay.Node>, oflags: nat, p: Path, path: Path)
    requires Overlay.NodesOk(nodes) && Overlay.NodesOk(OpenNodes(nodes, srv.root, oflags, p).0)
      && srv.Readable(nodes, path)
    requires
      || Elsewhere(p, path) || oflags % 4 == 0 || oflags % 4 == 3
      || (oflags / 8 % 2 == 0 && (oflags / 4 % 2 == 0 || Overlay.Lookup(nodes, p).Some?))
    ensures SameReads(srv, nodes, OpenNodes(nodes, srv.root, oflags, p).0, path)
  {
    if Elsewhere(p, path) && oflags % 4 != 0 && oflags % 4 != 3 {
      var made := if oflags / 4 % 2 == 1 then Overlay.Allocated(nodes, p, 0).0 else nodes;
      AllocKeepsReads(srv, nodes, p, path);
      if OpenNodes(nodes, srv.root, oflags, p).0 != made { TruncKeepsReads(srv, made, oflags, p, path); }
    }
  }

  lemma AllocKeepsReads(srv: Server, nodes: seq<Overlay.Node>, p: Path, path: Path)
    requires Overlay.NodesOk(nodes) && Elsewhere(p, path) && srv.Readable(nodes, path)
    ensures var made := Overlay.Allocated(nodes, p, 0).0; Overlay.NodesOk(made) && SameReads(srv, nodes, made, path)
  {
    var made := Overlay.Allocated(nodes, p, 0).0;
    Overlay.ExecKeepsOk(nodes, Overlay.OpAlloc(p, 0));
    var i := Overlay.FreeNode(nodes, 0);
    if made != nodes { OtherNode(srv, nodes, made, i.value, path); }
  }

  lemma TruncKeepsReads(srv: Server, nodes: seq<Overlay.Node>, oflags: nat, p: Path, path: Path)
    requires Overlay.NodesOk(nodes) && Overlay.NodesOk(TruncIf(nodes, oflags, p)) && Elsewhere(p, path)
      && srv.Readable(nodes, path)
    ensures SameReads(srv, nodes, TruncIf(nodes, oflags, p), path)
  {
    var i := Overlay.Lookup(nodes, p);
    if i.Some? { OtherNode(srv, nodes, TruncIf(nodes, oflags, p), i.value, path); }
  }

  lemma WriteKeeps(srv: Server, s: State, t: State, from: nat, fd: nat, src: seq<Byte>, m: Msg, k: (nat, nat))
    requires Overlay.NodesOk(s.nodes) && Overlay.NodesOk(t.nodes) && k in s.files
      && srv.Readable(s.nodes, s.files[k].path)
    requires WriteFdPost(from, fd, src, s.files, t.files, s.nodes, t.nodes, m)
    requires (from, fd) != k
      && ((from, fd) in s.files ==> Overlay.KeyOf(s.files[(from, fd)].path) != Overlay.KeyOf(s.files[k].path))
    ensures Spares(srv, k, s, t)
  {
    if t.nodes != s.nodes {
      var i := Overlay.Lookup(s.nodes, s.files[(from, fd)].path).value;
      OtherNode(srv, s.nodes, t.nodes, i, s.files[k].path);
    }
  }

  // ---------------------------------------------------------------- reading a descriptor to its end

  /** A run as the holder of one descriptor sees it: reads of its own with their answers, and requests of
      anyone's in between; each with the state afterwards. */
  datatype Run = Start(s: State) | OwnRead(before: Run, r: Reply, s: State) | Others(before: Run, s: State) {
    ghost function Began(): State { if Start? then s else before.Began() }

    /** How many answers there were, how far they moved the descriptor, and what they carried. */
    function Answers(): nat { if Start? then 0 else before.Answers() + if OwnRead? then 1 else 0 }

    function Total(): nat { if Start? then 0 else before.Total() + if OwnRead? then r.Moved() else 0 }

    function Joined(): (j: seq<Byte>)
      ensures |j| == Total()
    {
      if Start? then [] else before.Joined() + if OwnRead? && r.Data? then r.chunk else []
    }

    /** The last answer was DONE. */
    predicate Finished() { !Start? && if OwnRead? then r == Done else before.Finished() }
  }

  /** The holder of k reads, undisturbed by disk failures; whatever else happens, through the requests
      above or others, spares k and its file. */
  ghost predicate Undisturbed(srv: Server, k: (nat, nat), run: Run)
    ensures Undisturbed(srv, k, run) ==> Overlay.NodesOk(run.s.nodes) && k in run.s.files
  {
    && Overlay.NodesOk(run.s.nodes)
    && match run
       case Start(s) => k in s.files
       case OwnRead(before, r, s) =>
         Undisturbed(srv, k, before) && s.nodes == before.s.nodes && FdRead(srv, before.s, k, r, s.files, true)
       case Others(before, s) => Undisturbed(srv, k, before) && Spares(srv, k, before.s, s)
  }

  /** The answer of a stateless read of `path` at each offset. */
  ghost function Stateless(srv: Server, nodes: seq<Overlay.Node>, path: Path): (answer: nat -> Reply)
    requires Overlay.NodesOk(nodes) && srv.Readable(nodes, path)
    ensures forall offset: nat {:trigger answer(offset)} :: answer(offset) == srv.ReadReply(nodes, path, offset)
  {
    (offset: nat) => srv.ReadReply(nodes, path, offset)
  }

  /** Every answer is the stateless one at the start plus the sum of the earlier chunk lengths. */
  ghost predicate AsStateless(answer: nat -> Reply, start: nat, run: Run) {
    !run.Start? ==>
      AsStateless(answer, start, run.before) && (run.OwnRead? ==> run.r == answer(start + run.before.Total()))
  }

  /** What is left of a file from an offset on. */
  function Rest(all: seq<Byte>, start: nat): seq<Byte> { if start <= |all| then all[start..] else [] }

  /** n answers have carried `got` of the rest of a file: a beginning of it, one byte at least each until
      all of it has been carried, and DONE from then on. */
  ghost predicate Amounts(rest: seq<Byte>, got: seq<Byte>, n: nat, done: bool) {
    got <= rest && (got != rest ==> n <= |got|) && (n > |rest| ==> got == rest && done)
  }

  lemma CarriesOn(all: seq<Byte>, start: nat, got: seq<Byte>, n: nat, done: bool, r: Reply)
    requires Amounts(Rest(all, start), got, n, done) && Continues(r, all, start + |got|)
    ensures Amounts(Rest(all, start), got + (if r.Data? then r.chunk else []), n + 1, r == Done)
  {
    assert got + [] == got;
    if r.Data? { PrefixGrows(Rest(all, start), got, r.chunk); } else { assert got == Rest(all, start); }
  }

  lemma PrefixGrows(all: seq<Byte>, got: seq<Byte>, chunk: seq<Byte>)
    requires got <= all && |got| + |chunk| <= |all| && chunk == all[|got|..|got| + |chunk|]
    ensures got + chunk <= all
  {
  }

  /** What a run amounts to for the holder of k, which began as f. */
  ghost predicate ReadsThrough(k: (nat, nat), f: FdTable.OpenFile, answer: nat -> Reply, all: seq<Byte>, run: Run) {
    && AsStateless(answer, f.offset, run)
    && Amounts(Rest(all, f.offset), run.Joined(), run.Answers(), run.Finished())
    && k in run.s.files && run.s.files[k] == Past(f, run.Total())
  }

  lemma OneMore(k: (nat, nat), f: FdTable.OpenFile, answer: nat -> Reply, all: seq<Byte>, before: Run, r: Reply,
    t: State)
    requires ReadsThrough(k, f, answer, all, before) && f.offset < U32 && |all| < U32
    requires var at := before.s.files[k].offset; r == answer(at) && Continues(r, all, at)
    requires k in t.files && t.files[k] == Past(before.s.files[k], r.Moved())
    ensures ReadsThrough(k, f, answer, all, OwnRead(before, r, t)) == true
  {
    var at := before.s.files[k].offset;
    assert at == f.offset + |before.Joined()|;
    CarriesOn(all, f.offset, before.Joined(), before.Answers(), before.Finished(), r);
  }

  /** Stateless reads of `path` are answered with the right parts of `all`, as in `answer`. */
  ghost predicate AnsweredAs(srv: Server, nodes: seq<Overlay.Node>, path: Path, answer: nat -> Reply, all: seq<Byte>)
    requires Overlay.NodesOk(nodes)
  {
    && srv.Readable(nodes, path)
    && forall offset: nat {:trigger srv.ReadReply(nodes, path, offset)} ::
         srv.ReadReply(nodes, path, offset) == answer(offset)
           && (offset < U32 ==> Continues(answer(offset), all, offset))
  }

  lemma {:induction false} HolderReads(srv: Server, k: (nat, nat), f: FdTable.OpenFile, answer: nat -> Reply,
    all: seq<Byte>, run: Run)
    requires Undisturbed(srv, k, run) && f.Readable() && f.offset < U32 && |all| < U32
    requires run.Began().files == run.Began().files[k := f] && Overlay.NodesOk(run.Began().nodes)
    requires AnsweredAs(srv, run.Began().nodes, f.path, answer, all) == true
    ensures ReadsThrough(k, f, answer, all, run) == true && AnsweredAs(srv, run.s.nodes, f.path, answer, all) == true
  {
    match run
    case Start(s) =>
    case OwnRead(before, r, s) =>
      HolderReads(srv, k, f, answer, all, before);
      var here := before.s.files[k];
      assert here == Past(f, before.Total()) && s.files[k] == Past(here, r.Moved());
      assert r == srv.ReadReply(before.s.nodes, f.path, here.offset);
      OneMore(k, f, answer, all, before, r, s);
    case Others(before, s) =>
      HolderReads(srv, k, f, answer, all, before);
      OthersOnly(k, f, answer, all, before, s);
  }

  lemma OthersOnly(k: (nat, nat), f: FdTable.OpenFile, answer: nat -> Reply, all: seq<Byte>, before: Run, t: State)
    requires ReadsThrough(k, f, answer, all, before) && k in t.files && t.files[k] == before.s.files[k]
    ensures ReadsThrough(k, f, answer, all, Others(before, t)) == true
  {
    assert Others(before, t).Joined() == before.Joined();
  }

  /** Reading a descriptor again and again, with any requests in between that spare it and its file:
      whichever layer serves the file, each answer is that of a stateless read at the sum of the earlier
      lengths, the answers join up to the file, and DONE comes within as many reads as there are bytes and
      one more. */
  lemma ReadsAreStateless(srv: Server, k: (nat, nat), f: FdTable.OpenFile, all: seq<Byte>, run: Run)
    requires Undisturbed(srv, k, run) && Overlay.NodesOk(run.Began().nodes)
    requires k in run.Began().files && run.Began().files[k] == f && f.Readable() && f.offset < U32
    requires srv.Readable(run.Began().nodes, f.path) && srv.FileBytes(run.Began().nodes, f.path) == Some(all)
      && |all| < U32
    ensures ReadsThrough(k, f, Stateless(srv, run.Began().nodes, f.path), all, run)
  {
    var s := run.Began();
    srv.FileServed(s.nodes, f.path);
    HolderReads(srv, k, f, Stateless(srv, s.nodes, f.path), all, run);
  }
}
