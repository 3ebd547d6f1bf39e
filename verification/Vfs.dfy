/** The file server's request handlers over its three layers: the writable overlay, the FAT32 volume
    and the compiled-in tree. */
module Vfs {
  import opened Bytes
  import opened Packing
  import FdTable
  import Overlay
  import Fat32
  import Fat32Volume
  import StaticTree

  type Path = seq<Byte>

  /** The open descriptors of all processes. */
  type Files = map<(nat, nat), FdTable.OpenFile>

  const RESP_DONE: nat := 0x81
  const RESP_DATA: nat := 0x82
  const RESP_OK: nat := 0x85
  const RESP_FD: nat := 0x86
  const RESP_ERROR: nat := 0x8F

  const ENOENT: nat := 1
  const EISDIR: nat := 3
  const ENOSPC: nat := 5
  const EBADF: nat := 6
  const EMFILE: nat := 7
  const EACCES: nat := 8

  const U32: nat := 0x1_0000_0000

  /** An IPC message body: eight 64-bit words. */
  type Msg = seq<nat>

  /** What a reply message means. */
  datatype Reply = Err(errno: nat) | Done | Okay | FdNum(fd: nat) | Data(size: nat, chunk: seq<Byte>) {
    function Moved(): nat { if Data? then |chunk| else 0 }
  }

  ghost predicate Says(m: Msg, r: Reply) {
    && |m| == 8
    && match r {
         case Err(e) => m[0] == RESP_ERROR && m[1] == e
         case Done => m[0] == RESP_DONE
         case Okay => m[0] == RESP_OK
         case FdNum(n) => m[0] == RESP_FD && m[1] == n
         case Data(size, chunk) => m[0] == RESP_DATA && m[1] == size && m[2] == |chunk| && Carries(m[3..], chunk)
       }
  }

  /** A reply is one thing only. */
  lemma SaysOnce(m: Msg, r: Reply, r': Reply)
    requires Says(m, r) && Says(m, r')
    ensures r == r'
  {
    if r.Data? {
      forall i | 0 <= i < |r.chunk| ensures r.chunk[i] == r'.chunk[i] {
        assert ByteOf(m[3..], i) == r.chunk[i];
      }
      assert r.chunk == r'.chunk;
    }
  }

  function Plain(code: nat, arg: nat): Msg { [code, arg, 0, 0, 0, 0, 0, 0] }

  method DataMsg(size: nat, chunk: seq<Byte>) returns (m: Msg)
    requires |chunk| <= CHUNK_SIZE
    ensures Says(m, Data(size, chunk))
  {
    var words := PackBytesInto(DATA_WORDS, chunk);
    m := [RESP_DATA, size, |chunk|] + words;
    assert m[3..] == words;
  }

  /** A descriptor moved forward, saturating at the largest offset. */
  function Past(f: FdTable.OpenFile, n: nat): FdTable.OpenFile { f.(offset := Min(f.offset + n, U32 - 1)) }

  // ---------------------------------------------------------------- what a read should answer

  /** The chunk of a plain byte sequence at `offset`. */
  function ChunkReply(data: seq<Byte>, offset: nat): Reply {
    if offset >= |data| then Done else Data(|data|, data[offset..Min(offset + CHUNK_SIZE, |data|)])
  }

  function FatReply(found: (nat, seq<Byte>)): Reply {
    if found.1 == [] then Done else Data(found.0, found.1)
  }

  function StaticReply(root: StaticTree.Tree, path: Path, offset: nat): Reply {
    match StaticTree.Resolve(root, path)
    case None => Err(ENOENT)
    case Some(Dir(_)) => Err(EISDIR)
    case Some(File(data, _)) => ChunkReply(data, offset)
  }

  /** The reply to a read at `offset` of a file with bytes `all`. */
  ghost predicate Continues(r: Reply, all: seq<Byte>, offset: nat) {
    if offset >= |all| then r == Done
    else
      && r.Data? && r.size == |all| && 1 <= |r.chunk| <= CHUNK_SIZE
      && offset + |r.chunk| <= |all| && r.chunk == all[offset..offset + |r.chunk|]
  }

  /** How many bytes one answer carries: 40 or what is left; FAT32 also stops at the end of a sector. */
  function Stride(sectored: bool, len: nat, offset: nat): (n: nat)
    requires offset < len
    ensures 1 <= n <= CHUNK_SIZE && offset + n <= len
  {
    if sectored then Fat32Volume.ChunkAt(len, offset) else Min(CHUNK_SIZE, len - offset)
  }

  /** The answer at `offset` of a layer that reads a file so. */
  function PieceReply(sectored: bool, all: seq<Byte>, offset: nat): Reply {
    if offset >= |all| then Done else Data(|all|, all[offset..offset + Stride(sectored, |all|, offset)])
  }

  lemma ChunkIsPiece(data: seq<Byte>, offset: nat)
    ensures ChunkReply(data, offset) == PieceReply(false, data, offset)
  {
  }

  lemma PieceContinues(sectored: bool, all: seq<Byte>, offset: nat)
    ensures Continues(PieceReply(sectored, all, offset), all, offset)
  {
  }

  lemma HalfPiece(sectored: bool, all: seq<Byte>, c: Byte, offset: nat)
    requires |all| == 80 && (forall i :: 0 <= i < 80 ==> all[i] == c) && (offset == 0 || offset == 40)
    ensures PieceReply(sectored, all, offset) == Data(80, seq(40, _ => c))
  {
    assert Stride(sectored, 80, offset) == 40;
    assert all[offset..offset + 40] == seq(40, _ => c);
  }

  /** Cutting an offset to 32 bits harms a read of a file that small unless both lie behind its end. */
  lemma WrapContinues(all: seq<Byte>, offset: nat)
    requires |all| < U32
    ensures Continues(PieceReply(true, all, offset % U32), all, offset) <==> offset < U32 || offset % U32 >= |all|
  {
    PieceContinues(true, all, offset % U32);
    assert offset < U32 ==> offset % U32 == offset;
  }

  /** A piece of another file continues a file at most where the two agree. */
  lemma OtherFile(all: seq<Byte>, below: seq<Byte>, offset: nat)
    requires offset < |all| && offset < |below| && all[offset] != below[offset]
    ensures !Continues(PieceReply(false, below, offset), all, offset)
  {
    var r := PieceReply(false, below, offset);
    assert r.chunk[0] == below[offset];
  }

  /** The file a volume path names, if it is a file. */
  ghost function FatBytes(v: Fat32Volume.Volume, chains: nat -> seq<nat>, path: Path): Option<seq<Byte>>
    requires Fat32.Reads(v, chains, path)
  {
    var fi := Fat32Volume.Lookup(v, chains, path);
    if fi.Some? && !fi.value.isDir then Some(Fat32Volume.Contents(v, chains, fi.value)) else None
  }

  lemma FatPieces(v: Fat32Volume.Volume, chains: nat -> seq<nat>, path: Path, offset: nat)
    requires Fat32.Reads(v, chains, path)
    ensures FatBytes(v, chains, path).Some? <==> Fat32.FileRead(v, chains, path, offset).Some?
    ensures FatBytes(v, chains, path).Some? ==>
      FatReply(Fat32.FileRead(v, chains, path, offset).value) ==
        PieceReply(true, FatBytes(v, chains, path).value, offset)
  {
  }

  function StaticBytes(root: StaticTree.Tree, path: Path): Option<seq<Byte>> {
    var n := StaticTree.Resolve(root, path);
    if n.Some? && n.value.File? then Some(n.value.data) else None
  }

  lemma StaticIsPiece(root: StaticTree.Tree, path: Path, offset: nat)
    requires StaticBytes(root, path).Some?
    ensures StaticReply(root, path, offset) == PieceReply(false, StaticBytes(root, path).value, offset)
  {
  }

  /** The overlay's share of handle_open: the nodes afterwards, and the error that stops it (0 for none). */
  function OpenNodes(nodes: seq<Overlay.Node>, root: StaticTree.Tree, oflags: nat,
    trimmed: Path): (r: (seq<Overlay.Node>, nat)) {
    var found := Overlay.Lookup(nodes, trimmed);
    var below := StaticTree.Resolve(root, trimmed);
    if oflags % 4 == 1 || oflags % 4 == 2 then
      if oflags / 4 % 2 == 1 then
        var (nodes', i) := Overlay.Allocated(nodes, trimmed, 0);
        if i.None? then (nodes', ENOSPC) else (TruncIf(nodes', oflags, trimmed), 0)
      else if found.Some? then (TruncIf(nodes, oflags, trimmed), 0)
      else (nodes, if below.None? then ENOENT else if below.value.Dir? then EISDIR else EACCES)
    else (nodes, if found.None? && below.None? then ENOENT else 0)
  }

  function TruncIf(nodes: seq<Overlay.Node>, oflags: nat, path: Path): seq<Overlay.Node> {
    var i := Overlay.Lookup(nodes, path);
    if oflags / 8 % 2 == 1 && i.Some? then Overlay.Stored(nodes, i.value, nodes[i.value].content.(dlen := 0)) else nodes
  }

  /** Where an append descriptor starts. */
  function StartOffset(nodes: seq<Overlay.Node>, oflags: nat, path: Path): nat {
    var i := Overlay.Lookup(nodes, path);
    if oflags / 16 % 2 == 1 && i.Some? then nodes[i.value].content.dlen else 0
  }

  class Server {
    const fds: FdTable.Table
    const overlay: Overlay.Table
    const fat: Fat32.Reader?
    const root: StaticTree.Tree

    constructor (fat: Fat32.Reader?, root: StaticTree.Tree)
      requires fat != null ==> fat.Valid()
      ensures Valid() && Files() == map[] && this.fat == fat && this.root == root
      ensures Overlay.Represents(Nodes(), map[]) && fresh(fds) && fresh(overlay) && fresh(fds.tbl)
        && fresh(overlay.nodes)
    {
      this.fat, this.root := fat, root;
      fds := new FdTable.Table();
      overlay := new Overlay.Table();
    }

    ghost predicate Valid()
      reads fds, fds.tbl, overlay.nodes, Below()
    {
      // an equation, so that proofs carry it whole instead of conjunct by conjunct
      (fds.Valid() && overlay.Valid() && (fat != null ==> fat.Valid())) == true
    }

    ghost function Files(): Files
      reads fds
    {
      fds.files
    }

    ghost function Nodes(): seq<Overlay.Node>
      reads overlay.nodes
    {
      overlay.nodes[..]
    }

    ghost function Failures(): nat
      reads fat
    {
      if fat == null then 0 else fat.failures
    }

    /** As long as the disk fails nothing, no request of any client meets a failure. */
    lemma NothingFails()
      requires Valid() && (fat != null ==> forall n :: fat.drv.device(n))
      ensures Failures() == 0
    {
      if fat != null { fat.NothingFails(); }
    }

    /** What the FAT32 reader works on. */
    ghost function Below(): set<object> { if fat == null then {} else {fat, fat.drv} }

    /** If the volume is asked for the path at all, its way and its file there are in order. */
    ghost predicate LowerReadable(path: Path) { fat != null ==> Fat32.Reads(fat.vol, fat.chains, path) }

    ghost predicate Readable(nodes: seq<Overlay.Node>, path: Path) {
      Overlay.Lookup(nodes, path).Some? || LowerReadable(path)
    }

    /** What the two read-only layers answer to a read: FAT32 before the compiled-in tree. */
    ghost function LowerReply(path: Path, offset: nat): Reply
      requires LowerReadable(path)
    {
      var inFat := if fat == null then None else Fat32.FileRead(fat.vol, fat.chains, path, offset % U32);
      if inFat.Some? then FatReply(inFat.value) else StaticReply(root, path, offset)
    }

    ghost function LowerBytes(path: Path): Option<seq<Byte>>
      requires LowerReadable(path)
    {
      var inFat := if fat == null then None else FatBytes(fat.vol, fat.chains, path);
      if inFat.Some? then inFat else StaticBytes(root, path)
    }

    /** FAT32 is the layer that holds the path. */
    ghost predicate FromFat(nodes: seq<Overlay.Node>, path: Path)
      requires Readable(nodes, path)
    {
      Overlay.Lookup(nodes, path).None? && fat != null && FatBytes(fat.vol, fat.chains, path).Some?
    }

    /** What a read of `path` at `offset` answers: the highest layer that holds the path. */
    ghost function ReadReply(nodes: seq<Overlay.Node>, path: Path, offset: nat): Reply
      requires Overlay.NodesOk(nodes) && Readable(nodes, path)
    {
      var i := Overlay.Lookup(nodes, path);
      if i.None? then LowerReply(path, offset)
      else if nodes[i.value].content.IsDir() then Err(EISDIR)
      else ChunkReply(nodes[i.value].content.Bytes(), offset)
    }

    /** The file a path names, whichever layer holds it. */
    ghost function FileBytes(nodes: seq<Overlay.Node>, path: Path): Option<seq<Byte>>
      requires Overlay.NodesOk(nodes) && Readable(nodes, path)
    {
      var i := Overlay.Lookup(nodes, path);
      if i.None? then LowerBytes(path)
      else if nodes[i.value].content.IsDir() then None
      else Some(nodes[i.value].content.Bytes())
    }

    /** Every answer, whichever layer holds the file, and at every 64-bit offset: FAT32 is asked for the offset
        modulo 2^32. */
    lemma ReplyIsPiece(nodes: seq<Overlay.Node>, path: Path, offset: nat)
      requires Overlay.NodesOk(nodes) && Readable(nodes, path) && FileBytes(nodes, path).Some?
      ensures ReadReply(nodes, path, offset) ==
        PieceReply(FromFat(nodes, path), FileBytes(nodes, path).value, if FromFat(nodes, path) then offset % U32
          else offset)
    {
      if Overlay.Lookup(nodes, path).Some? {
        ChunkIsPiece(FileBytes(nodes, path).value, offset);
      } else {
        LowerIsPiece(path, offset);
      }
    }

    lemma LowerIsPiece(path: Path, offset: nat)
      requires LowerReadable(path) && LowerBytes(path).Some?
      ensures var fromFat := fat != null && FatBytes(fat.vol, fat.chains, path).Some?;
        LowerReply(path, offset) ==
          PieceReply(fromFat, LowerBytes(path).value, if fromFat then offset % U32 else offset)
    {
      if fat != null { FatPieces(fat.vol, fat.chains, path, offset % U32); }
      if fat == null || FatBytes(fat.vol, fat.chains, path).None? { StaticIsPiece(root, path, offset); }
    }

    /** An answer continues the file, DONE only at its end, exactly when the offset fits 32 bits, the file is
        not FAT32's, or the offset modulo 2^32 still lies behind its end. */
    lemma ReplyContinues(nodes: seq<Overlay.Node>, path: Path, offset: nat)
      requires Overlay.NodesOk(nodes) && Readable(nodes, path) && FileBytes(nodes, path).Some?
      ensures var all := FileBytes(nodes, path).value;
        Continues(ReadReply(nodes, path, offset), all, offset) <==>
        offset < U32 || !FromFat(nodes, path) || offset % U32 >= |all|
    {
      var all := FileBytes(nodes, path).value;
      ReplyIsPiece(nodes, path, offset);
      if FromFat(nodes, path) {
        FatFits(path);
        WrapContinues(all, offset);
      } else {
        PieceContinues(false, all, offset);
      }
    }

    lemma FatFits(path: Path)
      requires fat != null && Fat32.Reads(fat.vol, fat.chains, path)
      ensures FatBytes(fat.vol, fat.chains, path).Some? ==> |FatBytes(fat.vol, fat.chains, path).value| < U32
    {
      Fat32Volume.LookupSize(fat.vol, fat.chains, path);
    }

    /** So reading a file of FAT32 on at 2^32 starts it over. */
    lemma FatReadWraps(nodes: seq<Overlay.Node>, path: Path)
      requires Overlay.NodesOk(nodes) && Readable(nodes, path) && FromFat(nodes, path)
      requires FileBytes(nodes, path).Some? && FileBytes(nodes, path).value != []
      ensures ReadReply(nodes, path, U32) == ReadReply(nodes, path, 0) && ReadReply(nodes, path, U32).Data?
    {
      ReplyIsPiece(nodes, path, U32);
      ReplyIsPiece(nodes, path, 0);
    }

    /** Every read of `path` answers with the right part of `all`, as long as the offset reaches its layer. */
    ghost predicate Serves(nodes: seq<Overlay.Node>, path: Path, all: seq<Byte>)
      requires Overlay.NodesOk(nodes) && Readable(nodes, path)
    {
      forall offset: nat {:trigger ReadReply(nodes, path, offset)} ::
        offset < U32 || !FromFat(nodes, path) ==> Continues(ReadReply(nodes, path, offset), all, offset)
    }

    /** Every read within 32 bits answers with the layer's next piece of `all`. */
    ghost predicate ServesPieces(nodes: seq<Overlay.Node>, path: Path, all: seq<Byte>)
      requires Overlay.NodesOk(nodes) && Readable(nodes, path)
    {
      forall offset: nat {:trigger ReadReply(nodes, path, offset)} ::
        offset < U32 ==> ReadReply(nodes, path, offset) == PieceReply(FromFat(nodes, path), all, offset)
    }

    /** Whichever layer holds it, a path that names a file serves exactly that file. */
    lemma FileServed(nodes: seq<Overlay.Node>, path: Path)
      requires Overlay.NodesOk(nodes) && Readable(nodes, path) && FileBytes(nodes, path).Some?
      ensures Serves(nodes, path, FileBytes(nodes, path).value)
        && ServesPieces(nodes, path, FileBytes(nodes, path).value)
    {
      forall offset: nat | offset < U32 || !FromFat(nodes, path)
        ensures Continues(ReadReply(nodes, path, offset), FileBytes(nodes, path).value, offset)
      {
        ReplyContinues(nodes, path, offset);
      }
      PiecesServed(nodes, path);
    }

    lemma PiecesServed(nodes: seq<Overlay.Node>, path: Path)
      requires Overlay.NodesOk(nodes) && Readable(nodes, path) && FileBytes(nodes, path).Some?
      ensures ServesPieces(nodes, path, FileBytes(nodes, path).value)
    {
      forall offset: nat | offset < U32
        ensures ReadReply(nodes, path, offset) == PieceReply(FromFat(nodes, path), FileBytes(nodes, path).value, offset)
      {
        PieceServed(nodes, path, offset);
      }
    }

    lemma PieceServed(nodes: seq<Overlay.Node>, path: Path, offset: nat)
      requires Overlay.NodesOk(nodes) && Readable(nodes, path) && FileBytes(nodes, path).Some? && offset < U32
      ensures ReadReply(nodes, path, offset) == PieceReply(FromFat(nodes, path), FileBytes(nodes, path).value, offset)
    {
      assert offset % U32 == offset;
      ReplyIsPiece(nodes, path, offset);
    }

    /** A file that FAT32 and the compiled-in tree both hold is opened on behalf of the tree and read from
        FAT32. */
    lemma OpenedStaticReadFat(nodes: seq<Overlay.Node>, path: Path, oflags: nat, offset: nat)
      requires Overlay.NodesOk(nodes) && Readable(nodes, path) && FromFat(nodes, path)
      requires StaticBytes(root, path).Some? && oflags % 4 == 0
      ensures OpenNodes(nodes, root, oflags, path) == (nodes, 0)
      ensures ReadReply(nodes, path, offset) ==
        PieceReply(true, FatBytes(fat.vol, fat.chains, path).value, offset % U32)
    {
      ReplyIsPiece(nodes, path, offset);
    }

    /** A file only FAT32 holds can be read by path but not opened. */
    lemma FatFilesOpenNot(nodes: seq<Overlay.Node>, path: Path, oflags: nat)
      requires Overlay.NodesOk(nodes) && fat != null && Fat32.Reads(fat.vol, fat.chains, path)
      requires Overlay.Lookup(nodes, path).None? && StaticTree.Resolve(root, path).None?
        && FatBytes(fat.vol, fat.chains, path).Some?
      requires oflags % 4 == 1 || oflags % 4 == 2 ==> oflags / 4 % 2 == 0
      ensures UpToNul(path) == path ==> OpenNodes(nodes, root, oflags, path) == (nodes, ENOENT)
      ensures Continues(ReadReply(nodes, path, 0), FatBytes(fat.vol, fat.chains, path).value, 0)
    {
      FatPieces(fat.vol, fat.chains, path, 0);
      PieceContinues(true, FatBytes(fat.vol, fat.chains, path).value, 0);
    }

    // -------------------------------------------------------------- reads that fail

    /** What the read-only layers answer when the FAT32 read went as `how`: a lost chain is taken for the end
        of the file, and if the way or the sector was lost the compiled-in tree is asked for the path. */
    ghost function LowerAnswer(path: Path, offset: nat, how: Fat32.Outcome): Reply
      requires LowerReadable(path)
    {
      if fat == null || how == Fat32.Right || !Fat32.IsFile(fat.vol, fat.chains, path) then LowerReply(path, offset)
      else if how == Fat32.LostChain then Done
      else StaticReply(root, path, offset)
    }

    lemma AnswerOfYield(path: Path, offset: nat, how: Fat32.Outcome, r: Option<(nat, seq<Byte>)>)
      requires fat != null && LowerReadable(path) && r == Fat32.Yield(fat.vol, fat.chains, path, offset % U32, how)
      ensures LowerAnswer(path, offset, how) == if r.Some? then FatReply(r.value) else StaticReply(root, path, offset)
    {
    }

    /** The answer to a read when the FAT32 read, if there was one, went as `how`. */
    ghost function AnswerTo(nodes: seq<Overlay.Node>, path: Path, offset: nat, how: Fat32.Outcome): Reply
      requires Overlay.NodesOk(nodes) && Readable(nodes, path)
    {
      if Overlay.Lookup(nodes, path).Some? then ReadReply(nodes, path, offset) else LowerAnswer(path, offset, how)
    }

    /** Right without failures, and whatever fails, only a file of FAT32 is affected: the answer is then the
        right one, DONE, or that of the compiled-in tree. */
    lemma AnswersWithin(nodes: seq<Overlay.Node>, path: Path, offset: nat, how: Fat32.Outcome)
      requires Overlay.NodesOk(nodes) && Readable(nodes, path)
      ensures how == Fat32.Right || !FromFat(nodes, path) ==>
        AnswerTo(nodes, path, offset, how) == ReadReply(nodes, path, offset)
      ensures AnswerTo(nodes, path, offset, how) in {ReadReply(nodes, path, offset), Done,
        StaticReply(root, path, offset)}
    {
    }

    /** A path that names no file is refused, whatever fails. */
    lemma NoFileRefused(nodes: seq<Overlay.Node>, path: Path, offset: nat, how: Fat32.Outcome)
      requires Overlay.NodesOk(nodes) && Readable(nodes, path) && FileBytes(nodes, path).None?
      ensures AnswerTo(nodes, path, offset, how).Err?
    {
    }

    /** Where the compiled-in tree holds a file of the same path, a lost sector makes its bytes show through:
        the answer continues the other file, and the one being read only if both agree there. */
    lemma StaticShowsThrough(nodes: seq<Overlay.Node>, path: Path, offset: nat, how: Fat32.Outcome)
      requires Overlay.NodesOk(nodes) && Readable(nodes, path) && FromFat(nodes, path) && offset < U32
      requires StaticBytes(root, path).Some? && (how == Fat32.LostWay || how == Fat32.LostSector)
      ensures var all, below := FileBytes(nodes, path).value, StaticBytes(root, path).value;
        && AnswerTo(nodes, path, offset, how) == PieceReply(false, below, offset)
        && (offset < |all| && offset < |below| && all[offset] != below[offset] ==>
              !Continues(AnswerTo(nodes, path, offset, how), all, offset))
    {
      var all, below := FileBytes(nodes, path).value, StaticBytes(root, path).value;
      StaticAnswer(nodes, path, offset, how);
      if offset < |all| && offset < |below| && all[offset] != below[offset] { OtherFile(all, below, offset); }
    }

    lemma StaticAnswer(nodes: seq<Overlay.Node>, path: Path, offset: nat, how: Fat32.Outcome)
      requires Overlay.NodesOk(nodes) && Readable(nodes, path) && FromFat(nodes, path)
      requires StaticBytes(root, path).Some? && (how == Fat32.LostWay || how == Fat32.LostSector)
      ensures AnswerTo(nodes, path, offset, how) == PieceReply(false, StaticBytes(root, path).value, offset)
    {
      StaticIsPiece(root, path, offset);
    }

    /** Such a pair of files: 80 times `A` on the volume, 80 times `B` compiled in.  Two reads in a row, the second
        of which loses its sector, return 40 of each. */
    lemma TwoFilesJoined(nodes: seq<Overlay.Node>, path: Path)
      requires Overlay.NodesOk(nodes) && Readable(nodes, path) && FromFat(nodes, path)
      requires FileBytes(nodes, path) == Some(seq(80, _ => 0x41)) && StaticBytes(root, path) == Some(seq(80, _ => 0x42))
      ensures AnswerTo(nodes, path, 0, Fat32.Right) == Data(80, seq(40, _ => 0x41))
      ensures AnswerTo(nodes, path, 40, Fat32.LostSector) == Data(80, seq(40, _ => 0x42))
    {
      AnswersWithin(nodes, path, 0, Fat32.Right);
      PieceServed(nodes, path, 0);
      StaticAnswer(nodes, path, 40, Fat32.LostSector);
      HalfPiece(true, seq(80, _ => 0x41), 0x41, 0);
      HalfPiece(false, seq(80, _ => 0x42), 0x42, 40);
    }

    /** A lost chain ends any file of FAT32 early. */
    lemma ChainLostEndsFile(nodes: seq<Overlay.Node>, path: Path, offset: nat)
      requires Overlay.NodesOk(nodes) && Readable(nodes, path) && FromFat(nodes, path)
      ensures AnswerTo(nodes, path, offset, Fat32.LostChain) == Done
      ensures offset < |FileBytes(nodes, path).value| ==>
        !Continues(AnswerTo(nodes, path, offset, Fat32.LostChain), FileBytes(nodes, path).value, offset)
    {
    }

    /** OP_READ; `how` is how the FAT32 read went, if there was one. */
    method HandleRead(offset: nat, path: Path) returns (m: Msg, ghost how: Fat32.Outcome)
      requires Valid() && Readable(Nodes(), UpToNul(path))
      modifies Below()
      ensures Nodes() == old(Nodes()) && Files() == old(Files())
      ensures Valid() && Failures() >= old(Failures()) && (Failures() == old(Failures()) ==> how == Fat32.Right)
      ensures Says(m, AnswerTo(Nodes(), UpToNul(path), offset, how))
    {
      var trimmed := UpToNul(path);
      var idx := overlay.Find(trimmed);
      if idx.Some? {
        how := Fat32.Right;
        m := ReadOverlay(idx.value, offset);
      } else {
        m, how := ReadLower(offset, path);
      }
    }

    /** Its overlay layer. */
    method ReadOverlay(idx: nat, offset: nat) returns (m: Msg)
      requires Valid() && idx < Overlay.MAX_NODES
      ensures Nodes()[idx].content.Ok()
      ensures Says(m, var c := Nodes()[idx].content; if c.IsDir() then Err(EISDIR) else ChunkReply(c.Bytes(), offset))
    {
      var mn := overlay.nodes[idx].content;
      assert mn == Nodes()[idx].content && mn.Ok();
      if mn.IsDir() { return Plain(RESP_ERROR, EISDIR); }
      var data := mn.data[..mn.dlen];
      if offset >= |data| { return Plain(RESP_DONE, 0); }
      var end := Min(offset + CHUNK_SIZE, |data|);
      m := DataMsg(|data|, data[offset..end]);
    }

    /** Its FAT32 and compiled-in layers. */
    method ReadLower(offset: nat, path: Path) returns (m: Msg, ghost how: Fat32.Outcome)
      requires Valid() && LowerReadable(UpToNul(path))
      modifies Below()
      ensures Nodes() == old(Nodes()) && Files() == old(Files())
      ensures Valid() && Failures() >= old(Failures()) && (Failures() == old(Failures()) ==> how == Fat32.Right)
      ensures Says(m, LowerAnswer(UpToNul(path), offset, how))
    {
      TrimTwice(path);
      how := Fat32.Right;
      if fat != null {
        var r;
        r, how := fat.ReadFile(UpToNul(path), offset % U32);
        AnswerOfYield(UpToNul(path), offset, how, r);
        if r.Some? {
          if r.value.1 == [] { return Plain(RESP_DONE, 0), how; }
          m := DataMsg(r.value.0, r.value.1);
          return;
        }
      }
      m := ReadStatic(offset, path);
    }

    method ReadStatic(offset: nat, path: Path) returns (m: Msg)
      ensures Says(m, StaticReply(root, UpToNul(path), offset))
    {
      TrimTwice(path);
      var node := StaticTree.Resolve(root, path);
      if node.None? { return Plain(RESP_ERROR, ENOENT); }
      if node.value.Dir? { return Plain(RESP_ERROR, EISDIR); }
      var data := node.value.data;
      if offset >= |data| { return Plain(RESP_DONE, 0); }
      var end := Min(offset + CHUNK_SIZE, |data|);
      m := DataMsg(|data|, data[offset..end]);
    }

    // -------------------------------------------------------------- descriptors

    /** Sends the answer; a chunk also moves the descriptor past it. */
    method Deliver(from: nat, fd: nat, ghost f: FdTable.OpenFile, r: Reply) returns (m: Msg)
      requires Valid() && (from, fd) in Files() && Files()[(from, fd)] == f && f.offset < U32
      requires (r.Data? ==> |r.chunk| <= CHUNK_SIZE) && !r.FdNum? && !r.Okay?
      modifies fds, fds.tbl
      ensures Valid() && Says(m, r) && Files() == old(Files())[(from, fd) := Past(f, r.Moved())]
      ensures Nodes() == old(Nodes()) && Failures() == old(Failures())
    {
      assert Files() == Files()[(from, fd) := Past(f, 0)];
      match r
      case Data(size, chunk) =>
        m := DataMsg(size, chunk);
        fds.Advance(from, fd, |chunk|);
      case Done => m := Plain(RESP_DONE, 0);
      case Err(e) => m := Plain(RESP_ERROR, e);
    }

    /** If the descriptor is open for reading, the volume is in order where it may be asked. */
    ghost predicate CanRead(from: nat, fd: nat)
      reads fds, overlay.nodes
    {
      (from, fd) in Files() && Files()[(from, fd)].Readable() ==> Readable(Nodes(), Files()[(from, fd)].path)
    }

    /** OP_READ_FD: the answer of a read at the descriptor's offset, which then moves past the chunk. */
    method HandleReadFd(from: nat, fd: nat) returns (m: Msg, ghost r: Reply, ghost how: Fat32.Outcome)
      requires Valid() && CanRead(from, fd)
      modifies Below(), fds, fds.tbl
      ensures Valid() && Failures() >= old(Failures()) && (Failures() == old(Failures()) ==> how == Fat32.Right)
      ensures Says(m, r) && Nodes() == old(Nodes())
      ensures (from, fd) !in old(Files()) ==> r == Err(EBADF) && Files() == old(Files())
      ensures (from, fd) in old(Files()) ==>
        var f := old(Files())[(from, fd)];
        && Files() == old(Files())[(from, fd) := Past(f, r.Moved())]
        && r == if f.Readable() then AnswerTo(Nodes(), f.path, f.offset, how) else Err(EACCES)
    {
      how := Fat32.Right;
      var e := fds.Get(from, fd);
      if e.None? { return Plain(RESP_ERROR, EBADF), Err(EBADF), how; }
      var f := e.value;
      if !f.Readable() {
        assert Files() == Files()[(from, fd) := Past(f, 0)];
        return Plain(RESP_ERROR, EACCES), Err(EACCES), how;
      }
      m, r, how := AnswerFd(from, fd, f);
    }

    /** Its answer on a readable descriptor. */
    method AnswerFd(from: nat, fd: nat, f: FdTable.OpenFile) returns (m: Msg, ghost r: Reply, ghost how: Fat32.Outcome)
      requires Valid() && (from, fd) in Files() && Files()[(from, fd)] == f && f.offset < U32
        && Readable(Nodes(), f.path)
      modifies Below(), fds, fds.tbl
      ensures Valid() && Failures() >= old(Failures()) && (Failures() == old(Failures()) ==> how == Fat32.Right)
      ensures Says(m, r) && Nodes() == old(Nodes())
      ensures Files() == old(Files())[(from, fd) := Past(f, r.Moved())]
      ensures r == AnswerTo(Nodes(), f.path, f.offset, how)
    {
      var answer;
      answer, how := AnswerAt(f.path, f.offset);
      m := Deliver(from, fd, f, answer);
      r := answer;
    }

    /** Its layers, highest first. */
    method AnswerAt(path: Path, offset: nat) returns (r: Reply, ghost how: Fat32.Outcome)
      requires Valid() && offset < U32 && Readable(Nodes(), path)
      modifies Below()
      ensures Valid() && Files() == old(Files()) && Nodes() == old(Nodes())
      ensures Failures() >= old(Failures()) && (r.Data? ==> |r.chunk| <= CHUNK_SIZE) && !r.FdNum? && !r.Okay?
      ensures Failures() == old(Failures()) ==> how == Fat32.Right
      ensures r == AnswerTo(Nodes(), path, offset, how)
    {
      how := Fat32.Right;
      var idx := overlay.Find(path);
      if idx.Some? {
        var mn := overlay.nodes[idx.value].content;
        assert mn == Nodes()[idx.value].content && mn.Ok();
        if mn.IsDir() { return Err(EISDIR), how; }
        var data := mn.data[..mn.dlen];
        if offset >= |data| { return Done, how; }
        var end := Min(offset + CHUNK_SIZE, |data|);
        return Data(|data|, data[offset..end]), how;
      }
      r, how := AnswerLower(path, offset);
    }

    /** Its FAT32 and compiled-in layers. */
    method AnswerLower(path: Path, offset: nat) returns (r: Reply, ghost how: Fat32.Outcome)
      requires Valid() && offset < U32 && LowerReadable(path)
      modifies Below()
      ensures Valid() && Files() == old(Files()) && Nodes() == old(Nodes())
      ensures Failures() >= old(Failures()) && (r.Data? ==> |r.chunk| <= CHUNK_SIZE) && !r.FdNum? && !r.Okay?
      ensures Failures() == old(Failures()) ==> how == Fat32.Right
      ensures r == LowerAnswer(path, offset, how)
    {
      how := Fat32.Right;
      assert offset % U32 == offset;
      if fat != null {
        var c;
        c, how := fat.ReadFile(path, offset % U32);
        AnswerOfYield(path, offset, how, c);
        if c.Some? { return if c.value.1 == [] then Done else Data(c.value.0, c.value.1), how; }
      }
      r := AnswerStatic(path, offset);
    }

    /** Its compiled-in layer. */
    method AnswerStatic(path: Path, offset: nat) returns (r: Reply)
      ensures r == StaticReply(root, path, offset)
    {
      var node := StaticTree.Resolve(root, path);
      if node.None? { return Err(ENOENT); }
      if node.value.Dir? { return Err(EISDIR); }
      var data := node.value.data;
      if offset >= |data| { return Done; }
      var end := Min(offset + CHUNK_SIZE, |data|);
      r := Data(|data|, data[offset..end]);
    }

    /** OP_OPEN. */
    method HandleOpen(from: nat, oflags: nat, path: Path) returns (m: Msg)
      requires Valid()
      modifies fds, fds.tbl, overlay.nodes
      ensures Valid() && Nodes() == OpenNodes(old(Nodes()), root, oflags, UpToNul(path)).0
      ensures OpenPost(from, oflags, UpToNul(path), old(Files()),
        OpenNodes(old(Nodes()), root, oflags, UpToNul(path)).1, m)
    {
      var trimmed := UpToNul(path);
      var errno := PrepareOpen(oflags, path);
      if errno != 0 { return Plain(RESP_ERROR, errno); }
      var start := 0;
      if oflags / 16 % 2 == 1 {
        var i := overlay.Find(trimmed);
        if i.Some? {
          start := overlay.nodes[i.value].content.dlen;
          assert Nodes()[i.value].content.Ok();
        }
      }
      m := AllocFd(from, oflags, trimmed, start);
    }

    /** An error stops the open; otherwise a descriptor was granted iff the process and the table had one
        left, and it is the lowest. */
    ghost predicate OpenPost(from: nat, oflags: nat, path: Path, was: Files, errno: nat, m: Msg)
      reads fds, overlay.nodes
    {
      if errno != 0 then Says(m, Err(errno)) && Files() == was
      else Granted(from, was, Files(), path, FdTable.OpenFile(oflags, StartOffset(Nodes(), oflags, path), path), m)
    }

    method AllocFd(from: nat, oflags: nat, path: Path, start: nat) returns (m: Msg)
      requires Valid() && start < U32
      modifies fds, fds.tbl
      ensures Valid() && Granted(from, old(Files()), Files(), path, FdTable.OpenFile(oflags, start, path), m)
    {
      ghost var was, f := Files(), FdTable.OpenFile(oflags, start, path);
      var fd := fds.AllocAt(from, path, oflags, start);
      if fd.None? {
        m := Plain(RESP_ERROR, EMFILE);
        NotGranted(from, was, path, f, m);
      } else {
        m := Plain(RESP_FD, fd.value);
        GrantedAt(from, was, Files(), path, f, m, fd.value);
      }
    }

    /** Everything handle_open does before it allocates a descriptor. */
    method PrepareOpen(oflags: nat, path: Path) returns (errno: nat)
      requires Valid()
      modifies overlay.nodes
      ensures Valid() && (Nodes(), errno) == OpenNodes(old(Nodes()), root, oflags, UpToNul(path))
    {
      var trimmed := UpToNul(path);
      TrimTwice(path);
      var amode := oflags % 4;
      var below := StaticTree.Resolve(root, path);
      if amode == 1 || amode == 2 {
        if oflags / 4 % 2 == 1 {
          var i := overlay.Alloc(trimmed, 0);
          if i.None? { return ENOSPC; }
        } else {
          var i := overlay.Find(trimmed);
          if i.None? {
            if below.None? { return ENOENT; }
            return if below.value.Dir? then EISDIR else EACCES;
          }
        }
        TruncateIf(oflags, trimmed);
      } else {
        var i := overlay.Find(trimmed);
        if i.None? && below.None? { return ENOENT; }
      }
      errno := 0;
    }

    /** O_TRUNC. */
    method TruncateIf(oflags: nat, path: Path)
      requires Valid()
      modifies overlay.nodes
      ensures Valid() && Nodes() == TruncIf(old(Nodes()), oflags, path)
    {
      if oflags / 8 % 2 == 1 {
        var i := overlay.Find(path);
        if i.Some? { overlay.Truncate(i.value); }
      }
    }

    /** OP_CLOSE. */
    method HandleClose(from: nat, fd: nat) returns (m: Msg)
      requires Valid()
      modifies fds, fds.tbl
      ensures Valid() && Files() == old(Files()) - {(from, fd)}
      ensures Says(m, if (from, fd) in old(Files()) then Okay else Err(EBADF))
    {
      var ok := fds.Free(from, fd);
      m := if ok then Plain(RESP_OK, 0) else Plain(RESP_ERROR, EBADF);
    }

    /** OP_SEEK. */
    method HandleSeek(from: nat, fd: nat, offset: nat) returns (m: Msg)
      requires Valid() && offset < U32
      modifies fds, fds.tbl
      ensures Valid()
      ensures (from, fd) !in old(Files()) ==> Says(m, Err(EBADF)) && Files() == old(Files())
      ensures (from, fd) in old(Files()) ==>
        Says(m, Okay) && Files() == old(Files())[(from, fd) := old(Files())[(from, fd)].(offset := offset)]
    {
      var e := fds.Get(from, fd);
      if e.None? { return Plain(RESP_ERROR, EBADF); }
      fds.Seek(from, fd, offset);
      m := Plain(RESP_OK, 0);
    }

    /** OP_WRITE_FD. */
    method HandleWriteFd(from: nat, fd: nat, chunkLen: nat, bytes: seq<Byte>) returns (m: Msg)
      requires Valid() && |bytes| == CHUNK_SIZE
      modifies fds, fds.tbl, overlay.nodes
      ensures Valid()
      ensures WriteFdPost(from, fd, bytes[..Min(chunkLen, CHUNK_SIZE)], old(Files()), Files(), old(Nodes()), Nodes(), m)
    {
      var e := fds.Get(from, fd);
      if e.None? { return Plain(RESP_ERROR, EBADF); }
      var f := e.value;
      if !f.Writable() { return Plain(RESP_ERROR, EACCES); }
      var idx := overlay.Find(f.path);
      if idx.None? { return Plain(RESP_ERROR, EACCES); }
      m := WriteNode(from, fd, f, idx.value, bytes[..Min(chunkLen, CHUNK_SIZE)]);
    }

    /** Its second half: the write itself. */
    method WriteNode(from: nat, fd: nat, f: FdTable.OpenFile, idx: nat, src: seq<Byte>) returns (m: Msg)
      requires Valid() && (from, fd) in Files() && Files()[(from, fd)] == f && idx < Overlay.MAX_NODES
      modifies fds, fds.tbl, overlay.nodes
      ensures Valid() && WroteNode(from, fd, f, idx, src, old(Files()), Files(), old(Nodes()), Nodes(), m)
    {
      var c := overlay.nodes[idx].content;
      assert c == Nodes()[idx].content && c.Ok();
      var at := if f.Appending() then c.dlen else f.offset;
      var ok := overlay.WriteChunk(idx, at, src);
      Overlay.WrittenExactly(c, at, src);
      if !ok { return Plain(RESP_ERROR, ENOSPC); }
      fds.Advance(from, fd, |src|);
      m := Plain(RESP_OK, 0);
    }

    /** OP_UNLINK: the node goes, and with it the descriptors opened under the same spelling. */
    method HandleUnlink(path: Path) returns (m: Msg)
      requires Valid()
      modifies fds, fds.tbl, overlay.nodes
      ensures Valid() && Nodes() == Overlay.Removed(old(Nodes()), UpToNul(path))
      ensures Files() == SparedByUnlink(old(Files()), path)
      ensures Says(m, if Overlay.Lookup(old(Nodes()), UpToNul(path)).Some? then Okay else Err(ENOENT))
    {
      var trimmed := UpToNul(path);
      fds.FreeAllPath(trimmed[..Min(|trimmed|, 64)]);
      var ok := overlay.Remove(trimmed);
      m := if ok then Plain(RESP_OK, 0) else Plain(RESP_ERROR, ENOENT);
    }

    // -------------------------------------------------------------- the dispatcher's unpacking

    /** OP_OPEN's arm: the open flags are one byte, the path 48. */
    method ServeOpen(from: nat, req: Msg) returns (m: Msg)
      requires Valid() && |req| == 8
      modifies fds, fds.tbl, overlay.nodes
      ensures Valid() && Nodes() == OpenNodes(old(Nodes()), root, req[1] % 256, PathIn(req[2..8])).0
      ensures OpenPost(from, req[1] % 256, PathIn(req[2..8]), old(Files()),
        OpenNodes(old(Nodes()), root, req[1] % 256, PathIn(req[2..8])).1, m)
    {
      var buf := UnpackShift(req[2..8], 48);
      assert buf == PathBytes(req[2..8]);
      m := HandleOpen(from, req[1] % 256, buf);
    }

    /** OP_WRITE_FD's arm. */
    method ServeWriteFd(from: nat, req: Msg, ghost src: seq<Byte>) returns (m: Msg)
      requires Valid() && |req| == 8 && req[2] == |src| && Carries(req[3..8], src)
      modifies fds, fds.tbl, overlay.nodes
      ensures Valid() && WriteFdPost(from, req[1] % 256, src, old(Files()), Files(), old(Nodes()), Nodes(), m)
    {
      var bytes := UnpackShift(req[3..8], CHUNK_SIZE);
      ShiftOfCarried(req[3..8], src, bytes);
      assert bytes[..Min(req[2], CHUNK_SIZE)] == src;
      m := HandleWriteFd(from, req[1] % 256, req[2], bytes);
    }
  }

  function PathBytes(words: seq<nat>): (s: seq<Byte>)
    requires |words| == 6
    ensures |s| == 48
  {
    seq(48, i requires 0 <= i < 48 => ByteOf(words, i))
  }

  /** The path six message words carry. */
  function PathIn(words: seq<nat>): Path
    requires |words| == 6
  {
    UpToNul(PathBytes(words))
  }

  /** Opening either grants the lowest free descriptor number or reports that there is none. */
  ghost predicate Granted(from: nat, was: Files, now: Files, path: Path, f: FdTable.OpenFile, m: Msg) {
    true == if FdTable.CanGrant(from, was, path) then
      exists n: nat :: FdTable.IsLowest(from, was, n) && Says(m, FdNum(n)) && now == was[(from, n) := f]
    else Says(m, Err(EMFILE)) && now == was
  }

  lemma NotGranted(from: nat, was: Files, path: Path, f: FdTable.OpenFile, m: Msg)
    requires !FdTable.CanGrant(from, was, path) && m == Plain(RESP_ERROR, EMFILE)
    ensures Granted(from, was, was, path, f, m)
  {
    assert Says(m, Err(EMFILE));
  }

  lemma GrantedAt(from: nat, was: Files, now: Files, path: Path, f: FdTable.OpenFile, m: Msg, n: nat)
    requires FdTable.CanGrant(from, was, path) && FdTable.IsLowest(from, was, n) && m == Plain(RESP_FD, n)
      && now == was[(from, n) := f]
    ensures Granted(from, was, now, path, f, m)
  {
    assert Says(m, FdNum(n));
  }

  /** What OP_WRITE_FD may do. */
  ghost predicate WriteFdPost(from: nat, fd: nat, src: seq<Byte>, was: Files, now: Files, nodes: seq<Overlay.Node>,
    nodes': seq<Overlay.Node>, m: Msg)
    requires Overlay.NodesOk(nodes)
  {
    if (from, fd) !in was then Says(m, Err(EBADF)) && now == was && nodes' == nodes
    else
      var f := was[(from, fd)];
      var i := Overlay.Lookup(nodes, f.path);
      if !f.Writable() || i.None? then Says(m, Err(EACCES)) && now == was && nodes' == nodes
      else
        WroteNode(from, fd, f, i.value, src, was, now, nodes, nodes', m)
  }

  ghost predicate WroteNode(from: nat, fd: nat, f: FdTable.OpenFile, i: nat, src: seq<Byte>, was: Files, now: Files,
    nodes: seq<Overlay.Node>, nodes': seq<Overlay.Node>, m: Msg)
    requires Overlay.NodesOk(nodes) && i < |nodes|
  {
    var c := nodes[i].content;
    var c' := Overlay.Written(c, if f.Appending() then c.dlen else f.offset, src);
    if c'.None? then Says(m, Err(ENOSPC)) && now == was && nodes' == nodes
    else
      && Says(m, Okay) && nodes' == Overlay.Stored(nodes, i, c'.value)
      && now == was[(from, fd) := Past(f, |src|)]
  }

  ghost function SparedByUnlink(was: Files, path: Path): Files {
    map k | k in was && was[k].path != UpToNul(path)[..Min(|UpToNul(path)|, 64)] :: was[k]
  }

  /** A descriptor whose file is unlinked outlives it exactly when it was opened under another spelling
      of the path, such as a trailing slash. */
  lemma UnlinkSparesAliases(was: Files, path: Path, k: (nat, nat))
    requires k in was && |UpToNul(path)| <= 64 && Overlay.KeyOf(was[k].path) == Overlay.KeyOf(path)
    ensures k in SparedByUnlink(was, path) <==> was[k].path != UpToNul(path)
  {
    assert UpToNul(path)[..|UpToNul(path)|] == UpToNul(path);
  }

  lemma UnlinkSparesTrailingSlash()
    ensures var open := FdTable.OpenFile(2, 0, [0x2F, 0x61, 0x2F]);
      Overlay.KeyOf(open.path) == Overlay.KeyOf([0x2F, 0x61])
        && (1, 0) in SparedByUnlink(map[(1, 0) := open], [0x2F, 0x61])
  {
    var p: Path, q: Path := [0x2F, 0x61, 0x2F], [0x2F, 0x61];
    assert UpToNul(p) == p && UpToNul(q) == q by {
      NoNul(p);
      NoNul(q);
    }
    assert Overlay.KeyOf(p) == q;
    UnlinkSparesAliases(map[(1, 0) := FdTable.OpenFile(2, 0, p)], q, (1, 0));
  }
}
