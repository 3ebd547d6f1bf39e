/**
 The libc heap: a size-class allocator over byte-addressed memory.

 Every block is a 16-byte header followed by its payload.  The free lists are threaded
 through the payloads of the freed blocks themselves, so the lists and the bytes that
 clients own live in one and the same memory; what keeps them apart is proved here.
 */
module HeapState {
  import opened Bytes

  const HEAP_START: nat := 0x0080_0000
  const PAGE: nat := 0x1000
  const HDR_SIZE: nat := 16
  const HDR_ALIGN: nat := 16
  const NUM_CLASSES: nat := 9
  const MAX_SMALL: nat := 2048
  const U32_LIMIT: nat := 0x1_0000_0000
  const U64_LIMIT: nat := 0x1_0000_0000_0000_0000
  /** SYS_MAP refuses addresses from here up. */
  const USER_VA_END: nat := 0x0000_8000_0000_0000

  const CLASS_SIZES: seq<nat> := [8, 16, 32, 64, 128, 256, 512, 1024, 2048]

  // ---------------------------------------------------------------- size classes

  function SizeClassFrom(size: nat, i: nat): (c: Option<nat>)
    requires i <= NUM_CLASSES
    requires i == 0 || CLASS_SIZES[i - 1] < size
    ensures c.Some? ==> i <= c.value < NUM_CLASSES && size <= CLASS_SIZES[c.value]
    ensures c.Some? && c.value > 0 ==> CLASS_SIZES[c.value - 1] < size
    ensures c.None? <==> size > MAX_SMALL
    decreases NUM_CLASSES - i, size
  {
    if i == NUM_CLASSES then None
    else if size <= CLASS_SIZES[i] then Some(i)
    else SizeClassFrom(size, i + 1)
  }

  /** The smallest class whose payload limit admits `size`, if any does. */
  function SizeClass(size: nat): (c: Option<nat>)
    ensures c.Some? ==> c.value < NUM_CLASSES && size <= CLASS_SIZES[c.value]
    ensures c.Some? && c.value > 0 ==> CLASS_SIZES[c.value - 1] < size
    ensures c.None? <==> size > MAX_SMALL
  {
    SizeClassFrom(size, 0)
  }

  /** Header plus payload, rounded up to the header alignment. */
  function TotalFor(size: nat): (t: nat)
    ensures t % HDR_ALIGN == 0 && HDR_SIZE + size <= t < HDR_SIZE + size + HDR_ALIGN
  {
    (HDR_SIZE + size + HDR_ALIGN - 1) / HDR_ALIGN * HDR_ALIGN
  }

  /** Spans that occur: one per class (classes 0 and 1 share theirs), and everything larger. */
  predicate SpanOk(total: nat) {
    total > HDR_SIZE + MAX_SMALL || total in {32, 48, 80, 144, 272, 528, 1040, 2064}
  }

  /** The span `malloc(size)` asks for. */
  function BlockTotal(size: nat): (t: nat)
    ensures t % HDR_ALIGN == 0 && 32 <= t && HDR_SIZE + size <= t && SpanOk(t)
  {
    var c := SizeClass(size);
    TotalFor(if c.Some? then CLASS_SIZES[c.value] else size)
  }

  // ---------------------------------------------------------------- memory

  /** Mapped bytes by address; an address that is not a key faults. */
  type Mem = map<nat, Byte>

  ghost predicate Mapped(mem: Mem, addr: nat, n: nat) {
    forall x :: addr <= x < addr + n ==> x in mem
  }

  function Slice(mem: Mem, addr: nat, n: nat): (s: seq<Byte>)
    requires Mapped(mem, addr, n)
    ensures |s| == n && forall i :: 0 <= i < n ==> s[i] == mem[addr + i]
  {
    seq(n, i requires 0 <= i < n => mem[addr + i])
  }

  function Load(mem: Mem, addr: nat, n: nat): nat
    requires Mapped(mem, addr, n)
  {
    LeValue(Slice(mem, addr, n))
  }

  function Store(mem: Mem, addr: nat, bytes: seq<Byte>): (m: Mem)
    ensures m.Keys == mem.Keys
    ensures forall x :: x in mem && !(addr <= x < addr + |bytes|) ==> m[x] == mem[x]
    ensures forall x :: x in mem && addr <= x < addr + |bytes| ==> m[x] == bytes[x - addr]
  {
    map x | x in mem :: if addr <= x < addr + |bytes| then bytes[x - addr] else mem[x]
  }

  /** Every byte of m outside [lo, hi) survives in m'. */
  ghost predicate KeptOutside(m: Mem, m': Mem, lo: nat, hi: nat) {
    && (forall x :: x in m ==> x in m')
    && (forall x :: x in m && !(lo <= x < hi) ==> m'[x] == m[x])
  }

  ghost predicate KeptIn(m: Mem, m': Mem, lo: nat, hi: nat) {
    forall x :: lo <= x < hi && x in m ==> x in m' && m'[x] == m[x]
  }

  lemma LoadKept(m: Mem, m': Mem, addr: nat, n: nat)
    requires Mapped(m, addr, n) && KeptIn(m, m', addr, addr + n)
    ensures Mapped(m', addr, n) && Load(m', addr, n) == Load(m, addr, n)
  {
    assert Slice(m', addr, n) == Slice(m, addr, n);
  }

  lemma LoadStored(m: Mem, addr: nat, v: nat, n: nat)
    requires Mapped(m, addr, n) && v < Pow256(n)
    ensures Mapped(Store(m, addr, LeBytes(v, n)), addr, n)
    ensures Load(Store(m, addr, LeBytes(v, n)), addr, n) == v
  {
    var m' := Store(m, addr, LeBytes(v, n));
    assert Slice(m', addr, n) == LeBytes(v, n);
    LeRoundTrip(v, n);
  }

  /** A u32 or u64 store, then a load of the same width. */
  lemma LoadStoredWord(m: Mem, addr: nat, v: nat, n: nat)
    requires Mapped(m, addr, n) && ((n == 4 && v < U32_LIMIT) || (n == 8 && v < U64_LIMIT))
    ensures Mapped(Store(m, addr, LeBytes(v, n)), addr, n)
    ensures Load(Store(m, addr, LeBytes(v, n)), addr, n) == v
  {
    PowConstants();
    LoadStored(m, addr, v, n);
  }

  // ---------------------------------------------------------------- the block table

  /** A block carved from the heap: what its header is meant to say. */
  datatype Block = Block(addr: nat, total: nat, live: bool) {
    function End(): nat { addr + total }
    function Payload(): nat { addr + HDR_SIZE }
    function Room(): int { total - HDR_SIZE }
  }

  /** A block that belongs on free list c. */
  ghost predicate FreeOfClass(b: Block, c: nat) {
    !b.live && b.Room() >= 0 && SizeClass(b.Room()) == Some(c)
  }

  /** The blocks fill [HEAP_START, bump) exactly, in address order, aligned. */
  ghost predicate Tiled(blocks: seq<Block>, bump: nat) {
    && (|blocks| == 0 ==> bump == HEAP_START)
    && (|blocks| > 0 ==> blocks[0].addr == HEAP_START && blocks[|blocks| - 1].End() == bump)
    && (forall i, j :: 0 <= i < |blocks| && j == i + 1 && j < |blocks| ==> blocks[j].addr == blocks[i].End())
    && (forall i {:trigger WellSized(blocks[i], bump)} :: 0 <= i < |blocks| ==> WellSized(blocks[i], bump))
    && (forall i {:trigger SpanOk(blocks[i].total)} :: 0 <= i < |blocks| ==> SpanOk(blocks[i].total))
    && (forall i, j :: 0 <= i < j < |blocks| ==> blocks[i].End() <= blocks[j].addr)
  }

  ghost predicate WellSized(b: Block, bump: nat) {
    && HEAP_START <= b.addr && b.addr % HDR_ALIGN == 0 && b.End() <= bump
    && b.total % HDR_ALIGN == 0 && 32 <= b.total < U32_LIMIT
  }

  ghost predicate HeaderOk(mem: Mem, b: Block) {
    && Mapped(mem, b.addr, 4) && Load(mem, b.addr, 4) == b.total
    && Mapped(mem, b.addr + 4, 4) && Load(mem, b.addr + 4, 4) == FlagsOf(b.live)
  }

  ghost predicate HeadersOk(mem: Mem, blocks: seq<Block>) {
    forall i {:trigger HeaderOk(mem, blocks[i])} :: 0 <= i < |blocks| ==> HeaderOk(mem, blocks[i])
  }

  /** The address of the k-th block of a list, or null past its end. */
  ghost function AddrAt(blocks: seq<Block>, list: seq<nat>, k: nat): nat {
    if k < |list| && list[k] < |blocks| then blocks[list[k]].addr else 0
  }

  ghost predicate LinkOk(mem: Mem, addr: nat, next: nat) {
    Mapped(mem, addr + HDR_SIZE, 8) && Load(mem, addr + HDR_SIZE, 8) == next
  }

  /** The k-th block of the list is free, of the list's class, and links to the next one. */
  ghost predicate NodeOk(mem: Mem, blocks: seq<Block>, list: seq<nat>, c: nat, k: nat)
    requires k < |list|
  {
    && list[k] < |blocks| && FreeOfClass(blocks[list[k]], c)
    && LinkOk(mem, blocks[list[k]].addr, AddrAt(blocks, list, k + 1))
  }

  /** `list` (block numbers, head first) is what following the links from `head` visits:
      free blocks of class c, none of them twice, ending in null. */
  ghost predicate ListOk(mem: Mem, blocks: seq<Block>, list: seq<nat>, c: nat, head: nat) {
    && head == AddrAt(blocks, list, 0)
    && (forall k {:trigger NodeOk(mem, blocks, list, c, k)} :: 0 <= k < |list| ==> NodeOk(mem, blocks, list, c, k))
    && (forall j, k :: 0 <= j < k < |list| ==> list[j] != list[k])
  }

  /** Every free small block is on the list of its class. */
  ghost predicate ListsComplete(blocks: seq<Block>, lists: seq<seq<nat>>)
    requires |lists| == NUM_CLASSES
  {
    forall i, c :: 0 <= i < |blocks| && 0 <= c < NUM_CLASSES && FreeOfClass(blocks[i], c) ==> i in lists[c]
  }

  datatype State = State(mem: Mem, heads: seq<nat>, bump: nat, top: nat)
  datatype Book = Book(blocks: seq<Block>, lists: seq<seq<nat>>)

  ghost predicate ListsOk(s: State, b: Book) {
    && |s.heads| == NUM_CLASSES && |b.lists| == NUM_CLASSES
    && (forall c {:trigger ListOk(s.mem, b.blocks, b.lists[c], c, s.heads[c])} ::
      0 <= c < NUM_CLASSES ==> ListOk(s.mem, b.blocks, b.lists[c], c, s.heads[c]))
    && ListsComplete(b.blocks, b.lists)
    && b.lists[0] == []
  }

  ghost predicate Inv(s: State, b: Book) {
    && Tiled(b.blocks, s.bump)
    && s.bump <= s.top <= USER_VA_END && s.top % PAGE == 0
    && (forall x :: HEAP_START <= x < s.top ==> x in s.mem)
    && HeadersOk(s.mem, b.blocks)
    && ListsOk(s, b)
  }

  // ---------------------------------------------------------------- frames

  lemma HeaderKept(m: Mem, m': Mem, b: Block)
    requires HeaderOk(m, b) && KeptIn(m, m', b.addr, b.addr + 8)
    ensures HeaderOk(m', b)
  {
    LoadKept(m, m', b.addr, 4);
    LoadKept(m, m', b.addr + 4, 4);
  }

  lemma HeadersKept(m: Mem, m': Mem, blocks: seq<Block>, lo: nat, hi: nat)
    requires HeadersOk(m, blocks) && KeptOutside(m, m', lo, hi)
    requires forall i :: 0 <= i < |blocks| ==> blocks[i].addr + 8 <= lo || hi <= blocks[i].addr
    ensures HeadersOk(m', blocks)
  {
    forall i | 0 <= i < |blocks| ensures HeaderOk(m', blocks[i]) {
      assert HeaderOk(m, blocks[i]);
      HeaderKept(m, m', blocks[i]);
    }
  }

  /** A list survives any change that spares its blocks and their links. */
  lemma ListKept(m: Mem, m': Mem, blocks: seq<Block>, blocks': seq<Block>, list: seq<nat>, c: nat, head: nat)
    requires ListOk(m, blocks, list, c, head)
    requires forall k :: 0 <= k < |list| ==> NodeSpared(m, m', blocks, blocks', list[k])
    ensures ListOk(m', blocks', list, c, head)
  {
    forall k | 0 <= k < |list| ensures NodeOk(m', blocks', list, c, k) {
      assert NodeOk(m, blocks, list, c, k) && NodeSpared(m, m', blocks, blocks', list[k]);
      assert k + 1 < |list| ==> NodeOk(m, blocks, list, c, k + 1) && NodeSpared(m, m', blocks, blocks', list[k + 1]);
      LoadKept(m, m', blocks[list[k]].Payload(), 8);
    }
    assert |list| > 0 ==> NodeOk(m, blocks, list, c, 0) && NodeSpared(m, m', blocks, blocks', list[0]);
  }

  ghost predicate NodeSpared(m: Mem, m': Mem, blocks: seq<Block>, blocks': seq<Block>, i: nat) {
    i < |blocks| ==>
      && i < |blocks'| && blocks'[i] == blocks[i]
      && KeptIn(m, m', blocks[i].Payload(), blocks[i].Payload() + 8)
  }

  /** Changing whether a block is live moves nothing. */
  lemma TiledFlip(blocks: seq<Block>, bump: nat, i: nat, live: bool)
    requires Tiled(blocks, bump) && i < |blocks|
    ensures Tiled(blocks[i := blocks[i].(live := live)], bump)
  {
    var blocks' := blocks[i := blocks[i].(live := live)];
    forall j | 0 <= j < |blocks'| ensures WellSized(blocks'[j], bump) && SpanOk(blocks'[j].total) {
      assert WellSized(blocks[j], bump) && SpanOk(blocks[j].total);
    }
  }

  /** A block carved at the bump pointer extends the tiling. */
  lemma TiledExtend(blocks: seq<Block>, bump: nat, total: nat)
    requires Tiled(blocks, bump) && total % HDR_ALIGN == 0 && SpanOk(total) && 32 <= total < U32_LIMIT
    ensures Tiled(blocks + [Block(bump, total, true)], bump + total)
  {
    var blocks' := blocks + [Block(bump, total, true)];
    assert |blocks| > 0 ==> WellSized(blocks[|blocks| - 1], bump);
    forall i | 0 <= i < |blocks'|
      ensures WellSized(blocks'[i], bump + total) && SpanOk(blocks'[i].total)
        && (i < |blocks| ==> blocks'[i].End() <= bump)
    {
      if i < |blocks| { assert WellSized(blocks[i], bump) && SpanOk(blocks[i].total); }
    }
  }

  /** Two different blocks share no byte. */
  lemma Apart(blocks: seq<Block>, bump: nat, i: nat, j: nat)
    requires Tiled(blocks, bump) && i < |blocks| && j < |blocks| && i != j
    ensures blocks[i].End() <= blocks[j].addr || blocks[j].End() <= blocks[i].addr
    ensures WellSized(blocks[i], bump) && WellSized(blocks[j], bump)
  {
    assert WellSized(blocks[i], bump) && WellSized(blocks[j], bump);
  }

  lemma ListedNode(s: State, b: Book, c: nat, k: nat)
    requires Inv(s, b) && c < NUM_CLASSES && k < |b.lists[c]|
    ensures ListOk(s.mem, b.blocks, b.lists[c], c, s.heads[c]) && NodeOk(s.mem, b.blocks, b.lists[c], c, k)
    ensures WellSized(b.blocks[b.lists[c][k]], s.bump)
  {
    assert ListOk(s.mem, b.blocks, b.lists[c], c, s.heads[c]);
    assert NodeOk(s.mem, b.blocks, b.lists[c], c, k);
    assert WellSized(b.blocks[b.lists[c][k]], s.bump);
  }

  // ---------------------------------------------------------------- the five ways the heap changes

  /** Mapping the page at `top` disturbs nothing. */
  lemma MapKeeps(s: State, b: Book, m': Mem)
    requires Inv(s, b) && s.top + PAGE <= USER_VA_END
    requires KeptOutside(s.mem, m', 0, 0)
    requires forall x :: s.top <= x < s.top + PAGE ==> x in m'
    ensures Inv(s.(mem := m', top := s.top + PAGE), b)
  {
    HeadersKept(s.mem, m', b.blocks, 0, 0);
    forall c | 0 <= c < NUM_CLASSES ensures ListOk(m', b.blocks, b.lists[c], c, s.heads[c]) {
      ListKept(s.mem, m', b.blocks, b.blocks, b.lists[c], c, s.heads[c]);
    }
  }

  /** What `malloc` writes into a fresh header. */
  function WriteHeader(mem: Mem, addr: nat, total: nat): (m: Mem)
    ensures m.Keys == mem.Keys && KeptOutside(mem, m, addr, addr + HDR_SIZE)
  {
    var m1 := Store(mem, addr, LeBytes(total % U32_LIMIT, 4));
    var m2 := Store(m1, addr + 4, LeBytes(1, 4));
    Store(m2, addr + 8, LeBytes(0, 8))
  }

  lemma WriteHeaderOk(mem: Mem, addr: nat, total: nat)
    requires Mapped(mem, addr, HDR_SIZE) && total < U32_LIMIT
    ensures HeaderOk(WriteHeader(mem, addr, total), Block(addr, total, true))
  {
    assert total % U32_LIMIT == total;
    var m1 := Store(mem, addr, LeBytes(total, 4));
    var m2 := Store(m1, addr + 4, LeBytes(1, 4));
    var m3 := Store(m2, addr + 8, LeBytes(0, 8));
    assert m3 == WriteHeader(mem, addr, total);
    assert Mapped(m3, addr, 4) && Load(m3, addr, 4) == total by {
      LoadStoredWord(mem, addr, total, 4);
      LoadKept(m1, m3, addr, 4);
    }
    assert Mapped(m3, addr + 4, 4) && Load(m3, addr + 4, 4) == 1 by {
      LoadStoredWord(m1, addr + 4, 1, 4);
      LoadKept(m2, m3, addr + 4, 4);
    }
  }

  /** A fresh header says what its block is exactly when the total fits the 32 bits kept for it: a larger
      block loses its size as it is carved. */
  lemma HeaderExactly(mem: Mem, addr: nat, total: nat)
    requires Mapped(mem, addr, HDR_SIZE)
    ensures HeaderOk(WriteHeader(mem, addr, total), Block(addr, total, true)) <==> total < U32_LIMIT
  {
    if total < U32_LIMIT {
      WriteHeaderOk(mem, addr, total);
    } else {
      HeaderWraps(mem, addr, total, total % U32_LIMIT);
    }
  }

  lemma HeaderWraps(mem: Mem, addr: nat, total: nat, low: nat)
    requires Mapped(mem, addr, HDR_SIZE) && low == total % U32_LIMIT && low != total
    ensures !HeaderOk(WriteHeader(mem, addr, total), Block(addr, total, true))
  {
    assert low % U32_LIMIT == low;
    var m := WriteHeader(mem, addr, low);
    WriteHeaderOk(mem, addr, low);
    assert Load(m, addr, 4) == low;
    assert m == WriteHeader(mem, addr, total);
  }

  ghost function Carved(s: State, total: nat): State {
    s.(mem := WriteHeader(s.mem, s.bump, total), bump := s.bump + total)
  }

  /** Carving a new live block at the bump pointer. */
  lemma CarveKeeps(s: State, b: Book, total: nat)
    requires Inv(s, b)
    requires total % HDR_ALIGN == 0 && SpanOk(total) && 32 <= total < U32_LIMIT && s.bump + total <= s.top
    ensures Inv(Carved(s, total), b.(blocks := b.blocks + [Block(s.bump, total, true)]))
  {
    var m' := WriteHeader(s.mem, s.bump, total);
    var blocks' := b.blocks + [Block(s.bump, total, true)];
    TiledExtend(b.blocks, s.bump, total);
    CarveHeaders(s, b, total);
    forall c | 0 <= c < NUM_CLASSES ensures ListOk(m', blocks', b.lists[c], c, s.heads[c]) {
      CarveList(s, b, total, c);
    }
    CarveComplete(b.blocks, b.lists, Block(s.bump, total, true));
  }

  lemma CarveHeaders(s: State, b: Book, total: nat)
    requires Inv(s, b) && SpanOk(total) && 32 <= total < U32_LIMIT && s.bump + total <= s.top
    ensures HeadersOk(WriteHeader(s.mem, s.bump, total), b.blocks + [Block(s.bump, total, true)])
  {
    var m' := WriteHeader(s.mem, s.bump, total);
    var blocks' := b.blocks + [Block(s.bump, total, true)];
    WriteHeaderOk(s.mem, s.bump, total);
    forall i | 0 <= i < |blocks'| ensures HeaderOk(m', blocks'[i]) {
      if i < |b.blocks| {
        assert WellSized(b.blocks[i], s.bump) && HeaderOk(s.mem, b.blocks[i]);
        HeaderKept(s.mem, m', b.blocks[i]);
      }
    }
  }

  lemma CarveList(s: State, b: Book, total: nat, c: nat)
    requires Inv(s, b) && c < NUM_CLASSES
    ensures ListOk(WriteHeader(s.mem, s.bump, total), b.blocks + [Block(s.bump, total, true)], b.lists[c], c,
      s.heads[c])
  {
    var m' := WriteHeader(s.mem, s.bump, total);
    var blocks' := b.blocks + [Block(s.bump, total, true)];
    assert ListOk(s.mem, b.blocks, b.lists[c], c, s.heads[c]);
    forall k | 0 <= k < |b.lists[c]| ensures NodeSpared(s.mem, m', b.blocks, blocks', b.lists[c][k]) {
      ListedNode(s, b, c, k);
    }
    ListKept(s.mem, m', b.blocks, blocks', b.lists[c], c, s.heads[c]);
  }

  lemma CarveComplete(blocks: seq<Block>, lists: seq<seq<nat>>, nb: Block)
    requires |lists| == NUM_CLASSES && ListsComplete(blocks, lists) && nb.live
    ensures ListsComplete(blocks + [nb], lists)
  {
    forall j, d | 0 <= j < |blocks + [nb]| && 0 <= d < NUM_CLASSES && FreeOfClass((blocks + [nb])[j], d)
      ensures j in lists[d]
    {
      assert FreeOfClass(blocks[j], d);
    }
  }

  /** Setting the flags word of block i. */
  function SetFlags(mem: Mem, addr: nat, flags: nat): (m: Mem)
    ensures m.Keys == mem.Keys && KeptOutside(mem, m, addr + 4, addr + 8)
  {
    Store(mem, addr + 4, LeBytes(flags, 4))
  }

  function FlagsOf(live: bool): nat { if live then 1 else 0 }

  lemma FlagsSet(m: Mem, b: Block, live: bool)
    requires HeaderOk(m, b)
    ensures HeaderOk(SetFlags(m, b.addr, FlagsOf(live)), b.(live := live))
  {
    LoadKept(m, SetFlags(m, b.addr, FlagsOf(live)), b.addr, 4);
    LoadStoredWord(m, b.addr + 4, FlagsOf(live), 4);
  }

  lemma FlipHeader(m: Mem, blocks: seq<Block>, bump: nat, i: nat, live: bool)
    requires Tiled(blocks, bump) && HeadersOk(m, blocks) && i < |blocks|
    ensures HeadersOk(SetFlags(m, blocks[i].addr, FlagsOf(live)), blocks[i := blocks[i].(live := live)])
  {
    var m' := SetFlags(m, blocks[i].addr, FlagsOf(live));
    var blocks' := blocks[i := blocks[i].(live := live)];
    forall j | 0 <= j < |blocks'| ensures HeaderOk(m', blocks'[j]) {
      assert HeaderOk(m, blocks[j]);
      if j != i {
        Apart(blocks, bump, i, j);
        HeaderKept(m, m', blocks[j]);
      } else {
        FlagsSet(m, blocks[i], live);
      }
    }
  }

  ghost function Popped(s: State, c: nat): State
    requires c < |s.heads| && Mapped(s.mem, s.heads[c] + HDR_SIZE, 8)
  {
    s.(mem := SetFlags(s.mem, s.heads[c], 1), heads := s.heads[c := Load(s.mem, s.heads[c] + HDR_SIZE, 8)])
  }

  ghost function PoppedBook(b: Book, c: nat): Book
    requires c < |b.lists| && b.lists[c] != [] && b.lists[c][0] < |b.blocks|
  {
    var i := b.lists[c][0];
    Book(b.blocks[i := b.blocks[i].(live := true)], b.lists[c := b.lists[c][1..]])
  }

  /** A non-null head is the address of the first listed block. */
  lemma HeadBlock(s: State, b: Book, c: nat)
    requires Inv(s, b) && c < NUM_CLASSES && s.heads[c] != 0
    ensures b.lists[c] != [] && b.lists[c][0] < |b.blocks| && s.heads[c] == b.blocks[b.lists[c][0]].addr
    ensures FreeOfClass(b.blocks[b.lists[c][0]], c)
    ensures LinkOk(s.mem, s.heads[c], AddrAt(b.blocks, b.lists[c], 1))
    ensures Mapped(s.mem, s.heads[c], HDR_SIZE + 8)
  {
    assert ListOk(s.mem, b.blocks, b.lists[c], c, s.heads[c]);
    ListedNode(s, b, c, 0);
  }

  /** Reusing the first block of list c. */
  lemma PopKeeps(s: State, b: Book, c: nat)
    requires Inv(s, b) && c < NUM_CLASSES && s.heads[c] != 0
    requires b.lists[c] != [] && b.lists[c][0] < |b.blocks|
    requires Mapped(s.mem, s.heads[c] + HDR_SIZE, 8)
    ensures Inv(Popped(s, c), PoppedBook(b, c))
  {
    HeadBlock(s, b, c);
    var i := b.lists[c][0];
    var s', b' := Popped(s, c), PoppedBook(b, c);
    TiledFlip(b.blocks, s.bump, i, true);
    FlipHeader(s.mem, b.blocks, s.bump, i, true);
    forall d | 0 <= d < NUM_CLASSES ensures ListOk(s'.mem, b'.blocks, b'.lists[d], d, s'.heads[d]) {
      PopList(s, b, c, d);
    }
    PopComplete(b.blocks, b.lists, c);
  }

  lemma PopList(s: State, b: Book, c: nat, d: nat)
    requires Inv(s, b) && c < NUM_CLASSES && d < NUM_CLASSES && s.heads[c] != 0
    requires b.lists[c] != [] && b.lists[c][0] < |b.blocks|
    requires Mapped(s.mem, s.heads[c] + HDR_SIZE, 8)
    ensures ListOk(Popped(s, c).mem, PoppedBook(b, c).blocks, PoppedBook(b, c).lists[d], d, Popped(s, c).heads[d])
  {
    HeadBlock(s, b, c);
    var i := b.lists[c][0];
    var s', b' := Popped(s, c), PoppedBook(b, c);
    var rest := b'.lists[d];
    assert ListOk(s.mem, b.blocks, b.lists[d], d, s.heads[d]);
    if d == c { ListTail(s.mem, b.blocks, b.lists[c], c, s.heads[c]); }
    forall k | 0 <= k < |rest| ensures NodeSpared(s.mem, s'.mem, b.blocks, b'.blocks, rest[k]) {
      var k' := if d == c then k + 1 else k;
      assert rest[k] == b.lists[d][k'];
      ListedNode(s, b, d, k');
      Apart(b.blocks, s.bump, i, rest[k]);
    }
    ListKept(s.mem, s'.mem, b.blocks, b'.blocks, rest, d, s'.heads[d]);
  }

  lemma PopComplete(blocks: seq<Block>, lists: seq<seq<nat>>, c: nat)
    requires |lists| == NUM_CLASSES && ListsComplete(blocks, lists)
    requires c < NUM_CLASSES && lists[c] != [] && lists[c][0] < |blocks|
    ensures ListsComplete(PoppedBook(Book(blocks, lists), c).blocks, PoppedBook(Book(blocks, lists), c).lists)
  {
    var b' := PoppedBook(Book(blocks, lists), c);
    forall j, d | 0 <= j < |b'.blocks| && 0 <= d < NUM_CLASSES && FreeOfClass(b'.blocks[j], d)
      ensures j in b'.lists[d]
    {
      assert j != lists[c][0] && FreeOfClass(blocks[j], d);
      assert j in lists[d];
    }
  }

  lemma ListTail(m: Mem, blocks: seq<Block>, list: seq<nat>, c: nat, head: nat)
    requires ListOk(m, blocks, list, c, head) && list != []
    ensures ListOk(m, blocks, list[1..], c, AddrAt(blocks, list, 1))
  {
    forall k | 0 <= k < |list| - 1 ensures NodeOk(m, blocks, list[1..], c, k) {
      assert NodeOk(m, blocks, list, c, k + 1);
    }
  }

  /** What `free` leaves in memory for a small block. */
  ghost function Pushed(s: State, addr: nat, c: nat): State
    requires c < |s.heads|
  {
    State(Store(SetFlags(s.mem, addr, 0), addr + HDR_SIZE, LeBytes(s.heads[c], 8)), s.heads[c := addr], s.bump, s.top)
  }

  /** Filing live block i under its class. */
  lemma PushKeeps(s: State, b: Book, i: nat, c: nat)
    requires Inv(s, b) && i < |b.blocks| && b.blocks[i].live
    requires c < NUM_CLASSES && b.blocks[i].Room() >= 0 && SizeClass(b.blocks[i].Room()) == Some(c)
    ensures Inv(Pushed(s, b.blocks[i].addr, c),
                Book(b.blocks[i := b.blocks[i].(live := false)], b.lists[c := [i] + b.lists[c]]))
  {
    var a := b.blocks[i].addr;
    var s' := Pushed(s, a, c);
    var blocks' := b.blocks[i := b.blocks[i].(live := false)];
    var lists' := b.lists[c := [i] + b.lists[c]];
    TiledFlip(b.blocks, s.bump, i, false);
    PushHeaders(s, b, i, c);
    forall d | 0 <= d < NUM_CLASSES ensures ListOk(s'.mem, blocks', lists'[d], d, s'.heads[d]) {
      PushList(s, b, i, c, d);
      if d == c {
        PushLink(s, b, i, c);
        ListCons(s'.mem, blocks', b.lists[c], c, s.heads[c], i);
      }
    }
    PushComplete(b.blocks, b.lists, i, c);
    assert WellSized(b.blocks[i], s.bump);
  }

  lemma PushHeaders(s: State, b: Book, i: nat, c: nat)
    requires Inv(s, b) && i < |b.blocks| && c < NUM_CLASSES
    ensures HeadersOk(Pushed(s, b.blocks[i].addr, c).mem, b.blocks[i := b.blocks[i].(live := false)])
  {
    var a := b.blocks[i].addr;
    var blocks' := b.blocks[i := b.blocks[i].(live := false)];
    FlipHeader(s.mem, b.blocks, s.bump, i, false);
    forall j | 0 <= j < |blocks'| ensures blocks'[j].addr + 8 <= a + HDR_SIZE || a + HDR_SIZE + 8 <= blocks'[j].addr {
      if j != i { Apart(b.blocks, s.bump, i, j); }
    }
    HeadersKept(SetFlags(s.mem, a, 0), Pushed(s, a, c).mem, blocks', a + HDR_SIZE, a + HDR_SIZE + 8);
  }

  lemma PushList(s: State, b: Book, i: nat, c: nat, d: nat)
    requires Inv(s, b) && i < |b.blocks| && b.blocks[i].live && c < NUM_CLASSES && d < NUM_CLASSES
    ensures i !in b.lists[d]
    ensures ListOk(Pushed(s, b.blocks[i].addr, c).mem, b.blocks[i := b.blocks[i].(live := false)], b.lists[d], d,
      s.heads[d])
  {
    var s' := Pushed(s, b.blocks[i].addr, c);
    var blocks' := b.blocks[i := b.blocks[i].(live := false)];
    assert ListOk(s.mem, b.blocks, b.lists[d], d, s.heads[d]);
    forall k | 0 <= k < |b.lists[d]|
      ensures NodeSpared(s.mem, s'.mem, b.blocks, blocks', b.lists[d][k]) && b.lists[d][k] != i
    {
      ListedNode(s, b, d, k);
      Apart(b.blocks, s.bump, i, b.lists[d][k]);
    }
    ListKept(s.mem, s'.mem, b.blocks, blocks', b.lists[d], d, s.heads[d]);
  }

  lemma PushLink(s: State, b: Book, i: nat, c: nat)
    requires Inv(s, b) && i < |b.blocks| && c < NUM_CLASSES
    ensures LinkOk(Pushed(s, b.blocks[i].addr, c).mem, b.blocks[i].addr, s.heads[c])
  {
    assert WellSized(b.blocks[i], s.bump);
    HeadBound(s, b, c);
    LoadStoredWord(SetFlags(s.mem, b.blocks[i].addr, 0), b.blocks[i].Payload(), s.heads[c], 8);
  }

  lemma HeadBound(s: State, b: Book, c: nat)
    requires Inv(s, b) && c < NUM_CLASSES
    ensures s.heads[c] < USER_VA_END
  {
    assert ListOk(s.mem, b.blocks, b.lists[c], c, s.heads[c]);
    if |b.lists[c]| > 0 { ListedNode(s, b, c, 0); }
  }

  lemma PushComplete(blocks: seq<Block>, lists: seq<seq<nat>>, i: nat, c: nat)
    requires |lists| == NUM_CLASSES && ListsComplete(blocks, lists) && i < |blocks| && c < NUM_CLASSES
    requires blocks[i].Room() >= 0 && SizeClass(blocks[i].Room()) == Some(c)
    ensures ListsComplete(blocks[i := blocks[i].(live := false)], lists[c := [i] + lists[c]])
  {
    var blocks' := blocks[i := blocks[i].(live := false)];
    var lists' := lists[c := [i] + lists[c]];
    forall j, d | 0 <= j < |blocks'| && 0 <= d < NUM_CLASSES && FreeOfClass(blocks'[j], d) ensures j in lists'[d] {
      if j != i { assert FreeOfClass(blocks[j], d) && j in lists[d]; }
    }
  }

  lemma ListCons(m: Mem, blocks: seq<Block>, list: seq<nat>, c: nat, head: nat, i: nat)
    requires ListOk(m, blocks, list, c, head) && i < |blocks| && i !in list
    requires FreeOfClass(blocks[i], c) && LinkOk(m, blocks[i].addr, head)
    ensures ListOk(m, blocks, [i] + list, c, blocks[i].addr)
  {
    var list' := [i] + list;
    forall k | 0 <= k < |list'| ensures NodeOk(m, blocks, list', c, k) {
      if k > 0 { assert NodeOk(m, blocks, list, c, k - 1); }
      assert AddrAt(blocks, list', k + 1) == AddrAt(blocks, list, k);
    }
  }

  /** Marking a large block free: it is never filed. */
  lemma RetireKeeps(s: State, b: Book, i: nat)
    requires Inv(s, b) && i < |b.blocks| && b.blocks[i].live && b.blocks[i].Room() > MAX_SMALL
    ensures Inv(s.(mem := SetFlags(s.mem, b.blocks[i].addr, 0)),
      b.(blocks := b.blocks[i := b.blocks[i].(live := false)]))
  {
    var a := b.blocks[i].addr;
    var m' := SetFlags(s.mem, a, 0);
    var blocks' := b.blocks[i := b.blocks[i].(live := false)];
    TiledFlip(b.blocks, s.bump, i, false);
    FlipHeader(s.mem, b.blocks, s.bump, i, false);
    forall d | 0 <= d < NUM_CLASSES ensures ListOk(m', blocks', b.lists[d], d, s.heads[d]) {
      forall k | 0 <= k < |b.lists[d]| ensures NodeSpared(s.mem, m', b.blocks, blocks', b.lists[d][k]) {
        ListedNode(s, b, d, k);
        Apart(b.blocks, s.bump, i, b.lists[d][k]);
      }
      ListKept(s.mem, m', b.blocks, blocks', b.lists[d], d, s.heads[d]);
    }
    forall j, d | 0 <= j < |blocks'| && 0 <= d < NUM_CLASSES && FreeOfClass(blocks'[j], d) ensures j in b.lists[d] {
      assert j != i && FreeOfClass(b.blocks[j], d);
    }
  }

  /** A client may write anything into the payload of a live block. */
  lemma ClientWriteKeeps(s: State, b: Book, i: nat, addr: nat, bytes: seq<Byte>)
    requires Inv(s, b) && i < |b.blocks| && b.blocks[i].live
    requires b.blocks[i].Payload() <= addr && addr + |bytes| <= b.blocks[i].End()
    ensures Inv(s.(mem := Store(s.mem, addr, bytes)), b)
  {
    var m' := Store(s.mem, addr, bytes);
    var hi := addr + |bytes|;
    forall j | 0 <= j < |b.blocks| ensures b.blocks[j].addr + 8 <= addr || hi <= b.blocks[j].addr {
      if j != i { Apart(b.blocks, s.bump, i, j); }
    }
    HeadersKept(s.mem, m', b.blocks, addr, hi);
    forall d | 0 <= d < NUM_CLASSES ensures ListOk(m', b.blocks, b.lists[d], d, s.heads[d]) {
      forall k | 0 <= k < |b.lists[d]| ensures NodeSpared(s.mem, m', b.blocks, b.blocks, b.lists[d][k]) {
        ListedNode(s, b, d, k);
        Apart(b.blocks, s.bump, i, b.lists[d][k]);
      }
      ListKept(s.mem, m', b.blocks, b.blocks, b.lists[d], d, s.heads[d]);
    }
  }
}
