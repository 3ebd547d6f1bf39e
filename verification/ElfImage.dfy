/** The two ELF loaders, in the kernel and in the exec server: the page-by-page copying of PT_LOAD
    segments and the memory image it builds. */
module ElfImage {
  import opened Bytes

  const PAGE: nat := 4096
  const PHDR: nat := 56
  const PT_LOAD: nat := 1
  const U32: nat := 0x1_0000_0000
  const U64: nat := 0x1_0000_0000_0000_0000

  /** A segment to load: its bytes in the file are `data`, its size in memory `memsz`. */
  datatype Segment = Segment(vaddr: nat, memsz: nat, data: seq<Byte>, pflags: nat) {
    predicate Exec() { pflags % 2 == 1 }
    predicate Write() { pflags / 2 % 2 == 1 }
    function FirstPage(): nat { vaddr / PAGE }
    /** How many pages the loaders map for it: the sum is taken in 64 bits. */
    function Pages(): nat { (vaddr % PAGE + memsz + 4095) % U64 / PAGE }
    predicate Covers(vpage: nat) { FirstPage() <= vpage < FirstPage() + Pages() }
    predicate CoversByte(i: nat) { Covers((vaddr + i) / PAGE) }
    /** The byte i places after its start. */
    function ByteAt(i: int): Byte { if 0 <= i < |data| then data[i] else 0 }
  }

  /** The bytes a page of the segment must hold. */
  function PageBytes(s: Segment, vpage: nat): (b: seq<Byte>)
    ensures |b| == PAGE && forall j :: 0 <= j < PAGE ==> b[j] == s.ByteAt(vpage * PAGE + j - s.vaddr)
  {
    BytesFrom(s, vpage * PAGE - s.vaddr, PAGE)
  }

  /** n bytes from i places after the segment's start on. */
  function BytesFrom(s: Segment, i: int, n: nat): (b: seq<Byte>)
    ensures |b| == n && forall j :: 0 <= j < n ==> b[j] == s.ByteAt(i + j)
    decreases n, i
  {
    if n == 0 then [] else BytesFrom(s, i, n - 1) + [s.ByteAt(i + n - 1)]
  }

  /** Access rights of a user page. */
  datatype Rights = Rights(writable: bool, executable: bool)
  datatype Mapping = Mapping(frame: nat, rights: Rights)

  /** Physical frames and what they hold; an address space by page number. */
  type Ram = map<nat, seq<Byte>>
  type Vas = map<nat, Mapping>

  function KernelRights(s: Segment): Rights { Rights(s.Write(), s.Exec()) }

  /** The exec server makes every segment without execute permission writable. */
  function ExecRights(s: Segment): Rights {
    if s.Exec() then Rights(s.Write(), true) else Rights(true, false)
  }

  /** The loaders agree on a segment's rights exactly when it is not read-only data. */
  lemma RightsAgree(s: Segment)
    ensures KernelRights(s) == ExecRights(s) <==> s.Exec() || s.Write()
  {
  }

  // ---------------------------------------------------------------- program headers

  function Field(data: seq<Byte>, at: nat, n: nat): nat
    requires at + n <= |data|
  {
    LeValue(data[at..at + n])
  }

  /** One program header: None if it or its bytes lie outside the file, Some(None) if nothing is loaded. */
  function Header(data: seq<Byte>, off: nat): Option<Option<Segment>> {
    if off + PHDR > |data| then None
    else if Field(data, off, 4) != PT_LOAD then Some(None)
    else
      var pflags, offset, vaddr := Field(data, off + 4, 4), Field(data, off + 8, 8), Field(data, off + 16, 8);
      var filesz, memsz := Field(data, off + 32, 8), Field(data, off + 40, 8);
      if offset + filesz > |data| then None
      else if memsz == 0 then Some(None)
      else Some(Some(Segment(vaddr, memsz, data[offset..offset + filesz], pflags)))
  }

  /** The segments the first n headers ask for, in order. */
  function Segments(data: seq<Byte>, phOff: nat, n: nat): Option<seq<Segment>> {
    if n == 0 then Some([])
    else
      var before, last := Segments(data, phOff, n - 1), Header(data, phOff + (n - 1) * PHDR);
      if before.None? || last.None? then None
      else Some(before.value + if last.value.Some? then [last.value.value] else [])
  }

  // ---------------------------------------------------------------- headers as they are written

  /** A program header by its fields, in their order in the file. */
  datatype Phdr = Phdr(ptype: nat, pflags: nat, offset: nat, vaddr: nat, paddr: nat, filesz: nat, memsz: nat,
    align: nat) {
    predicate Fits() {
      && ptype < U32 && pflags < U32 && offset < U64 && vaddr < U64 && paddr < U64 && filesz < U64 && memsz < U64
      && align < U64
    }
    /** Its bytes in the file. */
    function Bytes(): (b: seq<Byte>)
      ensures |b| == PHDR
    {
      LeBytes(ptype, 4) + LeBytes(pflags, 4) + LeBytes(offset, 8) + LeBytes(vaddr, 8) + LeBytes(paddr, 8)
      + LeBytes(filesz, 8) + LeBytes(memsz, 8) + LeBytes(align, 8)
    }
    predicate InBounds(data: seq<Byte>) { ptype == PT_LOAD ==> offset + filesz <= |data| }
    /** It asks for something to be loaded. */
    predicate Loads() { ptype == PT_LOAD && memsz > 0 }
    /** The segment it asks for: file bytes from `offset` on, at `vaddr`. */
    function Wanted(data: seq<Byte>): Segment
      requires offset + filesz <= |data|
    {
      Segment(vaddr, memsz, data[offset..offset + filesz], pflags)
    }
  }

  lemma ReadBack(data: seq<Byte>, at: nat, v: nat, n: nat)
    requires at + n <= |data| && data[at..at + n] == LeBytes(v, n) && (n == 4 || n == 8)
      && v < (if n == 4 then U32 else U64)
    ensures Field(data, at, n) == v
  {
    PowConstants();
    LeRoundTrip(v, n);
  }

  /** A header is read as it was written: nothing if it is not PT_LOAD or takes no memory, refused exactly if its
      file range lies outside the file, otherwise the segment with exactly its values. */
  lemma HeaderRead(data: seq<Byte>, off: nat, h: Phdr)
    requires h.Fits() && off + PHDR <= |data| && data[off..off + PHDR] == h.Bytes()
    ensures Header(data, off) ==
      if !h.InBounds(data) then None else Some(if h.Loads() then Some(h.Wanted(data)) else None)
  {
    HeaderFields(data, off, data[off..off + PHDR], h);
  }

  lemma HeaderFields(data: seq<Byte>, off: nat, b: seq<Byte>, h: Phdr)
    requires h.Fits() && off + PHDR <= |data| && data[off..off + PHDR] == b && b == h.Bytes()
    ensures Field(data, off, 4) == h.ptype && Field(data, off + 4, 4) == h.pflags
      && Field(data, off + 8, 8) == h.offset && Field(data, off + 16, 8) == h.vaddr
      && Field(data, off + 32, 8) == h.filesz && Field(data, off + 40, 8) == h.memsz
  {
    HeaderSlices(h);
    FieldAt(data, off, b, 0, h.ptype, 4);
    FieldAt(data, off, b, 4, h.pflags, 4);
    FieldAt(data, off, b, 8, h.offset, 8);
    FieldAt(data, off, b, 16, h.vaddr, 8);
    FieldAt(data, off, b, 32, h.filesz, 8);
    FieldAt(data, off, b, 40, h.memsz, 8);
  }

  lemma HeaderSlices(h: Phdr)
    ensures var b := h.Bytes();
      && b[0..4] == LeBytes(h.ptype, 4) && b[4..8] == LeBytes(h.pflags, 4) && b[8..16] == LeBytes(h.offset, 8)
      && b[16..24] == LeBytes(h.vaddr, 8) && b[32..40] == LeBytes(h.filesz, 8) && b[40..48] == LeBytes(h.memsz, 8)
  {
  }

  lemma FieldAt(data: seq<Byte>, off: nat, b: seq<Byte>, at: nat, v: nat, n: nat)
    requires off + PHDR <= |data| && b == data[off..off + PHDR] && at + n <= PHDR && b[at..at + n] == LeBytes(v, n)
    requires (n == 4 || n == 8) && v < (if n == 4 then U32 else U64)
    ensures Field(data, off + at, n) == v
  {
    var c := data[off + at..off + at + n];
    forall k | 0 <= k < n ensures c[k] == b[at..at + n][k] { assert b[at + k] == data[off + at + k]; }
    assert c == b[at..at + n];
    ReadBack(data, off + at, v, n);
  }

  /** The file's header table is hs. */
  ghost predicate HeadersAt(data: seq<Byte>, phOff: nat, hs: seq<Phdr>) {
    forall i: nat {:trigger hs[i]} :: i < |hs| ==> HeaderAt(data, phOff, hs[i], i)
  }

  ghost predicate HeaderAt(data: seq<Byte>, phOff: nat, h: Phdr, i: nat) {
    var off := phOff + i * PHDR;
    h.Fits() && off + PHDR <= |data| && data[off..off + PHDR] == h.Bytes()
  }

  /** The whole table lies in the file; if not, some header is out of bounds and the file refused. */
  ghost predicate TableInFile(data: seq<Byte>, phOff: nat, n: nat) { n == 0 || phOff + n * PHDR <= |data| }

  /** Any table in the file is a table of headers. */
  lemma {:induction false} TableDecodes(data: seq<Byte>, phOff: nat, n: nat) returns (hs: seq<Phdr>)
    requires TableInFile(data, phOff, n)
    ensures |hs| == n && HeadersAt(data, phOff, hs)
    decreases n
  {
    if n == 0 { return []; }
    assert phOff + (n - 1) * PHDR <= phOff + n * PHDR;
    var front := TableDecodes(data, phOff, n - 1);
    var off := phOff + (n - 1) * PHDR;
    var last := HeaderDecodes(data[off..off + PHDR]);
    hs := front + [last];
    forall i: nat | i < n ensures HeaderAt(data, phOff, hs[i], i) {
      if i < n - 1 { assert HeaderAt(data, phOff, front[i], i); }
    }
  }

  lemma HeaderDecodes(b: seq<Byte>) returns (h: Phdr)
    requires |b| == PHDR
    ensures h.Fits() && h.Bytes() == b
  {
    var ptype := ValueOf(b[0..4]);
    var pflags := ValueOf(b[4..8]);
    var offset := ValueOf(b[8..16]);
    var vaddr := ValueOf(b[16..24]);
    var paddr := ValueOf(b[24..32]);
    var filesz := ValueOf(b[32..40]);
    var memsz := ValueOf(b[40..48]);
    var align := ValueOf(b[48..56]);
    h := Phdr(ptype, pflags, offset, vaddr, paddr, filesz, memsz, align);
    Pieces(b);
  }

  lemma Pieces(b: seq<Byte>)
    requires |b| == PHDR
    ensures b == b[0..4] + b[4..8] + b[8..16] + b[16..24] + b[24..32] + b[32..40] + b[40..48] + b[48..56]
  {
  }

  lemma ValueOf(b: seq<Byte>) returns (v: nat)
    requires |b| == 4 || |b| == 8
    ensures v < (if |b| == 4 then U32 else U64) && LeBytes(v, |b|) == b
  {
    v := LeValue(b);
    LeBytesOfValue(b);
    LeRoundTrip(v, |b|);
    PowConstants();
  }

  ghost predicate AllInBounds(data: seq<Byte>, hs: seq<Phdr>) { forall i :: 0 <= i < |hs| ==> hs[i].InBounds(data) }

  /** The segments a table asks for. */
  ghost function Chosen(data: seq<Byte>, hs: seq<Phdr>): seq<Segment>
    requires AllInBounds(data, hs)
  {
    if hs == [] then []
    else
      var h := hs[|hs| - 1];
      assert h.InBounds(data);
      Chosen(data, hs[..|hs| - 1]) + if h.Loads() then [h.Wanted(data)] else []
  }

  /** Both loaders go by exactly those, and refuse the file exactly when one of them lies outside it. */
  lemma {:induction false} SegmentsAre(data: seq<Byte>, phOff: nat, hs: seq<Phdr>)
    requires HeadersAt(data, phOff, hs)
    ensures Segments(data, phOff, |hs|) == if AllInBounds(data, hs) then Some(Chosen(data, hs)) else None
    decreases |hs|
  {
    if hs != [] {
      var n := |hs| - 1;
      HeadersFront(data, phOff, hs);
      SegmentsAre(data, phOff, hs[..n]);
      HeaderRead(data, phOff + n * PHDR, hs[n]);
      OneMoreInBounds(data, hs);
    }
  }

  lemma HeadersFront(data: seq<Byte>, phOff: nat, hs: seq<Phdr>)
    requires HeadersAt(data, phOff, hs) && hs != []
    ensures HeadersAt(data, phOff, hs[..|hs| - 1]) && HeaderAt(data, phOff, hs[|hs| - 1], |hs| - 1)
  {
    var front := hs[..|hs| - 1];
    forall i: nat | i < |front| ensures HeaderAt(data, phOff, front[i], i) { assert front[i] == hs[i]; }
  }

  lemma OneMoreInBounds(data: seq<Byte>, hs: seq<Phdr>)
    requires hs != []
    ensures AllInBounds(data, hs) <==> AllInBounds(data, hs[..|hs| - 1]) && hs[|hs| - 1].InBounds(data)
  {
    var front := hs[..|hs| - 1];
    if AllInBounds(data, front) && hs[|hs| - 1].InBounds(data) {
      forall i | 0 <= i < |hs| ensures hs[i].InBounds(data) { assert i < |front| ==> front[i] == hs[i]; }
    }
  }

  lemma {:induction false} ChosenHas(data: seq<Byte>, hs: seq<Phdr>, i: nat) returns (j: nat)
    requires AllInBounds(data, hs) && i < |hs| && hs[i].Loads()
    ensures hs[i].InBounds(data) && j < |Chosen(data, hs)| && Chosen(data, hs)[j] == hs[i].Wanted(data)
    decreases |hs|
  {
    var n := |hs| - 1;
    if i < n { j := ChosenHas(data, hs[..n], i); } else { j := |Chosen(data, hs[..n])|; }
  }

  /** A table that is refused at its n-th header is refused. */
  lemma {:induction false} StaysRefused(data: seq<Byte>, phOff: nat, n: nat, all: nat)
    requires n <= all && Segments(data, phOff, n).None?
    ensures Segments(data, phOff, all).None?
    decreases all
  {
    if n < all { StaysRefused(data, phOff, n, all - 1); }
  }

  /** The two permission bits the loaders look at: 1 is execute, 2 is write (4, read, is implied). */
  lemma FlagBits(s: Segment, x: bool, w: bool, rest: nat)
    requires s.pflags == (if x then 1 else 0) + (if w then 2 else 0) + 4 * rest
    ensures KernelRights(s) == Rights(w, x) && ExecRights(s) == Rights(w || !x, x)
  {
  }

  // ---------------------------------------------------------------- the image

  /** Page `vpage` is mapped with rights r to a frame holding what the segment has there. */
  ghost predicate PageBuilt(ram: Ram, vas: Vas, s: Segment, r: Rights, vpage: nat) {
    && vpage in vas && vas[vpage].rights == r
    && vas[vpage].frame in ram && ram[vas[vpage].frame] == PageBytes(s, vpage)
  }

  ghost predicate Built(ram: Ram, vas: Vas, s: Segment, r: Rights, n: nat) {
    forall vpage: nat {:trigger PageBuilt(ram, vas, s, r, vpage)} ::
      s.FirstPage() <= vpage < s.FirstPage() + n ==> PageBuilt(ram, vas, s, r, vpage)
  }

  /** No two segments share a page. */
  ghost predicate Apart(segs: seq<Segment>) {
    forall i: nat, j: nat, vpage: nat {:trigger segs[i].Covers(vpage), segs[j].Covers(vpage)} ::
      i < j < |segs| && segs[i].Covers(vpage) ==> !segs[j].Covers(vpage)
  }

  /** The byte a user address reads as. */
  ghost function Image(ram: Ram, vas: Vas, a: nat): Option<Byte> {
    if a / PAGE in vas && vas[a / PAGE].frame in ram && |ram[vas[a / PAGE].frame]| == PAGE
    then Some(ram[vas[a / PAGE].frame][a % PAGE]) else None
  }

  /** Pages of a built segment read as the segment, zeros before, between and after. */
  lemma BuiltReads(ram: Ram, vas: Vas, s: Segment, r: Rights, a: nat)
    requires Built(ram, vas, s, r, s.Pages()) && s.Covers(a / PAGE)
    ensures Image(ram, vas, a) == Some(s.ByteAt(a - s.vaddr))
  {
    assert PageBuilt(ram, vas, s, r, a / PAGE);
    assert a / PAGE * PAGE + a % PAGE == a;
  }

  /** The pages cover the whole segment, whatever the alignment of its address, exactly when their number
      was computed without overflow. */
  lemma SegmentCovered(s: Segment)
    requires s.memsz < U64
    ensures (forall i: nat :: i < s.memsz ==> s.CoversByte(i)) <==> s.vaddr % PAGE + s.memsz + 4095 < U64
  {
    if s.vaddr % PAGE + s.memsz + 4095 < U64 {
      forall i: nat | i < s.memsz ensures s.CoversByte(i) { ByteCovered(s, i); }
    } else {
      var last := s.memsz - 1;
      assert s.Pages() <= 1;
      assert (s.vaddr + last) / PAGE > s.vaddr / PAGE + 1;
      assert !s.CoversByte(last);
    }
  }

  lemma ByteCovered(s: Segment, i: nat)
    requires i < s.memsz && s.vaddr % PAGE + s.memsz + 4095 < U64
    ensures s.Covers((s.vaddr + i) / PAGE)
  {
    var off, first := s.vaddr % PAGE, s.vaddr / PAGE;
    assert s.vaddr + i == first * PAGE + (off + i);
    var q := (off + i) / PAGE;
    assert (s.vaddr + i) / PAGE == first + q;
    assert q <= (off + s.memsz - 1) / PAGE < (off + s.memsz + 4095) / PAGE;
  }

  /** File bytes first, then zeros up to the memory size, wherever the count did not overflow. */
  lemma SegmentImage(ram: Ram, vas: Vas, s: Segment, r: Rights, i: nat)
    requires Built(ram, vas, s, r, s.Pages()) && i < s.memsz && s.vaddr % PAGE + s.memsz + 4095 < U64
    ensures Image(ram, vas, s.vaddr + i) == Some(if i < |s.data| then s.data[i] else 0)
  {
    ByteCovered(s, i);
    BuiltReads(ram, vas, s, r, s.vaddr + i);
  }

  /** Wherever both loaders built the segments, both images read the same. */
  lemma SameImage(ram: Ram, vas: Vas, ram': Ram, vas': Vas, s: Segment, a: nat)
    requires Built(ram, vas, s, KernelRights(s), s.Pages()) && Built(ram', vas', s, ExecRights(s), s.Pages())
      && s.Covers(a / PAGE)
    ensures Image(ram, vas, a) == Image(ram', vas', a) && Image(ram, vas, a).Some?
  {
    BuiltReads(ram, vas, s, KernelRights(s), a);
    BuiltReads(ram', vas', s, ExecRights(s), a);
  }

  // ---------------------------------------------------------------- one page

  /** Copying `n` bytes into a zeroed page where the loaders do gives the segment's page. */
  lemma CopyIsPage(s: Segment, k: nat, page: seq<Byte>)
    requires |page| == PAGE
    requires var off := s.vaddr % PAGE;
      var start, at := if k == 0 then 0 else k * PAGE - off, if k == 0 then off else 0;
      var n := if start < |s.data| then Min(|s.data| - start, PAGE - at) else 0;
      forall j {:trigger page[j]} ::
        0 <= j < PAGE ==> page[j] == if at <= j < at + n then s.data[start + (j - at)] else 0
    ensures page == PageBytes(s, s.FirstPage() + k)
  {
    var off, first := s.vaddr % PAGE, s.vaddr / PAGE;
    forall j | 0 <= j < PAGE ensures page[j] == s.ByteAt((first + k) * PAGE + j - s.vaddr) {
      assert (first + k) * PAGE + j - s.vaddr == k * PAGE + j - off;
    }
  }

  /** Physical memory, the frames left to hand out, and the address space being built.  `maps` is what the kernel
      answers to each request to map a page. */
  class Machine {
    const maps: nat -> bool
    var asked: nat
    var ram: Ram
    var pool: seq<nat>
    var vas: Vas

    ghost predicate Valid()
      reads this
    {
      (forall f :: f in ram ==> |ram[f]| == PAGE) && Free(ram, pool)
    }

    /** A frame nobody uses, with unknown contents; None when there is none left. */
    method Alloc() returns (frame: Option<nat>)
      requires Valid()
      modifies `ram, `pool
      ensures Valid() && (frame.None? <==> old(pool) == [])
      ensures |pool| == if frame.None? then 0 else |old(pool)| - 1
      ensures frame.None? ==> ram == old(ram)
      ensures frame.Some? ==>
        frame.value !in old(ram) && frame.value in ram && ram == old(ram)[frame.value := ram[frame.value]]
    {
      if pool == [] { return None; }
      var f: nat, junk: seq<Byte> := pool[0], *;
      if |junk| != PAGE { junk := seq(PAGE, _ => 0); }
      FreeTail(ram, pool, junk);
      ram, pool := ram[f := junk], pool[1..];
      frame := Some(f);
    }

    method Fill(frame: nat)
      requires Valid() && frame in ram
      modifies `ram
      ensures Valid() && ram == old(ram)[frame := seq(PAGE, _ => 0)]
    {
      ram := ram[frame := seq(PAGE, _ => 0)];
    }

    /** copy_nonoverlapping into a frame. */
    method Copy(frame: nat, at: nat, src: seq<Byte>)
      requires Valid() && frame in ram && at + |src| <= PAGE
      modifies `ram
      ensures Valid() && ram == old(ram)[frame := old(ram)[frame][..at] + src + old(ram)[frame][at + |src|..]]
    {
      ram := ram[frame := ram[frame][..at] + src + ram[frame][at + |src|..]];
    }

    /** The kernel's answer to one more request to map a page. */
    method Ask() returns (ok: bool)
      modifies `asked
      ensures asked == old(asked) + 1 && ok == maps(old(asked))
    {
      ok := maps(asked);
      asked := asked + 1;
    }

    /** Maps a page that has no mapping yet; on one that has, whether it is replaced is left open. */
    method Map(vpage: nat, frame: nat, r: Rights) returns (ok: bool)
      modifies `vas, `asked
      ensures asked == old(asked) + 1 && ok == maps(old(asked))
      ensures !ok ==> vas == old(vas)
      ensures ok && vpage !in old(vas) ==> vas == old(vas)[vpage := Mapping(frame, r)]
      ensures ok ==> vas.Keys == old(vas).Keys + {vpage} && forall v ::
        v in old(vas) && v != vpage ==> vas[v] == old(vas)[v]
    {
      ok := Ask();
      var replace: bool := *;
      if ok && (vpage !in vas || replace) { vas := vas[vpage := Mapping(frame, r)]; }
    }
  }

  /** The frames left are all different and in use by nobody. */
  ghost predicate Free(ram: Ram, pool: seq<nat>) {
    && (forall k :: 0 <= k < |pool| ==> pool[k] !in ram)
    && (forall j, k :: 0 <= j < k < |pool| ==> pool[j] != pool[k])
  }

  lemma FreeTail(ram: Ram, pool: seq<nat>, page: seq<Byte>)
    requires Free(ram, pool) && pool != []
    ensures Free(ram[pool[0] := page], pool[1..])
  {
    var rest := pool[1..];
    forall k | 0 <= k < |rest| ensures rest[k] !in ram[pool[0] := page] { assert rest[k] == pool[k + 1]; }
    forall j, k | 0 <= j < k < |rest|
      ensures rest[j] != rest[k] { assert rest[j] == pool[j + 1] && rest[k] == pool[k + 1]; }
  }

  /** There are frames for `pages` pages, and the next `asks` requests to map one will be granted. */
  ghost predicate Room(maps: nat -> bool, asked: nat, frames: nat, pages: nat, asks: nat) {
    pages <= frames && forall k: nat {:trigger Maps(maps, asked, k)} :: k < asks ==> Maps(maps, asked, k)
  }

  ghost predicate Maps(maps: nat -> bool, asked: nat, k: nat) { maps(asked + k) }

  lemma RoomJoin(maps: nat -> bool, asked: nat, frames: nat, pages: nat, asks: nat, more: nat, moreAsks: nat)
    requires pages <= frames
    ensures Room(maps, asked, frames, pages + more, asks + moreAsks) <==>
      Room(maps, asked, frames, pages, asks) && Room(maps, asked + asks, frames - pages, more, moreAsks)
  {
    var later := asked + asks;
    if Room(maps, asked, frames, pages + more, asks + moreAsks) {
      forall k: nat | k < moreAsks ensures Maps(maps, later, k) { assert Maps(maps, asked, asks + k); }
    }
    if Room(maps, asked, frames, pages, asks) && Room(maps, asked + asks, frames - pages, more, moreAsks) {
      forall k: nat | k < asks + moreAsks ensures Maps(maps, asked, k) {
        if k >= asks { assert Maps(maps, asked + asks, k - asks); }
      }
    }
  }

  /** A page more of a kind that takes one frame and one request, or one frame and two. */
  lemma RoomForOne(maps: nat -> bool, asked: nat, frames: nat, asks: nat)
    requires 1 <= asks <= 2
    ensures Room(maps, asked, frames, 1, asks) <==> frames >= 1 && maps(asked) && (asks == 2 ==> maps(asked + 1))
  {
    assert Maps(maps, asked, 0) == maps(asked) && Maps(maps, asked, 1) == maps(asked + 1);
  }

  lemma RoomLess(maps: nat -> bool, asked: nat, frames: nat, pages: nat, asks: nat, fewer: nat, fewerAsks: nat)
    requires fewer <= pages && fewerAsks <= asks && Room(maps, asked, frames, pages, asks)
    ensures Room(maps, asked, frames, fewer, fewerAsks)
  {
  }

  lemma NoRoomFor(maps: nat -> bool, asked: nat, frames: nat, pages: nat, asks: nat, more: nat, moreAsks: nat)
    requires pages <= more && asks <= moreAsks && !Room(maps, asked, frames, pages, asks)
    ensures !Room(maps, asked, frames, more, moreAsks)
  {
    if Room(maps, asked, frames, more, moreAsks) { RoomLess(maps, asked, frames, more, moreAsks, pages, asks); }
  }

  /** How many pages the segments take. */
  function PagesOf(segs: seq<Segment>): nat {
    if segs == [] then 0 else PagesOf(segs[..|segs| - 1]) + segs[|segs| - 1].Pages()
  }

  lemma {:induction false} FewerPages(segs: seq<Segment>, n: nat)
    requires n <= |segs|
    ensures PagesOf(segs[..n]) <= PagesOf(segs)
    decreases |segs|
  {
    if n < |segs| {
      FewerPages(segs[..|segs| - 1], n);
      assert segs[..|segs| - 1][..n] == segs[..n];
    } else {
      assert segs[..n] == segs;
    }
  }

  /** The segments of the first headers come first. */
  lemma {:induction false} SegmentsPrefix(data: seq<Byte>, phOff: nat, n: nat, all: nat)
    requires n <= all && Segments(data, phOff, all).Some?
    ensures Segments(data, phOff, n).Some? && Segments(data, phOff, n).value <= Segments(data, phOff, all).value
    decreases all
  {
    if n < all { SegmentsPrefix(data, phOff, n, all - 1); }
  }

  /** A loader that has no room for the first headers has none for all. */
  lemma NoRoom(data: seq<Byte>, phOff: nat, n: nat, all: nat, maps: nat -> bool, asked: nat, frames: nat, per: nat)
    requires n <= all && 1 <= per <= 2
    requires Segments(data, phOff, n).Some? && !CanLoad(data, phOff, n, maps, asked, frames, per)
    ensures !CanLoad(data, phOff, all, maps, asked, frames, per)
  {
    if CanLoad(data, phOff, all, maps, asked, frames, per) {
      SegmentsPrefix(data, phOff, n, all);
      var some, every := Segments(data, phOff, n).value, Segments(data, phOff, all).value;
      FewerPages(every, |some|);
      assert every[..|some|] == some;
      RoomLess(maps, asked, frames, PagesOf(every), Asks(every, per), PagesOf(some), Asks(some, per));
    }
  }

  /** How many requests they take, at one or two a page. */
  function Asks(segs: seq<Segment>, per: nat): nat { if per == 1 then PagesOf(segs) else 2 * PagesOf(segs) }

  /** A loader has loaded these segments so far, starting with `frames0` frames and `asked0` requests made. */
  ghost predicate Loading(maps: nat -> bool, asked: nat, frames: nat, asked0: nat, frames0: nat, segs: seq<Segment>,
    per: nat) {
    && Room(maps, asked0, frames0, PagesOf(segs), Asks(segs, per))
    && frames == frames0 - PagesOf(segs) && asked == asked0 + Asks(segs, per)
  }

  lemma PagesNext(segs: seq<Segment>, s: Segment)
    ensures PagesOf(segs + [s]) == PagesOf(segs) + s.Pages()
  {
    assert (segs + [s])[..|segs|] == segs;
  }

  /** For one segment more there must be room behind the others. */
  lemma NextRoom(maps: nat -> bool, asked0: nat, frames0: nat, segs: seq<Segment>, s: Segment, per: nat)
    requires 1 <= per <= 2 && Room(maps, asked0, frames0, PagesOf(segs), Asks(segs, per))
    ensures Room(maps, asked0, frames0, PagesOf(segs + [s]), Asks(segs + [s], per)) <==>
      Room(maps, asked0 + Asks(segs, per), frames0 - PagesOf(segs), s.Pages(), if per == 1 then s.Pages()
        else 2 * s.Pages())
  {
    var p := s.Pages();
    PagesNext(segs, s);
    RoomJoin(maps, asked0, frames0, PagesOf(segs), Asks(segs, per), p, if per == 1 then p else 2 * p);
  }

  lemma LoadingNext(maps: nat -> bool, asked: nat, frames: nat, asked0: nat, frames0: nat, segs: seq<Segment>,
    s: Segment, per: nat, p: nat, a: nat)
    requires 1 <= per <= 2 && Loading(maps, asked, frames, asked0, frames0, segs, per)
    requires p == s.Pages() && a == if per == 1 then p else 2 * p
    ensures Room(maps, asked, frames, p, a) <==>
      Room(maps, asked0, frames0, PagesOf(segs + [s]), Asks(segs + [s], per))
    ensures Room(maps, asked, frames, p, a) ==>
      Loading(maps, asked + a, frames - p, asked0, frames0, segs + [s], per) == true
  {
    NextRoom(maps, asked0, frames0, segs, s, per);
    PagesNext(segs, s);
  }

  /** The headers are in order, and there is room for all their pages, at `per` requests each. */
  ghost predicate CanLoad(data: seq<Byte>, phOff: nat, phCnt: nat, maps: nat -> bool, asked: nat, frames: nat,
    per: nat) {
    && Segments(data, phOff, phCnt).Some?
    && var segs := Segments(data, phOff, phCnt).value;
       Room(maps, asked, frames, PagesOf(segs), Asks(segs, per))
  }

  // ---------------------------------------------------------------- what stays built

  /** Frames in use keep their contents. */
  ghost predicate Grows(ram: Ram, ram': Ram) {
    forall f :: f in ram ==> f in ram' && ram'[f] == ram[f]
  }

  /** The address space gained at most pages first .. first + n; the others are as they were. */
  ghost predicate Gained(vas: Vas, vas': Vas, first: nat, n: nat) {
    && (forall v {:trigger v in vas'} :: v in vas && !(first <= v < first + n) ==> v in vas' && vas'[v] == vas[v])
    && (forall v {:trigger v in vas} :: v in vas' && v !in vas ==> first <= v < first + n)
  }

  /** None of the segment's pages is mapped. */
  ghost predicate Unmapped(vas: Vas, s: Segment) {
    forall v: nat {:trigger s.Covers(v)} :: s.Covers(v) ==> v !in vas
  }

  /** What loading one segment achieves. */
  ghost predicate SegmentDone(ram: Ram, vas: Vas, ram': Ram, vas': Vas, s: Segment, r: Rights, n: nat) {
    Grows(ram, ram') && Gained(vas, vas', s.FirstPage(), n) && (Unmapped(vas, s) ==> Built(ram', vas', s, r, n))
  }

  /** One more page of a segment. */
  lemma PageDone(ram: Ram, vas: Vas, ram1: Ram, vas1: Vas, ram2: Ram, vas2: Vas, s: Segment, r: Rights, n: nat)
    requires SegmentDone(ram, vas, ram1, vas1, s, r, n) && n < s.Pages()
    requires Grows(ram1, ram2) && Gained(vas1, vas2, s.FirstPage() + n, 1)
    requires s.FirstPage() + n !in vas1 ==> PageBuilt(ram2, vas2, s, r, s.FirstPage() + n)
    ensures SegmentDone(ram, vas, ram2, vas2, s, r, n + 1)
  {
    if Unmapped(vas, s) {
      assert s.Covers(s.FirstPage() + n);
      forall v: nat | s.FirstPage() <= v < s.FirstPage() + n + 1 ensures PageBuilt(ram2, vas2, s, r, v) {
        if v < s.FirstPage() + n { assert PageBuilt(ram1, vas1, s, r, v); }
      }
    }
  }

  /** A built segment survives the loading of one that shares no page with it. */
  lemma BuiltSurvives(ram: Ram, vas: Vas, ram': Ram, vas': Vas, s: Segment, r: Rights, first: nat, n: nat)
    requires Built(ram, vas, s, r, s.Pages()) && Grows(ram, ram') && Gained(vas, vas', first, n)
    requires forall v: nat {:trigger s.Covers(v)} :: s.Covers(v) ==> !(first <= v < first + n)
    ensures Built(ram', vas', s, r, s.Pages())
  {
    forall v: nat | s.FirstPage() <= v < s.FirstPage() + s.Pages() ensures PageBuilt(ram', vas', s, r, v) {
      assert PageBuilt(ram, vas, s, r, v) && s.Covers(v);
    }
  }

  /** The segments share no page, and none of their pages is mapped yet. */
  ghost predicate Placeable(vas: Vas, segs: seq<Segment>) {
    Apart(segs) && forall i: nat :: i < |segs| ==> Unmapped(vas, segs[i])
  }

  /** What loading a list of segments achieves, for a loader that gives rights R. */
  ghost predicate AllDone(vas0: Vas, ram: Ram, vas: Vas, segs: seq<Segment>, R: Segment -> Rights) {
    && (forall v {:trigger v in vas} :: v in vas ==> v in vas0 || exists i: nat :: i < |segs| && segs[i].Covers(v))
    && (Placeable(vas0, segs) ==>
          forall i: nat {:trigger segs[i]} :: i < |segs| ==> Built(ram, vas, segs[i], R(segs[i]), segs[i].Pages()))
  }

  lemma NextDone(vas0: Vas, ram: Ram, vas: Vas, ram': Ram, vas': Vas, segs: seq<Segment>, s: Segment,
    R: Segment -> Rights)
    requires AllDone(vas0, ram, vas, segs, R) && SegmentDone(ram, vas, ram', vas', s, R(s), s.Pages())
    ensures AllDone(vas0, ram', vas', segs + [s], R)
  {
    var all := segs + [s];
    assert all[|segs|] == s;
    forall v | v in vas' ensures v in vas0 || exists i: nat :: i < |all| && all[i].Covers(v) {
      if v in vas {
        if i: nat :| i < |segs| && segs[i].Covers(v) { assert all[i].Covers(v); }
      } else {
        assert all[|segs|].Covers(v);
      }
    }
    if Placeable(vas0, all) {
      forall i: nat | i < |segs| ensures Unmapped(vas0, segs[i]) { assert all[i] == segs[i]; }
      PrefixApart(segs, s);
      assert Unmapped(vas, s) by { StillUnmapped(vas0, ram, vas, segs, s, R); }
      forall i: nat | i < |all| ensures Built(ram', vas', all[i], R(all[i]), all[i].Pages()) {
        if i < |segs| {
          assert all[i] == segs[i];
          forall v: nat | segs[i].Covers(v) ensures !(s.FirstPage() <= v < s.FirstPage() + s.Pages()) {
            assert all[i].Covers(v) && !all[|segs|].Covers(v);
          }
          BuiltSurvives(ram, vas, ram', vas', segs[i], R(segs[i]), s.FirstPage(), s.Pages());
        }
      }
    }
  }

  lemma NotBoth(segs: seq<Segment>, i: nat, j: nat, vpage: nat)
    requires Apart(segs) && i < j < |segs| && segs[j].Covers(vpage)
    ensures !segs[i].Covers(vpage)
  {
  }

  lemma PrefixApart(segs: seq<Segment>, s: Segment)
    requires Apart(segs + [s])
    ensures Apart(segs)
  {
    var all := segs + [s];
    forall i: nat, j: nat, v: nat | i < j < |segs| && segs[i].Covers(v) ensures !segs[j].Covers(v) {
      assert all[i].Covers(v) && all[j] == segs[j] && !all[j].Covers(v);
    }
  }

  lemma StillUnmapped(vas0: Vas, ram: Ram, vas: Vas, segs: seq<Segment>, s: Segment, R: Segment -> Rights)
    requires AllDone(vas0, ram, vas, segs, R) && Apart(segs + [s]) && Unmapped(vas0, s)
    ensures Unmapped(vas, s)
  {
    var all := segs + [s];
    forall v: nat | s.Covers(v) ensures v !in vas {
      assert all[|segs|].Covers(v);
      forall i: nat | i < |segs| ensures !segs[i].Covers(v) {
        NotBoth(all, i, |segs|, v);
      }
    }
  }

  // ---------------------------------------------------------------- the kernel's loader

  class KernelLoader {
    const m: Machine

    constructor (m: Machine)
      ensures this.m == m
    {
      this.m := m;
    }

    /** One page: allocate, zero, copy, map. */
    method LoadPage(s: Segment, k: nat) returns (ok: bool)
      requires m.Valid() && k < s.Pages()
      modifies m
      ensures m.Valid() && (ok <==> Room(m.maps, old(m.asked), |old(m.pool)|, 1, 1))
      ensures ok ==> |m.pool| == |old(m.pool)| - 1 && m.asked == old(m.asked) + 1
      ensures ok ==> Grows(old(m.ram), m.ram) && Gained(old(m.vas), m.vas, s.FirstPage() + k, 1)
      ensures ok && s.FirstPage() + k !in old(m.vas) ==> PageBuilt(m.ram, m.vas, s, KernelRights(s), s.FirstPage() + k)
    {
      RoomForOne(m.maps, m.asked, |m.pool|, 1);
      var virtBase := s.vaddr / PAGE;
      var frame := m.Alloc();
      if frame.None? { return false; }
      m.Fill(frame.value);
      CopyPage(s, k, frame.value);
      ok := m.Map(virtBase + k, frame.value, Rights(s.Write(), s.Exec()));
    }

    /** Copies the segment's bytes for page k into a zeroed frame. */
    method CopyPage(s: Segment, k: nat, frame: nat)
      requires m.Valid() && k < s.Pages() && frame in m.ram && m.ram[frame] == seq(PAGE, _ => 0)
      modifies m`ram
      ensures m.Valid() && m.ram == old(m.ram)[frame := PageBytes(s, s.FirstPage() + k)]
    {
      var offset := s.vaddr % PAGE;
      var segStart, physOffset := 0, offset;
      if k != 0 { segStart, physOffset := k * PAGE - offset, 0; }
      if segStart < |s.data| {
        var n := Min(|s.data| - segStart, PAGE - physOffset);
        m.Copy(frame, physOffset, s.data[segStart..segStart + n]);
      }
      CopyIsPage(s, k, m.ram[frame]);
    }

    method LoadSegment(s: Segment) returns (ok: bool)
      requires m.Valid()
      modifies m
      ensures m.Valid() && (ok <==> Room(m.maps, old(m.asked), |old(m.pool)|, s.Pages(), s.Pages()))
      ensures ok ==> |m.pool| == |old(m.pool)| - s.Pages() && m.asked == old(m.asked) + s.Pages()
      ensures ok ==> SegmentDone(old(m.ram), old(m.vas), m.ram, m.vas, s, KernelRights(s), s.Pages())
    {
      for k := 0 to s.Pages()
        invariant m.Valid() && |m.pool| == |old(m.pool)| - k && m.asked == old(m.asked) + k
        invariant Room(m.maps, old(m.asked), |old(m.pool)|, k, k)
        invariant SegmentDone(old(m.ram), old(m.vas), m.ram, m.vas, s, KernelRights(s), k) == true
      {
        ghost var ram1, vas1 := m.ram, m.vas;
        RoomJoin(m.maps, old(m.asked), |old(m.pool)|, k, k, 1, 1);
        ok := LoadPage(s, k);
        if !ok {
          NoRoomFor(m.maps, old(m.asked), |old(m.pool)|, k + 1, (k + 1), s.Pages(), s.Pages());
          return false;
        }
        PageDone(old(m.ram), old(m.vas), ram1, vas1, m.ram, m.vas, s, KernelRights(s), k);
      }
      ok := true;
    }

    /** One more segment. */
    method LoadNext(s: Segment, ghost segs: seq<Segment>, ghost vas0: Vas, ghost asked0: nat, ghost frames0: nat)
      returns (ok: bool)
      requires m.Valid() && AllDone(vas0, m.ram, m.vas, segs, KernelRights) == true
      requires Loading(m.maps, m.asked, |m.pool|, asked0, frames0, segs, 1) == true
      modifies m
      ensures m.Valid() && (ok <==> Room(m.maps, asked0, frames0, PagesOf(segs + [s]), Asks(segs + [s], 1)))
      ensures ok ==> AllDone(vas0, m.ram, m.vas, segs + [s], KernelRights) == true
      ensures ok ==> Loading(m.maps, m.asked, |m.pool|, asked0, frames0, segs + [s], 1) == true
    {
      ghost var ram1, vas1 := m.ram, m.vas;
      LoadingNext(m.maps, m.asked, |m.pool|, asked0, frames0, segs, s, 1, s.Pages(), s.Pages());
      ok := LoadSegment(s);
      if ok { NextDone(vas0, ram1, vas1, m.ram, m.vas, segs, s, KernelRights); }
    }

    /** load, from the program headers on. */
    method Load(data: seq<Byte>, phOff: nat, phCnt: nat) returns (ok: bool)
      requires m.Valid()
      modifies m
      ensures m.Valid() && (ok <==> CanLoad(data, phOff, phCnt, m.maps, old(m.asked), |old(m.pool)|, 1))
      ensures ok ==>
        Segments(data, phOff, phCnt).Some?
        && AllDone(old(m.vas), m.ram, m.vas, Segments(data, phOff, phCnt).value, KernelRights) == true
    {
      ghost var segs := [];
      for i := 0 to phCnt
        invariant m.Valid() && Loading(m.maps, m.asked, |m.pool|, old(m.asked), |old(m.pool)|, segs, 1) == true
        invariant Segments(data, phOff, i) == Some(segs)
          && AllDone(old(m.vas), m.ram, m.vas, segs, KernelRights) == true
      {
        var h := Header(data, phOff + i * PHDR);
        if h.None? {
          StaysRefused(data, phOff, i + 1, phCnt);
          return false;
        }
        if h.value.Some? {
          assert Segments(data, phOff, i + 1) == Some(segs + [h.value.value]);
          ok := LoadNext(h.value.value, segs, old(m.vas), old(m.asked), |old(m.pool)|);
          if !ok {
            NoRoom(data, phOff, i + 1, phCnt, m.maps, old(m.asked), |old(m.pool)|, 1);
            return false;
          }
          segs := segs + [h.value.value];
        } else {
          assert segs + [] == segs;
        }
      }
      ok := true;
    }
  }

  // ---------------------------------------------------------------- the exec server's loader

  class ExecLoader {
    const m: Machine
    /** Staging pages of the server's own address space, and the growing cursor that picks them. */
    var staging: map<nat, nat>
    var stagingVa: nat

    constructor (m: Machine)
      ensures this.m == m
    {
      this.m := m;
      staging := map[];
      stagingVa := 0x4000_0000;
    }

    method NextStagingVa() returns (va: nat)
      modifies `stagingVa
    {
      va := stagingVa;
      stagingVa := (stagingVa + PAGE) % U64;
    }

    /** Copies the segment's bytes for page k into a zeroed frame, through its staging page. */
    method CopyPage(s: Segment, k: nat, stage: nat)
      requires m.Valid() && k < s.Pages() && stage in staging && staging[stage] in m.ram
        && m.ram[staging[stage]] == seq(PAGE, _ => 0)
      modifies m`ram
      ensures m.Valid() && m.ram == old(m.ram)[staging[stage] := PageBytes(s, s.FirstPage() + k)]
    {
      var offset := s.vaddr % PAGE;
      var segStart, physOffset := if k == 0 then 0 else k * PAGE - offset, if k == 0 then offset else 0;
      if segStart < |s.data| {
        var n := Min(|s.data| - segStart, PAGE - physOffset);
        m.Copy(staging[stage], physOffset, s.data[segStart..segStart + n]);
      }
      CopyIsPage(s, k, m.ram[staging[stage]]);
    }

    /** One page: a zeroed frame, written through a staging page, then mapped into the new process. */
    method LoadPage(s: Segment, k: nat) returns (ok: bool)
      requires m.Valid() && k < s.Pages()
      modifies this, m
      ensures m.Valid() && (ok <==> Room(m.maps, old(m.asked), |old(m.pool)|, 1, 2))
      ensures ok ==> |m.pool| == |old(m.pool)| - 1 && m.asked == old(m.asked) + 2
      ensures ok ==> Grows(old(m.ram), m.ram) && Gained(old(m.vas), m.vas, s.FirstPage() + k, 1)
      ensures ok && s.FirstPage() + k !in old(m.vas) ==> PageBuilt(m.ram, m.vas, s, ExecRights(s), s.FirstPage() + k)
    {
      RoomForOne(m.maps, m.asked, |m.pool|, 2);
      var stage := Stage();
      if stage.None? { return false; }
      CopyPage(s, k, stage.value);
      var rights := if s.Exec() then (if s.Write() then Rights(true, true) else Rights(false, true))
        else Rights(true, false);
      ok := m.Map(s.vaddr / PAGE + k, staging[stage.value], rights);
    }

    /** A zeroed frame, mapped at a staging page. */
    method Stage() returns (stage: Option<nat>)
      requires m.Valid()
      modifies this, m
      ensures m.Valid() && m.vas == old(m.vas) && (stage.Some? <==> old(m.pool) != [] && m.maps(old(m.asked)))
      ensures stage.Some? ==> |m.pool| == |old(m.pool)| - 1 && m.asked == old(m.asked) + 1
      ensures stage.Some? ==>
        && stage.value in staging && staging[stage.value] !in old(m.ram)
        && m.ram == old(m.ram)[staging[stage.value] := seq(PAGE, _ => 0)]
    {
      var frame := m.Alloc();
      if frame.None? { return None; }
      m.Fill(frame.value);
      var writeVa := NextStagingVa();
      var mapped := m.Ask();
      if !mapped { return None; }
      staging := staging[writeVa / PAGE := frame.value];
      stage := Some(writeVa / PAGE);
    }

    method LoadSegment(s: Segment) returns (ok: bool)
      requires m.Valid()
      modifies this, m
      ensures m.Valid() && (ok <==> Room(m.maps, old(m.asked), |old(m.pool)|, s.Pages(), 2 * s.Pages()))
      ensures ok ==> |m.pool| == |old(m.pool)| - s.Pages() && m.asked == old(m.asked) + 2 * s.Pages()
      ensures ok ==> SegmentDone(old(m.ram), old(m.vas), m.ram, m.vas, s, ExecRights(s), s.Pages())
    {
      for k := 0 to s.Pages()
        invariant m.Valid() && |m.pool| == |old(m.pool)| - k && m.asked == old(m.asked) + 2 * k
        invariant Room(m.maps, old(m.asked), |old(m.pool)|, k, 2 * k)
        invariant SegmentDone(old(m.ram), old(m.vas), m.ram, m.vas, s, ExecRights(s), k) == true
      {
        ghost var ram1, vas1 := m.ram, m.vas;
        RoomJoin(m.maps, old(m.asked), |old(m.pool)|, k, 2 * k, 1, 2);
        ok := LoadPage(s, k);
        if !ok {
          NoRoomFor(m.maps, old(m.asked), |old(m.pool)|, k + 1, 2 * (k + 1), s.Pages(), 2 * s.Pages());
          return false;
        }
        PageDone(old(m.ram), old(m.vas), ram1, vas1, m.ram, m.vas, s, ExecRights(s), k);
      }
      ok := true;
    }

    /** One more segment. */
    method LoadNext(s: Segment, ghost segs: seq<Segment>, ghost vas0: Vas, ghost asked0: nat, ghost frames0: nat)
      returns (ok: bool)
      requires m.Valid() && AllDone(vas0, m.ram, m.vas, segs, ExecRights) == true
      requires Loading(m.maps, m.asked, |m.pool|, asked0, frames0, segs, 2) == true
      modifies this, m
      ensures m.Valid() && (ok <==> Room(m.maps, asked0, frames0, PagesOf(segs + [s]), Asks(segs + [s], 2)))
      ensures ok ==> AllDone(vas0, m.ram, m.vas, segs + [s], ExecRights) == true
      ensures ok ==> Loading(m.maps, m.asked, |m.pool|, asked0, frames0, segs + [s], 2) == true
    {
      ghost var ram1, vas1 := m.ram, m.vas;
      LoadingNext(m.maps, m.asked, |m.pool|, asked0, frames0, segs, s, 2, s.Pages(), 2 * s.Pages());
      ok := LoadSegment(s);
      if ok { NextDone(vas0, ram1, vas1, m.ram, m.vas, segs, s, ExecRights); }
    }

    /** load_and_spawn, from the program headers to the spawn. */
    method Load(data: seq<Byte>, phOff: nat, phCnt: nat) returns (ok: bool)
      requires m.Valid()
      modifies this, m
      ensures m.Valid() && (ok <==> CanLoad(data, phOff, phCnt, m.maps, old(m.asked), |old(m.pool)|, 2))
      ensures ok ==>
        Segments(data, phOff, phCnt).Some?
        && AllDone(old(m.vas), m.ram, m.vas, Segments(data, phOff, phCnt).value, ExecRights) == true
    {
      ghost var segs := [];
      for i := 0 to phCnt
        invariant m.Valid() && Loading(m.maps, m.asked, |m.pool|, old(m.asked), |old(m.pool)|, segs, 2) == true
        invariant Segments(data, phOff, i) == Some(segs)
          && AllDone(old(m.vas), m.ram, m.vas, segs, ExecRights) == true
      {
        var h := Header(data, phOff + i * PHDR);
        if h.None? {
          StaysRefused(data, phOff, i + 1, phCnt);
          return false;
        }
        if h.value.Some? {
          assert Segments(data, phOff, i + 1) == Some(segs + [h.value.value]);
          ok := LoadNext(h.value.value, segs, old(m.vas), old(m.asked), |old(m.pool)|);
          if !ok {
            NoRoom(data, phOff, i + 1, phCnt, m.maps, old(m.asked), |old(m.pool)|, 2);
            return false;
          }
          segs := segs + [h.value.value];
        } else {
          assert segs + [] == segs;
        }
      }
      ok := true;
    }
  }

  /** Every address of the segment's pages reads the same byte in both address spaces: the file's, or zero. */
  ghost predicate ReadsAlike(ram: Ram, vas: Vas, ram': Ram, vas': Vas, s: Segment) {
    forall a: nat :: s.Covers(a / PAGE) ==> Image(ram, vas, a) == Image(ram', vas', a) == Some(s.ByteAt(a - s.vaddr))
  }

  lemma BothBuilt(ram: Ram, vas: Vas, vas0: Vas, ram': Ram, vas': Vas, vas0': Vas, segs: seq<Segment>)
    requires AllDone(vas0, ram, vas, segs, KernelRights) && AllDone(vas0', ram', vas', segs, ExecRights)
    requires Placeable(vas0, segs) && Placeable(vas0', segs)
    ensures forall i: nat :: i < |segs| ==> ReadsAlike(ram, vas, ram', vas', segs[i])
  {
    forall i: nat | i < |segs| ensures ReadsAlike(ram, vas, ram', vas', segs[i]) {
      var s := segs[i];
      assert Built(ram, vas, s, KernelRights(s), s.Pages()) && Built(ram', vas', s, ExecRights(s), s.Pages());
      forall a: nat | s.Covers(a / PAGE)
        ensures Image(ram, vas, a) == Image(ram', vas', a) == Some(s.ByteAt(a - s.vaddr))
      {
        BuiltReads(ram, vas, s, KernelRights(s), a);
        SameImage(ram, vas, ram', vas', s, a);
      }
    }
  }

  /** Both spaces hold what header h asks for: at its address, the bytes of the file from its offset on, as many as it
      says are there, then zeros up to its size in memory. */
  ghost predicate Loaded(ram: Ram, vas: Vas, ram': Ram, vas': Vas, data: seq<Byte>, h: Phdr)
    requires h.offset + h.filesz <= |data|
  {
    forall i: nat {:trigger LoadedAt(ram, vas, ram', vas', data, h, i)} ::
      i < h.memsz ==> LoadedAt(ram, vas, ram', vas', data, h, i)
  }

  ghost predicate LoadedAt(ram: Ram, vas: Vas, ram': Ram, vas': Vas, data: seq<Byte>, h: Phdr, i: nat)
    requires h.offset + h.filesz <= |data|
  {
    Image(ram, vas, h.vaddr + i) == Image(ram', vas', h.vaddr + i) ==
      Some(if i < h.filesz then data[h.offset + i] else 0)
  }

  lemma HeaderLoaded(ram: Ram, vas: Vas, ram': Ram, vas': Vas, data: seq<Byte>, h: Phdr)
    requires h.offset + h.filesz <= |data| && h.vaddr % PAGE + h.memsz + 4095 < U64
    requires ReadsAlike(ram, vas, ram', vas', h.Wanted(data))
    ensures Loaded(ram, vas, ram', vas', data, h)
  {
    var s := h.Wanted(data);
    forall i: nat | i < h.memsz ensures LoadedAt(ram, vas, ram', vas', data, h, i) {
      ByteCovered(s, i);
      assert s.ByteAt(h.vaddr + i - s.vaddr) == if i < h.filesz then data[h.offset + i] else 0;
    }
  }

  /** Whatever file both loaders accept, into address spaces that may already hold other mappings: if its
      segments share no page with each other or with those, both images are what its headers ask for.  It is
      accepted exactly when every segment lies in the file and each loader has a frame for each of its pages and is
      granted every mapping, of which the exec server needs two a page. */
  method LoadBoth(a: KernelLoader, b: ExecLoader, data: seq<Byte>, phOff: nat, phCnt: nat, ghost hs: seq<Phdr>)
    returns (ok: bool)
    requires a.m.Valid() && b.m.Valid() && a.m != b.m
    requires TableInFile(data, phOff, phCnt) ==> |hs| == phCnt && HeadersAt(data, phOff, hs)
    modifies a.m, b, b.m
    ensures ok <==>
      && TableInFile(data, phOff, phCnt) && AllInBounds(data, hs)
      && var pages := PagesOf(Chosen(data, hs));
         && Room(a.m.maps, old(a.m.asked), |old(a.m.pool)|, pages, pages)
         && Room(b.m.maps, old(b.m.asked), |old(b.m.pool)|, pages, 2 * pages)
    ensures ok && Placeable(old(a.m.vas), Chosen(data, hs)) && Placeable(old(b.m.vas), Chosen(data, hs)) ==>
      && (forall i: nat :: i < |Chosen(data, hs)| ==>
            ReadsAlike(a.m.ram, a.m.vas, b.m.ram, b.m.vas, Chosen(data, hs)[i]))
      && (forall i: nat :: i < |hs| && hs[i].Loads() && hs[i].vaddr % PAGE + hs[i].memsz + 4095 < U64 ==>
            hs[i].InBounds(data) && Loaded(a.m.ram, a.m.vas, b.m.ram, b.m.vas, data, hs[i]))
  {
    ghost var vasA, vasB := a.m.vas, b.m.vas;
    if TableInFile(data, phOff, phCnt) { SegmentsAre(data, phOff, hs); }
    ok := a.Load(data, phOff, phCnt);
    if !ok { return; }
    ghost var ram, vas := a.m.ram, a.m.vas;
    ok := b.Load(data, phOff, phCnt);
    if !ok { return; }
    assert a.m.ram == ram && a.m.vas == vas;
    ghost var segs := Chosen(data, hs);
    if Placeable(vasA, segs) && Placeable(vasB, segs) {
      BothBuilt(ram, vas, vasA, b.m.ram, b.m.vas, vasB, segs);
      AllLoaded(ram, vas, b.m.ram, b.m.vas, data, hs);
    }
  }

  lemma AllLoaded(ram: Ram, vas: Vas, ram': Ram, vas': Vas, data: seq<Byte>, hs: seq<Phdr>)
    requires AllInBounds(data, hs)
    requires forall i: nat :: i < |Chosen(data, hs)| ==> ReadsAlike(ram, vas, ram', vas', Chosen(data, hs)[i])
    ensures forall i: nat :: i < |hs| && hs[i].Loads() && hs[i].vaddr % PAGE + hs[i].memsz + 4095 < U64 ==>
      hs[i].InBounds(data) && Loaded(ram, vas, ram', vas', data, hs[i])
  {
    forall i: nat | i < |hs| && hs[i].Loads() && hs[i].vaddr % PAGE + hs[i].memsz + 4095 < U64
      ensures hs[i].InBounds(data) && Loaded(ram, vas, ram', vas', data, hs[i])
    {
      var j := ChosenHas(data, hs, i);
      HeaderLoaded(ram, vas, ram', vas', data, hs[i]);
    }
  }
}
