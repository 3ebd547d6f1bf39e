/** The allocator itself: malloc, free, calloc and realloc over the memory they manage. */
module HeapAllocator {
  import opened Bytes
  import opened HeapState
  import opened HeapRuns

  /** Bytes of block i that a client owns are the same before and after, and so is the block. */
  ghost predicate Kept(m: Mem, blocks: seq<Block>, m': Mem, blocks': seq<Block>, i: nat)
    requires i < |blocks|
  {
    i < |blocks'| && blocks'[i] == blocks[i] && KeptIn(m, m', blocks[i].Payload(), blocks[i].End())
  }

  /** Every block live before, other than number `except`, is live after with the same bytes. */
  ghost predicate OthersKept(m: Mem, blocks: seq<Block>, m': Mem, blocks': seq<Block>, except: Option<nat>) {
    forall i: nat {:trigger Kept(m, blocks, m', blocks', i)} ::
      i < |blocks| && blocks[i].live && except != Some(i) ==> Kept(m, blocks, m', blocks', i)
  }

  lemma OthersKeptByStep(p: Moment, q: Moment, except: Option<nat>)
    requires Inv(p.s, p.b) && StepOk(p, q)
    requires Touched(p, q).Some? && Touched(p, q).value < |p.b.blocks| && p.b.blocks[Touched(p, q).value].live ==>
      Touched(p, q) == except
    ensures OthersKept(p.s.mem, p.b.blocks, q.s.mem, q.b.blocks, except)
  {
    StepFrame(p, q);
    StepKeeps(p, q);
    forall i: nat | i < |p.b.blocks| && p.b.blocks[i].live && except != Some(i)
      ensures Kept(p.s.mem, p.b.blocks, q.s.mem, q.b.blocks, i)
    {
      assert Touched(p, q) != Some(i);
      if Touched(p, q).Some? { Apart(q.b.blocks, q.s.bump, i, Touched(p, q).value); }
      assert WellSized(p.b.blocks[i], p.s.bump);
    }
  }

  lemma OthersKeptTrans(m: Mem, bs: seq<Block>, m1: Mem, bs1: seq<Block>, m2: Mem, bs2: seq<Block>, except: Option<nat>)
    requires OthersKept(m, bs, m1, bs1, except) && OthersKept(m1, bs1, m2, bs2, except)
    ensures OthersKept(m, bs, m2, bs2, except)
  {
    forall i: nat | i < |bs| && bs[i].live && except != Some(i) ensures Kept(m, bs, m2, bs2, i) {
      assert Kept(m, bs, m1, bs1, i);
      assert Kept(m1, bs1, m2, bs2, i);
    }
  }

  // ---------------------------------------------------------------- what the kernel is asked

  /** The kernel's answers: to the n-th SYS_MAP call, if it names this page. */
  type Kernel = (nat, nat) -> bool

  /** A call is granted if the kernel grants it; beyond user space it never does. */
  predicate Grants(kernel: Kernel, n: nat, page: nat) { page + PAGE <= USER_VA_END && kernel(n, page) }

  /** What asking for page after page, from `top` until `end` is reached or one is refused, comes to: the
      calls made by then, the mapped top, and whether `end` was reached. */
  function AskUpTo(kernel: Kernel, calls: nat, top: nat, end: nat): (r: (nat, nat, bool))
    ensures r.1 >= top && (r.2 <==> r.1 >= end)
    decreases end - top
  {
    if top >= end then (calls, top, true)
    else if !Grants(kernel, calls, top) then (calls + 1, top, false)
    else AskUpTo(kernel, calls + 1, top + PAGE, end)
  }

  /** The k-th call from here on, which names the k-th page from `top` on, is granted. */
  ghost predicate GrantsNext(kernel: Kernel, calls: nat, top: nat, k: nat) { Grants(kernel, calls + k, top + k * PAGE) }

  /** Every page still needed up to `end` would be granted. */
  ghost predicate GrantsUpTo(kernel: Kernel, calls: nat, top: nat, end: nat) {
    forall k: nat {:trigger GrantsNext(kernel, calls, top, k)} ::
      top + k * PAGE < end ==> GrantsNext(kernel, calls, top, k)
  }

  /** It is reached exactly when every page on the way is granted.  The calls name the successive pages, each
      once, none that is not needed; all are granted but the last, which is refused exactly when `end` is not
      reached. */
  lemma {:induction false} AskedExactly(kernel: Kernel, calls: nat, top: nat, end: nat)
    ensures var (calls', top', ok) := AskUpTo(kernel, calls, top, end);
      && (ok <==> GrantsUpTo(kernel, calls, top, end))
      && calls' >= calls && top' == top + PAGE * (calls' - calls - if ok then 0 else 1)
      && (top < end ==> top' < end + PAGE)
      && (!ok ==> calls' > calls && !Grants(kernel, calls' - 1, top'))
      && forall k: nat {:trigger GrantsNext(kernel, calls, top, k)} ::
           k < calls' - calls - (if ok then 0 else 1) ==> GrantsNext(kernel, calls, top, k)
    decreases end - top
  {
    var (calls', top', ok) := AskUpTo(kernel, calls, top, end);
    if top < end {
      assert GrantsNext(kernel, calls, top, 0) == Grants(kernel, calls, top);
      if Grants(kernel, calls, top) {
        AskedExactly(kernel, calls + 1, top + PAGE, end);
        NextGranted(kernel, calls, top, end);
        forall k: nat | k < calls' - calls - (if ok then 0 else 1) ensures GrantsNext(kernel, calls, top, k) {
          if k > 0 { NextAfter(kernel, calls, top, k - 1); }
        }
      }
    }
  }

  /** Asking up to `end` begins with asking up to anything before it. */
  lemma {:induction false} AskFurther(kernel: Kernel, calls: nat, top: nat, near: nat, end: nat)
    requires near <= end
    ensures var (calls', top', ok) := AskUpTo(kernel, calls, top, near);
      if ok then AskUpTo(kernel, calls, top, end) == AskUpTo(kernel, calls', top', end)
      else AskUpTo(kernel, calls, top, end) == (calls', top', false)
    decreases near - top
  {
    if top < near && Grants(kernel, calls, top) { AskFurther(kernel, calls + 1, top + PAGE, near, end); }
  }

  lemma NextAfter(kernel: Kernel, calls: nat, top: nat, k: nat)
    ensures GrantsNext(kernel, calls, top, k + 1) == GrantsNext(kernel, calls + 1, top + PAGE, k)
  {
    assert top + (k + 1) * PAGE == top + PAGE + k * PAGE;
  }

  lemma NextGranted(kernel: Kernel, calls: nat, top: nat, end: nat)
    requires top < end && Grants(kernel, calls, top)
    ensures GrantsUpTo(kernel, calls, top, end) <==> GrantsUpTo(kernel, calls + 1, top + PAGE, end)
  {
    if GrantsUpTo(kernel, calls, top, end) {
      forall k: nat | top + PAGE + k * PAGE < end ensures GrantsNext(kernel, calls + 1, top + PAGE, k) {
        assert top + (k + 1) * PAGE < end;
        NextAfter(kernel, calls, top, k);
      }
    }
    if GrantsUpTo(kernel, calls + 1, top + PAGE, end) {
      forall k: nat | top + k * PAGE < end ensures GrantsNext(kernel, calls, top, k) {
        if k > 0 {
          assert top + PAGE + (k - 1) * PAGE < end;
          NextAfter(kernel, calls, top, k - 1);
        } else {
          assert GrantsNext(kernel, calls, top, 0) == Grants(kernel, calls, top);
        }
      }
    }
  }

  class Allocator {
    const kernel: Kernel
    /** How many pages the kernel has been asked for. */
    var calls: nat
    var mem: Mem
    const freeHeads: array<nat>
    var bump: nat
    var top: nat
    /** Everything that happened so far, ending with now. */
    ghost var run: seq<Moment>

    ghost function Now(): State
      reads this, freeHeads
    {
      State(mem, freeHeads[..], bump, top)
    }

    ghost function Blocks(): seq<Block>
      requires |run| > 0
      reads this
    {
      run[|run| - 1].b.blocks
    }

    ghost predicate Valid()
      reads this, freeHeads
    {
      && freeHeads.Length == NUM_CLASSES
      && IsRun(run) && run[|run| - 1].s == Now()
    }

    constructor (kernel: Kernel, memory: Mem)
      ensures Valid() && fresh(freeHeads) && mem == memory && this.kernel == kernel && calls == 0
        && run == [Moment(Start, Now(), Book([], seq(NUM_CLASSES, _ => [])))]
    {
      this.kernel, calls := kernel, 0;
      mem, bump, top := memory, HEAP_START, HEAP_START;
      freeHeads := new nat[NUM_CLASSES](_ => 0);
      new;
      assert freeHeads[..] == seq(NUM_CLASSES, _ => 0);
      run := [Moment(Start, Now(), Book([], seq(NUM_CLASSES, _ => [])))];
    }

    /** Records a step that has just been taken. */
    ghost method Record(step: Step, b: Book)
      requires freeHeads.Length == NUM_CLASSES && IsRun(run)
      requires StepOk(run[|run| - 1], Moment(step, Now(), b)) == true // taken over whole
      modifies `run
      ensures Valid() && run == old(run) + [Moment(step, Now(), b)]
    {
      var run' := run + [Moment(step, Now(), b)];
      forall k | 0 < k < |run'| ensures StepOk(run'[k - 1], run'[k]) {
        if k < |run| { assert StepOk(run[k - 1], run[k]); }
      }
      run := run';
    }

    /** SYS_MAP of the page at `page`. */
    method SysMap(page: nat) returns (ok: bool)
      modifies `mem, `calls
      ensures calls == old(calls) + 1 && ok == Grants(kernel, old(calls), page)
      ensures ok ==> KeptOutside(old(mem), mem, 0, 0) && forall x :: page <= x < page + PAGE ==> x in mem
      ensures !ok ==> mem == old(mem)
    {
      ok := Grants(kernel, calls, page);
      calls := calls + 1;
      if ok {
        var junk: nat -> Byte := *;
        mem := (map i: nat | page <= i < page + PAGE :: junk(i)) + mem;
      }
    }

    /** ensure_mapped: asks for page after page until the range is mapped or one is refused. */
    method EnsureMapped(addr: nat, size: nat) returns (ok: bool)
      requires Valid() && addr <= top
      modifies `mem, `top, `run, `calls
      ensures Valid() && old(top) <= top && Blocks() == old(Blocks()) && |run| >= |old(run)|
      ensures (calls, top, ok) == AskUpTo(kernel, old(calls), old(top), addr + size)
      ensures addr + size <= old(top) ==> ok && run == old(run) && mem == old(mem)
      ensures KeptOutside(old(mem), mem, 0, 0)
      ensures run[|run| - 1].b == old(run[|run| - 1].b)
      ensures OthersKept(old(mem), old(Blocks()), mem, Blocks(), None)
    {
      var end := addr + size;
      var t := top;
      while t < end
        invariant t == top && old(top) <= top && freeHeads.Length == NUM_CLASSES && Valid()
        invariant |run| >= |old(run)| && run[|run| - 1].b == old(run[|run| - 1].b)
        invariant addr + size <= old(top) ==> run == old(run) && mem == old(mem) && t == old(top)
        invariant AskUpTo(kernel, calls, top, end) == AskUpTo(kernel, old(calls), old(top), end)
        invariant KeptOutside(old(mem), mem, 0, 0)
        decreases end - t
      {
        var granted := MapNext();
        if !granted { return false; }
        t := t + PAGE;
      }
      ok := true;
    }

    /** One turn of that loop: the page at the mapped top. */
    method MapNext() returns (granted: bool)
      requires Valid()
      modifies `mem, `top, `run, `calls
      ensures Valid() && calls == old(calls) + 1 && granted == Grants(kernel, old(calls), old(top))
      ensures top == (if granted then old(top) + PAGE else old(top)) && KeptOutside(old(mem), mem, 0, 0)
      ensures |run| >= |old(run)| && run[|run| - 1].b == old(run[|run| - 1].b)
    {
      EveryRunKeepsInv(run, |run| - 1);
      var page := top / PAGE * PAGE;
      assert page == top;
      granted := SysMap(page);
      if !granted { return; }
      top := top + PAGE;
      Record(MapPage, run[|run| - 1].b);
    }

    /** Carves `total` bytes at the bump pointer; null when the kernel refuses a page. */
    method BumpAlloc(total: nat) returns (hdr: nat)
      requires Valid() && total % HDR_ALIGN == 0
      modifies `mem, `top, `run, `bump, `calls
      ensures freeHeads.Length == NUM_CLASSES && IsRun(run)
      ensures run[|run| - 1].s == Now().(bump := old(bump)) && run[|run| - 1].b == old(run[|run| - 1].b)
      ensures |run| >= |old(run)| && top >= old(top) && KeptOutside(old(mem), mem, 0, 0)
      ensures (calls, top, hdr != 0) == AskUpTo(kernel, old(calls), old(top), old(bump) + total)
      ensures hdr == 0 ==> bump == old(bump)
      ensures hdr != 0 ==> hdr == old(bump) && bump == hdr + total
    {
      BumpAligned(run);
      var aligned := (bump + HDR_ALIGN - 1) / HDR_ALIGN * HDR_ALIGN;
      assert aligned == bump;
      var ok := EnsureMapped(aligned, total);
      if !ok { return 0; }
      bump := aligned + total;
      hdr := aligned;
    }

    /** Takes the head of free list ci. */
    method PopHead(ci: nat, ghost size: nat) returns (ptr: nat, ghost i: nat)
      requires Valid() && ci < NUM_CLASSES && freeHeads[ci] != 0 && SizeClass(size) == Some(ci)
      modifies `mem, `run, freeHeads
      ensures Valid() && |run| >= |old(run)| && ci > 0
      ensures Granted(old(mem), old(Blocks()), mem, Blocks(), ptr, i, size) == true
    {
      ghost var p := run[|run| - 1];
      HeadReadable(run, ci);
      i := p.b.lists[ci][0];
      var head := freeHeads[ci];
      var next := Load(mem, head + HDR_SIZE, 8);
      freeHeads[ci] := next;
      mem := SetFlags(mem, head, 1);
      assert Now() == Popped(p.s, ci);
      Record(Reuse(ci), PoppedBook(p.b, ci));
      ReuseGrants(run, ci, size);
      ptr := head + HDR_SIZE;
    }

    /** Writes the header of a block of `size` bytes just carved at `hdr`. */
    method StampHeader(hdr: nat, size: nat) returns (ptr: nat)
      requires freeHeads.Length == NUM_CLASSES && IsRun(run)
      requires run[|run| - 1].s == Now().(bump := hdr) && bump == hdr + BlockTotal(size) <= top
      requires size > 0 && BlockTotal(size) < U32_LIMIT
      requires SizeClass(size).Some? ==> freeHeads[SizeClass(size).value] == 0
      modifies `mem, `run
      ensures Valid() && |run| >= |old(run)| && ptr == hdr + HDR_SIZE
      ensures Granted(old(mem), old(Blocks()), mem, Blocks(), ptr, |old(Blocks())|, size)
      ensures Blocks() == old(Blocks()) + [Block(hdr, BlockTotal(size), true)]
    {
      ghost var q := run[|run| - 1];
      BumpAligned(run);
      var total := BlockTotal(size);
      mem := WriteHeader(mem, hdr, total);
      Record(Carve(size), q.b.(blocks := q.b.blocks + [Block(hdr, total, true)]));
      CarveGrants(run, size);
      ptr := hdr + HDR_SIZE;
    }

    /** Carves a block for `size` bytes; null when the kernel refuses a page. */
    method CarveBlock(size: nat) returns (ptr: nat, ghost i: nat)
      requires Valid() && size > 0 && BlockTotal(size) < U32_LIMIT
      requires SizeClass(size).Some? ==> freeHeads[SizeClass(size).value] == 0
      modifies `mem, `run, `bump, `top, `calls
      ensures Valid() && |run| >= |old(run)|
      ensures (calls, top, ptr != 0) == AskUpTo(kernel, old(calls), old(top), old(bump) + BlockTotal(size))
      ensures ptr == 0 ==> Unchanged(old(mem), old(Blocks()), mem, Blocks()) && bump == old(bump)
      ensures ptr != 0 ==> Granted(old(mem), old(Blocks()), mem, Blocks(), ptr, i, size)
      ensures ptr != 0 ==> i == |old(Blocks())| && bump == old(bump) + BlockTotal(size)
    {
      i := |Blocks()|;
      var hdr := BumpAlloc(BlockTotal(size));
      ghost var m, bs := mem, Blocks();
      SamePlaceKept(old(mem), m, bs);
      if hdr == 0 { return 0, i; }
      ptr := StampHeader(hdr, size);
      OthersKeptTrans(old(mem), bs, m, bs, mem, Blocks(), None);
    }

    /** A block of `size` bytes can be had: one is on the list for it, or the kernel grants every page up to the
        end of a new one. */
    ghost predicate Available(size: nat)
      requires freeHeads.Length == NUM_CLASSES
      reads this, freeHeads
    {
      size > 0 && (ListFor(freeHeads[..], size) || GrantsUpTo(kernel, calls, top, bump + BlockTotal(size)))
    }

    /** malloc.  `i` is the number of the block handed out. */
    method Malloc(size: nat) returns (ptr: nat, ghost i: nat)
      requires Valid() && BlockTotal(size) < U32_LIMIT
      modifies this, freeHeads
      ensures Valid() && |run| >= |old(run)|
      ensures ptr == 0 ==> Unchanged(old(mem), old(Blocks()), mem, Blocks()) && bump == old(bump)
      ensures ptr != 0 ==> Granted(old(mem), old(Blocks()), mem, Blocks(), ptr, i, size)
      // null exactly for size 0, or when no block is listed and a page is needed and refused
      ensures ptr != 0 <==> old(Available(size))
      ensures size == 0 ==> run == old(run)
      ensures size == 0 || ListFor(old(freeHeads[..]), size) ==>
        bump == old(bump) && top == old(top) && calls == old(calls)
      ensures size > 0 && !ListFor(old(freeHeads[..]), size) ==>
        (calls, top, ptr != 0) == AskUpTo(kernel, old(calls), old(top), old(bump) + BlockTotal(size))
      // requests of at most eight bytes never reuse a block
      ensures 0 < size <= 8 && ptr != 0 ==> i == |old(Blocks())| && bump == old(bump) + 32
    {
      i := 0;
      if size == 0 {
        SamePlaceKept(mem, mem, Blocks());
        return 0, i;
      }
      var class_ := SizeClass(size);
      if class_.Some? {
        if freeHeads[class_.value] != 0 {
          ptr, i := PopHead(class_.value, size);
          return;
        }
      }
      AskedExactly(kernel, calls, top, bump + BlockTotal(size));
      ptr, i := CarveBlock(size);
    }

    /** Marks block i free and puts it at the head of list ci. */
    method FileBlock(ptr: nat, ci: nat, ghost i: nat)
      requires Valid() && i < |Blocks()| && Blocks()[i].Payload() == ptr && Blocks()[i].live
      requires Blocks()[i].Room() >= 0 && SizeClass(Blocks()[i].Room()) == Some(ci)
      modifies `mem, `run, freeHeads
      ensures Valid() && |run| >= |old(run)|
      ensures Freed(old(mem), old(Blocks()), mem, Blocks(), i) == true
    {
      HeaderReads(run, i);
      ghost var p := run[|run| - 1];
      ghost var b := Book(p.b.blocks[i := p.b.blocks[i].(live := false)], p.b.lists[ci := [i] + p.b.lists[ci]]);
      PushBlock(ptr, ci);
      ghost var q := Moment(File(i, ci), Now(), b);
      FileStep(p, q, i, ci);
      ghost var before := run;
      Record(File(i, ci), b);
      FiledFrees(before, run, p, q, i, ci);
    }

    /** The writes: the header's flag, the link in the payload, the list head. */
    method PushBlock(ptr: nat, ci: nat)
      requires freeHeads.Length == NUM_CLASSES && ci < NUM_CLASSES && ptr >= HDR_SIZE
      modifies `mem, freeHeads
      ensures Now() == Pushed(old(Now()), ptr - HDR_SIZE, ci)
    {
      var hdr := ptr - HDR_SIZE;
      mem := SetFlags(mem, hdr, 0);
      var oldHead := freeHeads[ci];
      mem := Store(mem, ptr, LeBytes(oldHead, 8));
      freeHeads[ci] := hdr;
    }

    /** Marks large block i free. */
    method RetireBlock(ptr: nat, ghost i: nat)
      requires Valid() && i < |Blocks()| && Blocks()[i].Payload() == ptr && Blocks()[i].live
      requires Blocks()[i].Room() > MAX_SMALL
      modifies `mem, `run
      ensures Valid() && |run| >= |old(run)|
      ensures Freed(old(mem), old(Blocks()), mem, Blocks(), i) == true
    {
      HeaderReads(run, i);
      ghost var p := run[|run| - 1];
      mem := SetFlags(mem, ptr - HDR_SIZE, 0);
      Record(Retire(i), p.b.(blocks := p.b.blocks[i := p.b.blocks[i].(live := false)]));
      LastStepKeeps(run, i);
    }

    /** free.  Null and already free blocks are left alone. */
    method Free(ptr: nat, ghost i: nat)
      requires Valid() && (ptr == 0 || (i < |Blocks()| && Blocks()[i].Payload() == ptr))
      modifies `mem, `run, freeHeads
      ensures Valid() && |run| >= |old(run)|
      ensures ptr == 0 || !old(Blocks()[i].live) ==>
        run == old(run) && mem == old(mem) && freeHeads[..] == old(freeHeads[..])
      ensures ptr != 0 && old(Blocks()[i].live) ==> Freed(old(mem), old(Blocks()), mem, Blocks(), i)
    {
      if ptr == 0 { return; }
      HeaderReads(run, i);
      var hdr := ptr - HDR_SIZE;
      if Load(mem, hdr + 4, 4) % 2 == 0 { return; } // double-free guard
      var class_ := SizeClass(Load(mem, hdr, 4) - HDR_SIZE);
      if class_.Some? {
        FileBlock(ptr, class_.value, i);
      } else {
        RetireBlock(ptr, i);
      }
    }

    /** A client writes into a block it owns. */
    method Poke(addr: nat, bytes: seq<Byte>, ghost i: nat)
      requires Valid() && i < |Blocks()| && Blocks()[i].live
      requires Blocks()[i].Payload() <= addr && addr + |bytes| <= Blocks()[i].End()
      modifies `mem, `run
      ensures Valid() && |run| >= |old(run)| && Blocks() == old(Blocks())
      ensures mem == Store(old(mem), addr, bytes) && Mapped(mem, addr, |bytes|)
      ensures OthersKept(old(mem), old(Blocks()), mem, Blocks(), Some(i))
    {
      HeaderReads(run, i);
      ghost var b := run[|run| - 1].b;
      mem := Store(mem, addr, bytes);
      Record(Write(i, addr, bytes), b);
      LastStepKeeps(run, i);
    }

    /** calloc: all zero, also on a recycled block. */
    method Calloc(nmemb: nat, size: nat) returns (ptr: nat, ghost i: nat)
      requires Valid() && (nmemb * size >= U64_LIMIT || BlockTotal(nmemb * size) < U32_LIMIT)
      modifies this, freeHeads
      ensures Valid() && |run| >= |old(run)|
      ensures ptr != 0 <==> nmemb * size < U64_LIMIT && old(Available(nmemb * size))
      ensures ptr == 0 ==> Unchanged(old(mem), old(Blocks()), mem, Blocks())
      ensures ptr != 0 ==> Granted(old(mem), old(Blocks()), mem, Blocks(), ptr, i, nmemb * size)
      ensures ptr != 0 ==> Mapped(mem, ptr, nmemb * size) && Slice(mem, ptr, nmemb * size) == Zeros(nmemb * size)
    {
      i := 0;
      var total := nmemb * size;
      if total == 0 || total >= U64_LIMIT {
        SamePlaceKept(mem, mem, Blocks());
        return 0, i;
      }
      ptr, i := Malloc(total);
      if ptr != 0 {
        ghost var m1, bs1 := mem, Blocks();
        Poke(ptr, Zeros(total), i);
        OthersKeptThen(old(mem), old(Blocks()), m1, bs1, mem, Blocks(), i);
        assert Slice(mem, ptr, total) == Zeros(total);
      }
    }

    /** Allocating and freeing eight bytes over and over: each round carves 32 fresh bytes although
        no two of these blocks are ever live together, because the freed block is filed under
        class 1 while the request looks on list 0. */
    method EightByteChurn(n: nat) returns (ok: bool)
      requires Valid()
      modifies this, freeHeads
      ensures Valid() && (ok <==> GrantsUpTo(kernel, old(calls), old(top), old(bump) + 32 * n))
      ensures ok ==> bump == old(bump) + 32 * n && |Blocks()| == |old(Blocks())| + n
      ensures ok ==> forall k :: |old(Blocks())| <= k < |Blocks()| ==> !Blocks()[k].live
    {
      ok := true;
      ghost var end := bump + 32 * n;
      AskedExactly(kernel, calls, top, end);
      for round := 0 to n
        invariant Valid() && ok
        invariant AskUpTo(kernel, calls, top, end) == AskUpTo(kernel, old(calls), old(top), end)
        invariant bump == old(bump) + 32 * round && |Blocks()| == |old(Blocks())| + round
        invariant forall k :: |old(Blocks())| <= k < |Blocks()| ==> !Blocks()[k].live
      {
        AskFurther(kernel, calls, top, bump + 32, end);
        ok := ChurnOnce();
        if !ok { return; }
      }
      BumpAligned(run);
    }

    method ChurnOnce() returns (ok: bool)
      requires Valid()
      modifies this, freeHeads
      ensures Valid() && (calls, top, ok) == AskUpTo(kernel, old(calls), old(top), old(bump) + 32)
      ensures ok ==> bump == old(bump) + 32 && |Blocks()| == |old(Blocks())| + 1 && !Blocks()[|old(Blocks())|].live
      ensures ok ==> Blocks()[..|old(Blocks())|] == old(Blocks())
    {
      var ptr, i := Malloc(8);
      ok := ptr != 0;
      if ok { Free(ptr, i); }
    }

    /** realloc of live block i (or of null).  `j` is the number of the block returned. */
    method Realloc(ptr: nat, newSize: nat, ghost i: nat) returns (r: nat, ghost j: nat)
      requires Valid() && BlockTotal(newSize) < U32_LIMIT
      requires ptr == 0 || (i < |Blocks()| && Blocks()[i].live && Blocks()[i].Payload() == ptr)
      modifies this, freeHeads
      ensures Valid() && |run| >= |old(run)|
      ensures r != 0 <==> newSize > 0 && ((ptr != 0 && newSize <= old(Blocks()[i].Room())) || old(Available(newSize)))
      ensures ptr == 0 && r == 0 ==> Unchanged(old(mem), old(Blocks()), mem, Blocks())
      ensures ptr == 0 && r != 0 ==> Granted(old(mem), old(Blocks()), mem, Blocks(), r, j, newSize)
      ensures ptr != 0 && newSize == 0 ==> r == 0 && Freed(old(mem), old(Blocks()), mem, Blocks(), i)
      ensures ptr != 0 && 0 < newSize <= old(Blocks()[i].Room()) ==>
        r == ptr && j == i && run == old(run) && mem == old(mem)
      // growing: either nothing changed, or the whole old payload moved to a new block
      ensures ptr != 0 && newSize > old(Blocks()[i].Room()) ==>
        if r == 0 then Unchanged(old(mem), old(Blocks()), mem, Blocks())
        else Moved(old(mem), old(Blocks()), mem, Blocks(), i, j, r, newSize)
    {
      if ptr == 0 {
        r, j := Malloc(newSize);
        return;
      }
      j := i;
      HeaderReads(run, i);
      if newSize == 0 {
        Free(ptr, i);
        return 0, j;
      }
      var oldUser := Load(mem, ptr - HDR_SIZE, 4) - HDR_SIZE;
      if newSize <= oldUser { return ptr, j; }
      r, j := Grow(ptr, oldUser, newSize, i);
    }

    /** The growing half of realloc: a new block, a copy of the old payload, the old block freed. */
    method Grow(ptr: nat, oldUser: nat, newSize: nat, ghost i: nat) returns (r: nat, ghost j: nat)
      requires Valid() && BlockTotal(newSize) < U32_LIMIT
      requires i < |Blocks()| && Blocks()[i].live && Blocks()[i].Payload() == ptr
        && Blocks()[i].Room() == oldUser < newSize
      modifies this, freeHeads
      ensures Valid() && |run| >= |old(run)| && (r != 0 <==> old(Available(newSize)))
      ensures r == 0 ==> Unchanged(old(mem), old(Blocks()), mem, Blocks())
      ensures r != 0 ==> Moved(old(mem), old(Blocks()), mem, Blocks(), i, j, r, newSize)
    {
      HeaderReads(run, i);
      ghost var m0, bs0 := mem, Blocks();
      r, j := Malloc(newSize);
      if r == 0 { return; }
      ghost var m1, bs1 := mem, Blocks();
      assert Kept(m0, bs0, m1, bs1, i);
      Poke(r, Slice(mem, ptr, oldUser), j);
      ghost var m2, bs2 := mem, Blocks();
      Free(ptr, i);
      MovedByCopy(m0, bs0, m1, bs1, m2, bs2, mem, Blocks(), i, j, r, newSize);
    }
  }

  /** realloc's growth: block j is new, holds the old payload of block i, and block i is gone. */
  ghost predicate Moved(m: Mem, was: seq<Block>, m': Mem, now: seq<Block>, i: nat, j: nat, r: nat, size: nat) {
    && i < |was| && was[i].Room() >= 0 && i != j && (j < |was| ==> !was[j].live)
    && i < |now| && !now[i].live && j < |now| && now[j].live
    && now[j].Payload() == r && r % HDR_ALIGN == 0 && size <= now[j].Room()
    && (forall k :: 0 <= k < |was| && k != i && k != j ==> k < |now| && now[k] == was[k])
    && Mapped(m, was[i].Payload(), was[i].Room()) && Mapped(m', r, was[i].Room())
    && Slice(m', r, was[i].Room()) == Slice(m, was[i].Payload(), was[i].Room())
    && OthersKept(m, was, m', now, Some(i))
  }

  lemma MovedByCopy(m0: Mem, bs0: seq<Block>, m1: Mem, bs1: seq<Block>, m2: Mem, bs2: seq<Block>, m3: Mem,
    bs3: seq<Block>,
                    i: nat, j: nat, r: nat, size: nat)
    requires i < |bs0| && bs0[i].live && 0 <= bs0[i].Room() < size
    requires Mapped(m0, bs0[i].Payload(), bs0[i].Room())
    requires Granted(m0, bs0, m1, bs1, r, j, size)
    requires Mapped(m1, bs0[i].Payload(), bs0[i].Room())
    requires m2 == Store(m1, r, Slice(m1, bs0[i].Payload(), bs0[i].Room())) && bs2 == bs1
    requires Mapped(m2, r, bs0[i].Room())
    requires OthersKept(m1, bs1, m2, bs2, Some(j)) && Freed(m2, bs2, m3, bs3, i)
    ensures Moved(m0, bs0, m3, bs3, i, j, r, size)
  {
    var n := bs0[i].Room();
    assert Kept(m0, bs0, m1, bs1, i);
    assert Slice(m1, bs0[i].Payload(), n) == Slice(m0, bs0[i].Payload(), n);
    assert Slice(m2, r, n) == Slice(m1, bs0[i].Payload(), n);
    assert Kept(m2, bs2, m3, bs3, j);
    assert Slice(m3, r, n) == Slice(m2, r, n);
    OthersKeptThen(m0, bs0, m1, bs1, m2, bs2, j);
    forall k: nat | k < |bs0| && bs0[k].live && k != i ensures Kept(m0, bs0, m3, bs3, k) {
      assert Kept(m0, bs0, m2, bs2, k) && Kept(m2, bs2, m3, bs3, k);
    }
  }

  lemma BumpAligned(run: seq<Moment>)
    requires IsRun(run)
    ensures var s := run[|run| - 1].s; HEAP_START <= s.bump <= s.top && s.bump % HDR_ALIGN == 0
    ensures |run[|run| - 1].b.lists| == NUM_CLASSES
  {
    EveryRunKeepsInv(run, |run| - 1);
    TiledBump(run[|run| - 1].b.blocks, run[|run| - 1].s.bump);
  }

  lemma TiledBump(blocks: seq<Block>, bump: nat)
    requires Tiled(blocks, bump)
    ensures HEAP_START <= bump && bump % HDR_ALIGN == 0
  {
    if |blocks| > 0 { assert WellSized(blocks[|blocks| - 1], bump); }
  }

  lemma HeadReadable(run: seq<Moment>, c: nat)
    requires IsRun(run) && c < NUM_CLASSES && |run[|run| - 1].s.heads| == NUM_CLASSES && run[|run| - 1].s.heads[c] != 0
    ensures var m := run[|run| - 1];
      && Mapped(m.s.mem, m.s.heads[c] + HDR_SIZE, 8)
      && |m.b.lists| == NUM_CLASSES && m.b.lists[c] != [] && m.b.lists[c][0] < |m.b.blocks|
      && m.b.blocks[m.b.lists[c][0]].addr == m.s.heads[c]
  {
    EveryRunKeepsInv(run, |run| - 1);
    HeadBlock(run[|run| - 1].s, run[|run| - 1].b, c);
  }

  /** Every block's header reads back what the block is. */
  lemma HeaderReads(run: seq<Moment>, i: nat)
    requires IsRun(run) && i < |run[|run| - 1].b.blocks|
    ensures var b, m := run[|run| - 1].b.blocks[i], run[|run| - 1].s.mem;
      && Mapped(m, b.addr, 4) && Load(m, b.addr, 4) == b.total && b.Room() >= 0
      && Mapped(m, b.addr + 4, 4) && Load(m, b.addr + 4, 4) == FlagsOf(b.live)
      && Mapped(m, b.Payload(), b.Room())
    ensures |run[|run| - 1].b.lists| == NUM_CLASSES
  {
    EveryRunKeepsInv(run, |run| - 1);
    var q := run[|run| - 1];
    assert HeaderOk(q.s.mem, q.b.blocks[i]) && WellSized(q.b.blocks[i], q.s.bump);
  }

  /** After a step that touched block i alone. */
  lemma LastStepKeeps(run: seq<Moment>, i: nat)
    requires IsRun(run) && |run| > 1 && StepOk(run[|run| - 2], run[|run| - 1])
    requires Touched(run[|run| - 2], run[|run| - 1]) == Some(i)
    ensures var p, q := run[|run| - 2], run[|run| - 1];
      OthersKept(p.s.mem, p.b.blocks, q.s.mem, q.b.blocks, Some(i))
  {
    EveryRunKeepsInv(run, |run| - 2);
    OthersKeptByStep(run[|run| - 2], run[|run| - 1], Some(i));
  }

  /** Block i is the only one that changed: it was not live before and is live now. */
  ghost predicate Handed(was: seq<Block>, now: seq<Block>, i: nat) {
    && i <= |was| && i < |now| && now[i].live
    && |now| == (if i == |was| then |was| + 1 else |was|)
    && (i < |was| ==> !was[i].live && now[i] == was[i].(live := true))
    && (forall j :: 0 <= j < |was| && j != i ==> now[j] == was[j])
  }

  /** A free block of the class of `size` is waiting. */
  predicate ListFor(heads: seq<nat>, size: nat)
    requires |heads| == NUM_CLASSES
  {
    SizeClass(size).Some? && heads[SizeClass(size).value] != 0
  }

  /** What a successful allocation promises: block i holds `size` bytes at an aligned ptr,
      was nobody's before, and nobody else's bytes moved. */
  ghost predicate Granted(m: Mem, was: seq<Block>, m': Mem, now: seq<Block>, ptr: nat, i: nat, size: nat) {
    && Handed(was, now, i) && now[i].Payload() == ptr && ptr % HDR_ALIGN == 0 && ptr > 0
    && size <= now[i].Room()
    && OthersKept(m, was, m', now, None)
  }

  lemma FiledFrees(before: seq<Moment>, run: seq<Moment>, p: Moment, q: Moment, i: nat, c: nat)
    requires IsRun(before) && p == before[|before| - 1] && IsRun(run) && run == before + [q] && StepOk(p, q)
    requires q.step == File(i, c) && i < |p.b.blocks| && p.b.blocks[i].live
    requires q.b.blocks == p.b.blocks[i := p.b.blocks[i].(live := false)]
    ensures Freed(p.s.mem, p.b.blocks, q.s.mem, q.b.blocks, i)
  {
    assert run[|run| - 2] == p && run[|run| - 1] == q;
    LastStepKeeps(run, i);
  }

  lemma FileStep(p: Moment, q: Moment, i: nat, c: nat)
    requires |p.s.heads| == NUM_CLASSES && |p.b.lists| == NUM_CLASSES && q.step == File(i, c)
    requires i < |p.b.blocks| && p.b.blocks[i].live && p.b.blocks[i].Room() >= 0
      && SizeClass(p.b.blocks[i].Room()) == Some(c)
    requires q.s == Pushed(p.s, p.b.blocks[i].addr, c)
    requires q.b == Book(p.b.blocks[i := p.b.blocks[i].(live := false)], p.b.lists[c := [i] + p.b.lists[c]])
    ensures StepOk(p, q)
  {
  }

  /** Block i is no longer live; every other owned byte is as before. */
  ghost predicate Freed(m: Mem, was: seq<Block>, m': Mem, now: seq<Block>, i: nat) {
    && i < |was| && was[i].live && now == was[i := was[i].(live := false)]
    && OthersKept(m, was, m', now, Some(i))
  }

  /** The blocks and every owned byte are as before. */
  ghost predicate Unchanged(m: Mem, was: seq<Block>, m': Mem, now: seq<Block>) {
    now == was && OthersKept(m, was, m', now, None)
  }

  function Zeros(n: nat): (z: seq<Byte>)
    ensures |z| == n && forall i :: 0 <= i < n ==> z[i] == 0
  {
    seq(n, _ => 0)
  }

  /** A block handed out by the first change may be written by the second. */
  lemma OthersKeptThen(m: Mem, bs: seq<Block>, m1: Mem, bs1: seq<Block>, m2: Mem, bs2: seq<Block>, i: nat)
    requires OthersKept(m, bs, m1, bs1, None) && OthersKept(m1, bs1, m2, bs2, Some(i))
    requires i < |bs| ==> !bs[i].live
    ensures OthersKept(m, bs, m2, bs2, None)
  {
    forall k: nat | k < |bs| && bs[k].live ensures Kept(m, bs, m2, bs2, k) {
      assert Kept(m, bs, m1, bs1, k);
      assert Kept(m1, bs1, m2, bs2, k);
    }
  }

  lemma SamePlaceKept(m: Mem, m': Mem, blocks: seq<Block>)
    requires KeptOutside(m, m', 0, 0)
    ensures OthersKept(m, blocks, m', blocks, None)
  {
    forall i: nat | i < |blocks| ensures Kept(m, blocks, m', blocks, i) {}
  }

  /** Taking the head of the request's list grants a block that is large enough: the spans on
      list c are all exactly that of class c. */
  lemma ReuseGrants(run: seq<Moment>, c: nat, size: nat)
    requires IsRun(run) && |run| > 1 && StepOk(run[|run| - 2], run[|run| - 1])
    requires run[|run| - 1].step == Reuse(c) && SizeClass(size) == Some(c)
    ensures var p, q := run[|run| - 2], run[|run| - 1];
      c > 0 && Granted(p.s.mem, p.b.blocks, q.s.mem, q.b.blocks, p.s.heads[c] + HDR_SIZE, p.b.lists[c][0], size)
  {
    var p, q := run[|run| - 2], run[|run| - 1];
    EveryRunKeepsInv(run, |run| - 2);
    ReusedFits(p.s, p.b, c, size);
    HeadBlock(p.s, p.b, c);
    OthersKeptByStep(p, q, None);
  }

  lemma ReusedFits(s: State, b: Book, c: nat, size: nat)
    requires Inv(s, b) && SizeClass(size) == Some(c) && s.heads[c] != 0
    ensures c > 0 && b.lists[c] != [] && b.lists[c][0] < |b.blocks|
    ensures var blk := b.blocks[b.lists[c][0]]; size <= blk.Room() && blk.Payload() % HDR_ALIGN == 0
  {
    HeadBlock(s, b, c);
    ListedNode(s, b, c, 0);
    assert SpanOk(b.blocks[b.lists[c][0]].total);
  }

  lemma CarveGrants(run: seq<Moment>, size: nat)
    requires IsRun(run) && |run| > 1 && StepOk(run[|run| - 2], run[|run| - 1])
    requires run[|run| - 1].step == Carve(size)
    ensures var p, q := run[|run| - 2], run[|run| - 1];
      Granted(p.s.mem, p.b.blocks, q.s.mem, q.b.blocks, p.s.bump + HDR_SIZE, |p.b.blocks|, size)
  {
    var p, q := run[|run| - 2], run[|run| - 1];
    EveryRunKeepsInv(run, |run| - 2);
    OthersKeptByStep(p, q, None);
    TiledBump(p.b.blocks, p.s.bump);
    var nb := Block(p.s.bump, BlockTotal(size), true);
    assert q.b.blocks == p.b.blocks + [nb] && q.b.blocks[|p.b.blocks|] == nb;
    AlignedOn(p.s.bump);
  }

  lemma AlignedOn(addr: nat)
    requires addr % HDR_ALIGN == 0
    ensures (addr + HDR_SIZE) % HDR_ALIGN == 0
  {
  }
}
