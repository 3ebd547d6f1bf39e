/** Whole runs of the heap: what holds in every reachable state, and what clients and the kernel see of a run. */
module HeapRuns {
  import opened Bytes
  import opened HeapState

  /** One step of the allocator or of a client writing its own block. */
  datatype Step =
    | Start
    | MapPage
    | Carve(size: nat)
    | Reuse(class_: nat)
    | File(block: nat, class_: nat)
    | Retire(block: nat)
    | Write(block: nat, addr: nat, bytes: seq<Byte>)

  /** A moment of a run: the step that led to it and the state it left. */
  datatype Moment = Moment(step: Step, s: State, b: Book)

  ghost predicate Initial(m: Moment) {
    && m.step.Start? && m.s.bump == HEAP_START && m.s.top == HEAP_START
    && m.s.heads == seq(NUM_CLASSES, _ => 0)
    && m.b == Book([], seq(NUM_CLASSES, _ => []))
  }

  ghost predicate StepOk(p: Moment, q: Moment) {
    && |p.s.heads| == NUM_CLASSES && |p.b.lists| == NUM_CLASSES
    && match q.step
    case Start => false
    case MapPage =>
      && p.s.top + PAGE <= USER_VA_END
      && KeptOutside(p.s.mem, q.s.mem, 0, 0)
      && (forall x :: p.s.top <= x < p.s.top + PAGE ==> x in q.s.mem)
      && q.s == p.s.(mem := q.s.mem, top := p.s.top + PAGE) && q.b == p.b
    case Carve(size) =>
      var c, total := SizeClass(size), BlockTotal(size);
      && size > 0 && total < U32_LIMIT && p.s.bump + total <= p.s.top
      && (c.Some? ==> p.s.heads[c.value] == 0)
      && q.s == Carved(p.s, total)
      && q.b == p.b.(blocks := p.b.blocks + [Block(p.s.bump, total, true)])
    case Reuse(c) =>
      && c < NUM_CLASSES && p.s.heads[c] != 0
      && Mapped(p.s.mem, p.s.heads[c] + HDR_SIZE, 8) && q.s == Popped(p.s, c)
      && p.b.lists[c] != [] && p.b.lists[c][0] < |p.b.blocks| && q.b == PoppedBook(p.b, c)
    case File(i, c) =>
      && i < |p.b.blocks| && p.b.blocks[i].live
      && p.b.blocks[i].Room() >= 0 && SizeClass(p.b.blocks[i].Room()) == Some(c)
      && q.s == Pushed(p.s, p.b.blocks[i].addr, c)
      && q.b == Book(p.b.blocks[i := p.b.blocks[i].(live := false)], p.b.lists[c := [i] + p.b.lists[c]])
    case Retire(i) =>
      && i < |p.b.blocks| && p.b.blocks[i].live && p.b.blocks[i].Room() > MAX_SMALL
      && q.s == p.s.(mem := SetFlags(p.s.mem, p.b.blocks[i].addr, 0))
      && q.b == p.b.(blocks := p.b.blocks[i := p.b.blocks[i].(live := false)])
    case Write(i, addr, bytes) =>
      && i < |p.b.blocks| && p.b.blocks[i].live
      && p.b.blocks[i].Payload() <= addr && addr + |bytes| <= p.b.blocks[i].End()
      && q.s == p.s.(mem := Store(p.s.mem, addr, bytes)) && q.b == p.b
  }

  lemma StepKeeps(p: Moment, q: Moment)
    requires Inv(p.s, p.b) && StepOk(p, q)
    ensures Inv(q.s, q.b)
  {
    match q.step
    case MapPage => MapKeeps(p.s, p.b, q.s.mem);
    case Carve(size) => CarveKeeps(p.s, p.b, BlockTotal(size));
    case Reuse(c) => PopKeeps(p.s, p.b, c);
    case File(i, c) => PushKeeps(p.s, p.b, i, c);
    case Retire(i) => RetireKeeps(p.s, p.b, i);
    case Write(i, addr, bytes) => ClientWriteKeeps(p.s, p.b, i, addr, bytes);
  }

  /** A history of the heap from its start: every moment follows from the one before. */
  ghost predicate IsRun(run: seq<Moment>) {
    && |run| > 0 && Initial(run[0])
    && (forall k {:trigger StepOk(run[k - 1], run[k])} :: 0 < k < |run| ==> StepOk(run[k - 1], run[k]))
  }

  /** In every reachable state the blocks tile the heap, the headers are intact and the
      lists are the finite, acyclic, complete lists of the free small blocks. */
  lemma {:induction false} EveryRunKeepsInv(run: seq<Moment>, k: nat)
    requires IsRun(run) && k < |run|
    ensures Inv(run[k].s, run[k].b)
  {
    if k > 0 {
      EveryRunKeepsInv(run, k - 1);
      assert StepOk(run[k - 1], run[k]);
      StepKeeps(run[k - 1], run[k]);
    } else {
      var m := run[0];
      forall c | 0 <= c < NUM_CLASSES ensures ListOk(m.s.mem, m.b.blocks, m.b.lists[c], c, m.s.heads[c]) {}
    }
  }

  // ---------------------------------------------------------------- what clients rely on

  /** Two live blocks never share a byte of memory, and every payload is 16-aligned and mapped. */
  lemma LiveBlocksApart(run: seq<Moment>, k: nat, i: nat, j: nat)
    requires IsRun(run) && k < |run|
    requires i < j < |run[k].b.blocks|
    ensures run[k].b.blocks[i].End() <= run[k].b.blocks[j].addr
    ensures run[k].b.blocks[j].Payload() % HDR_ALIGN == 0
    ensures Mapped(run[k].s.mem, run[k].b.blocks[j].addr, run[k].b.blocks[j].total)
  {
    EveryRunKeepsInv(run, k);
    var blocks := run[k].b.blocks;
    Apart(blocks, run[k].s.bump, i, j);
  }

  /** The block a step writes into, if any; a new block has the next number. */
  ghost function Touched(p: Moment, q: Moment): Option<nat>
    requires StepOk(p, q)
  {
    match q.step
    case MapPage => None
    case Carve(_) => Some(|p.b.blocks|)
    case Reuse(c) => Some(p.b.lists[c][0])
    case File(i, _) => Some(i)
    case Retire(i) => Some(i)
    case Write(i, _, _) => Some(i)
  }

  /** Every byte outside the touched block survives a step. */
  lemma StepFrame(p: Moment, q: Moment)
    requires Inv(p.s, p.b) && StepOk(p, q)
    ensures |p.b.blocks| <= |q.b.blocks|
    ensures forall i :: 0 <= i < |p.b.blocks| && Touched(p, q) != Some(i) ==> q.b.blocks[i] == p.b.blocks[i]
    ensures Touched(p, q).None? ==> KeptOutside(p.s.mem, q.s.mem, 0, 0)
    ensures Touched(p, q).Some? ==>
      && Touched(p, q).value < |q.b.blocks|
      && var b := q.b.blocks[Touched(p, q).value]; KeptOutside(p.s.mem, q.s.mem, b.addr, b.End())
  {
    if Touched(p, q).Some? && Touched(p, q).value < |p.b.blocks| {
      assert WellSized(p.b.blocks[Touched(p, q).value], p.s.bump);
    }
    if q.step.Reuse? { HeadBlock(p.s, p.b, q.step.class_); }
  }

  /** No step but a write to block i itself changes a payload byte of block i while it is live. */
  lemma StepSparesPayload(p: Moment, q: Moment, i: nat)
    requires Inv(p.s, p.b) && StepOk(p, q)
    requires i < |p.b.blocks| && i < |q.b.blocks| && p.b.blocks[i].live && q.b.blocks[i].live
    requires q.step.Write? ==> q.step.block != i
    ensures q.b.blocks[i] == p.b.blocks[i]
    ensures KeptIn(p.s.mem, q.s.mem, p.b.blocks[i].Payload(), p.b.blocks[i].End())
  {
    StepFrame(p, q);
    StepKeeps(p, q);
    if q.step.Reuse? { HeadBlock(p.s, p.b, q.step.class_); }
    assert Touched(p, q) != Some(i);
    if Touched(p, q).Some? { Apart(q.b.blocks, q.s.bump, i, Touched(p, q).value); }
  }

  /** A payload keeps its bytes across any stretch of a run in which its block stays live
      and its owner does not write it, whatever else is allocated, freed or written. */
  lemma {:induction false} RunSparesPayload(run: seq<Moment>, first: nat, last: nat, i: nat)
    requires IsRun(run) && first <= last < |run|
    requires forall k :: first <= k <= last ==> i < |run[k].b.blocks| && run[k].b.blocks[i].live
    requires forall k :: first < k <= last && run[k].step.Write? ==> run[k].step.block != i
    ensures run[last].b.blocks[i] == run[first].b.blocks[i]
    ensures KeptIn(run[first].s.mem, run[last].s.mem, run[first].b.blocks[i].Payload(), run[first].b.blocks[i].End())
    decreases last
  {
    if first < last {
      RunSparesPayload(run, first, last - 1, i);
      EveryRunKeepsInv(run, last - 1);
      assert StepOk(run[last - 1], run[last]);
      StepSparesPayload(run[last - 1], run[last], i);
    }
  }

  /** No heap page is mapped twice: successive mappings climb. */
  lemma {:induction false} TopClimbs(run: seq<Moment>, j: nat, k: nat)
    requires IsRun(run) && j <= k < |run|
    ensures run[j].s.top <= run[k].s.top
    ensures j < k && run[k].step.MapPage? ==> run[j].s.top < run[k].s.top
    decreases k
  {
    if j < k {
      TopClimbs(run, j, k - 1);
      assert StepOk(run[k - 1], run[k]);
    }
  }

  /** The page mapped by step k. */
  ghost function PageOf(run: seq<Moment>, k: nat): nat
    requires 0 < k < |run|
  {
    run[k - 1].s.top
  }

  lemma PagesMappedOnce(run: seq<Moment>, j: nat, k: nat)
    requires IsRun(run) && 0 < j < k < |run| && run[j].step.MapPage? && run[k].step.MapPage?
    ensures PageOf(run, j) < PageOf(run, k)
  {
    TopClimbs(run, j, k - 1);
    assert StepOk(run[j - 1], run[j]);
  }

  // ---------------------------------------------------------------- growth

  ghost function CarvedOf(blocks: seq<Block>, total: nat): set<nat> {
    set i: nat | i < |blocks| && blocks[i].total == total
  }

  ghost function LiveOf(blocks: seq<Block>, total: nat): set<nat> {
    set i: nat | i < |blocks| && blocks[i].total == total && blocks[i].live
  }

  /** The largest number of blocks of one span ever live at the same moment. */
  ghost function Peak(run: seq<Moment>, total: nat): nat {
    if run == [] then 0 else
      var earlier, now := Peak(run[..|run| - 1], total), |LiveOf(run[|run| - 1].b.blocks, total)|;
      if earlier < now then now else earlier
  }

  /** A span of a class from 16 bytes up is asked for by requests of that class only; the smallest span also
      by requests of at most 8 bytes. */
  lemma SpanNamesClass(size: nat, c: nat)
    requires size > 0 && 1 <= c < NUM_CLASSES && (c == 1 ==> size > 8) && BlockTotal(size) == CLASS_SIZES[c] + HDR_SIZE
    ensures SizeClass(size) == Some(c)
  {
    var k := SizeClass(size);
    assert k.Some?;
    assert TotalFor(CLASS_SIZES[k.value]) == (if k.value == 0 then 32 else CLASS_SIZES[k.value] + HDR_SIZE);
  }

  /** While list c is empty every block of class c is live. */
  lemma EmptyListAllLive(s: State, b: Book, c: nat)
    requires Inv(s, b) && 1 <= c < NUM_CLASSES && s.heads[c] == 0
    ensures LiveOf(b.blocks, CLASS_SIZES[c] + HDR_SIZE) == CarvedOf(b.blocks, CLASS_SIZES[c] + HDR_SIZE)
  {
    assert ListOk(s.mem, b.blocks, b.lists[c], c, s.heads[c]);
    if b.lists[c] != [] { ListedNode(s, b, c, 0); }
    forall i: nat | i < |b.blocks| && b.blocks[i].total == CLASS_SIZES[c] + HDR_SIZE ensures b.blocks[i].live {
      assert SizeClass(b.blocks[i].Room()) == Some(c);
      assert FreeOfClass(b.blocks[i].(live := false), c);
    }
  }

  lemma LiveAmongCarved(blocks: seq<Block>, total: nat)
    ensures LiveOf(blocks, total) <= CarvedOf(blocks, total) && |LiveOf(blocks, total)| <= |CarvedOf(blocks, total)|
  {
    SubsetSize(LiveOf(blocks, total), CarvedOf(blocks, total));
  }

  lemma SameSpans(was: seq<Block>, now: seq<Block>, total: nat)
    requires |was| <= |now| && (forall i :: 0 <= i < |was| ==> now[i].total == was[i].total)
    requires forall i :: |was| <= i < |now| ==> now[i].total != total
    ensures CarvedOf(now, total) == CarvedOf(was, total)
  {
  }

  /** A step carves at most one block of a span, and only when all its blocks are live. */
  lemma StepGrowth(p: Moment, q: Moment, c: nat)
    requires Inv(p.s, p.b) && StepOk(p, q) && 1 <= c < NUM_CLASSES && (c == 1 && q.step.Carve? ==> q.step.size > 8)
    ensures var t := CLASS_SIZES[c] + HDR_SIZE;
      || CarvedOf(q.b.blocks, t) == CarvedOf(p.b.blocks, t)
      || (&& |CarvedOf(q.b.blocks, t)| == |CarvedOf(p.b.blocks, t)| + 1
          && LiveOf(q.b.blocks, t) == CarvedOf(q.b.blocks, t))
  {
    var t := CLASS_SIZES[c] + HDR_SIZE;
    if q.step.Carve? && BlockTotal(q.step.size) == t {
      SpanNamesClass(q.step.size, c);
      EmptyListAllLive(p.s, p.b, c);
      AppendSpan(p.b.blocks, p.s.bump, t);
    } else {
      SameSpans(p.b.blocks, q.b.blocks, t);
    }
  }

  lemma AppendSpan(was: seq<Block>, addr: nat, t: nat)
    requires LiveOf(was, t) == CarvedOf(was, t)
    ensures var now := was + [Block(addr, t, true)];
      |CarvedOf(now, t)| == |CarvedOf(was, t)| + 1 && LiveOf(now, t) == CarvedOf(now, t)
  {
    var now := was + [Block(addr, t, true)];
    assert now[..|was|] == was && now[|was|] == Block(addr, t, true);
    assert forall i :: 0 <= i < |was| ==> now[i] == was[i];
    assert CarvedOf(now, t) == CarvedOf(was, t) + {|was|};
    assert LiveOf(now, t) == LiveOf(was, t) + {|was|};
  }

  /** For the payload classes 16 to 2048, the blocks ever carved are exactly as many as were once live
      together: the heap never grows while a fitting block is free.  The span of class 16 is shared with
      requests of at most 8 bytes, which never reuse a block, so there must have been none. */
  lemma {:induction false} CarvedIsPeak(run: seq<Moment>, c: nat)
    requires IsRun(run) && 1 <= c < NUM_CLASSES
    requires c == 1 ==> forall k :: 0 < k < |run| && run[k].step.Carve? ==> run[k].step.size > 8
    ensures |CarvedOf(run[|run| - 1].b.blocks, CLASS_SIZES[c] + HDR_SIZE)| == Peak(run, CLASS_SIZES[c] + HDR_SIZE)
    decreases |run|
  {
    var t := CLASS_SIZES[c] + HDR_SIZE;
    var n := |run| - 1;
    var last := run[n].b.blocks;
    LiveAmongCarved(last, t);
    if n > 0 {
      var before := run[..n];
      assert IsRun(before) by {
        forall k | 0 < k < n ensures StepOk(before[k - 1], before[k]) { assert StepOk(run[k - 1], run[k]); }
      }
      CarvedIsPeak(before, c);
      EveryRunKeepsInv(run, n - 1);
      assert StepOk(run[n - 1], run[n]);
      StepGrowth(run[n - 1], run[n], c);
    } else {
      assert CarvedOf(last, t) == {} && LiveOf(last, t) == {};
      assert Peak(run[..0], t) == 0;
    }
  }
}
