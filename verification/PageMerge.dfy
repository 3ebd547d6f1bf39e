/** Merging the kernel's page tables into the tables of a new user process, in place, so that
    system calls can run on the user's PML4. */
module PageMerge {
  import opened Bytes
  import opened PageTables

  /** Physical memory and the frames the allocator will hand out next. */
  datatype Machine = Machine(mem: Phys, pool: seq<nat>)

  /** Tables have 512 entries; free frames are all different and hold no table. */
  ghost predicate WellFormed(m: Machine) {
    && (forall t :: t in m.mem ==> |m.mem[t]| == ENTRIES)
    && (forall k :: 0 <= k < |m.pool| ==> m.pool[k] !in m.mem)
    && (forall j, k :: 0 <= j < k < |m.pool| ==> m.pool[j] != m.pool[k])
  }

  /** dst after every empty slot from 1 up to n took over the present entry of src. */
  function CopyUpTo(mem: Phys, src: nat, dst: nat, n: nat): Phys
    requires dst in mem && |mem[dst]| == ENTRIES
  {
    mem[dst := seq(ENTRIES, i requires 0 <= i < ENTRIES =>
      if 1 <= i < n && EntryAt(mem, src, i).present && mem[dst][i] == ZERO then EntryAt(mem, src, i) else mem[dst][i])]
  }

  function CopySlots(m: Machine, src: nat, dst: nat): Machine
    requires dst in m.mem && |m.mem[dst]| == ENTRIES
  {
    m.(mem := CopyUpTo(m.mem, src, dst, ENTRIES))
  }

  /** An entry for a new table: present, writable, user. */
  function TableEntry(frame: nat): Entry {
    Entry(true, true, true, false, false, frame, 0)
  }

  /** Slot 0 of a user table leads to a table, which is created from a zeroed frame if need be. */
  function EnsureTable(m: Machine, dst: nat): Option<Machine>
    requires dst in m.mem && |m.mem[dst]| == ENTRIES
  {
    if m.mem[dst][0].present then Some(m)
    else if m.pool == [] then None
    else
      var p := m.pool[0];
      Some(Machine(m.mem[p := seq(ENTRIES, _ => ZERO)][dst := m.mem[dst][0 := TableEntry(p)]], m.pool[1..]))
  }

  /** The user's tables exist where slot 0 of each level says they are. */
  predicate HasTables(mem: Phys, u: nat, level: nat)
    decreases level
  {
    && u in mem && |mem[u]| == ENTRIES
    && (level > 2 && mem[u][0].present ==> HasTables(mem, mem[u][0].frame, level - 1))
  }

  /** Merging from one level down (4 = PML4, 3 = PDPT, 2 = PD). */
  function MergeFrom(m: Machine, k: nat, u: nat, level: nat): Machine
    decreases level
  {
    if !(u in m.mem && |m.mem[u]| == ENTRIES) then m
    else
      var m1 := CopySlots(m, k, u);
      if level <= 2 || !EntryAt(m1.mem, k, 0).present then m1
      else
        var m2 := EnsureTable(m1, u);
        if m2.None? then m1
        else MergeFrom(m2.value, EntryAt(m1.mem, k, 0).frame, EntryAt(m2.value.mem, u, 0).frame, level - 1)
  }

  function Merge(m: Machine, kern: nat, user: nat): Machine {
    if kern == 0 then m else MergeFrom(m, kern, user, 4)
  }

  // ---------------------------------------------------------------- one table at a time

  lemma CopyEntry(m: Machine, src: nat, dst: nat, t: nat, i: nat)
    requires dst in m.mem && |m.mem[dst]| == ENTRIES
    ensures EntryAt(CopySlots(m, src, dst).mem, t, i) ==
      if t == dst && 1 <= i < ENTRIES && EntryAt(m.mem, src, i).present && EntryAt(m.mem, dst, i) == ZERO
      then EntryAt(m.mem, src, i) else EntryAt(m.mem, t, i)
  {
    var mem' := CopySlots(m, src, dst).mem;
    if t == dst && i < ENTRIES {
      assert EntryAt(mem', dst, i) == mem'[dst][i] && EntryAt(m.mem, dst, i) == m.mem[dst][i];
    }
  }

  lemma CopyWellFormed(m: Machine, src: nat, dst: nat)
    requires WellFormed(m) && dst in m.mem
    ensures WellFormed(CopySlots(m, src, dst)) && CopySlots(m, src, dst).mem.Keys == m.mem.Keys
    ensures PresentKept(m.mem, CopySlots(m, src, dst).mem)
  {
    var m' := CopySlots(m, src, dst);
    forall t: nat, i: nat | EntryAt(m.mem, t, i).present ensures EntryAt(m'.mem, t, i) == EntryAt(m.mem, t, i) {
      CopyEntry(m, src, dst, t, i);
    }
  }

  lemma EnsureEntry(m: Machine, dst: nat, t: nat, i: nat)
    requires WellFormed(m) && dst in m.mem && EnsureTable(m, dst).Some?
    ensures EntryAt(EnsureTable(m, dst).value.mem, t, i) ==
      if t == dst && i == 0 && !EntryAt(m.mem, dst, 0).present then TableEntry(m.pool[0])
      else EntryAt(m.mem, t, i)
  {
    var mem' := EnsureTable(m, dst).value.mem;
    assert EntryAt(m.mem, dst, 0) == m.mem[dst][0];
    if t in mem' && i < |mem'[t]| {
      assert EntryAt(mem', t, i) == mem'[t][i];
    }
  }

  lemma EnsureWellFormed(m: Machine, dst: nat)
    requires WellFormed(m) && dst in m.mem && EnsureTable(m, dst).Some?
    ensures var m' := EnsureTable(m, dst).value;
      && WellFormed(m') && PresentKept(m.mem, m'.mem) && EntryAt(m'.mem, dst, 0).present
      && m.mem.Keys <= m'.mem.Keys <= m.mem.Keys + set p | p in m.pool
      && (forall p :: p in m'.pool ==> p in m.pool)
      && (if EntryAt(m.mem, dst, 0).present then m' == m
          else EntryAt(m'.mem, dst, 0).frame == m.pool[0] && m.pool[0] in m'.mem && !EntryAt(m'.mem, dst, 0).huge)
  {
    var m' := EnsureTable(m, dst).value;
    forall t: nat, i: nat | EntryAt(m.mem, t, i).present ensures EntryAt(m'.mem, t, i) == EntryAt(m.mem, t, i) {
      EnsureEntry(m, dst, t, i);
    }
    EnsureEntry(m, dst, dst, 0);
    if !EntryAt(m.mem, dst, 0).present {
      assert m.pool == [m.pool[0]] + m.pool[1..];
    }
  }

  // ---------------------------------------------------------------- existing translations

  /** The merge changes no present entry of any table whatever, shared or not. */
  lemma {:induction false} MergeKeepsPresent(m: Machine, k: nat, u: nat, level: nat)
    requires WellFormed(m)
    ensures WellFormed(MergeFrom(m, k, u, level)) && PresentKept(m.mem, MergeFrom(m, k, u, level).mem)
    decreases level
  {
    if u in m.mem {
      CopyWellFormed(m, k, u);
      var m1 := CopySlots(m, k, u);
      if level > 2 && EntryAt(m1.mem, k, 0).present && EnsureTable(m1, u).Some? {
        EnsureWellFormed(m1, u);
        var m2 := EnsureTable(m1, u).value;
        MergeKeepsPresent(m2, EntryAt(m1.mem, k, 0).frame, EntryAt(m2.mem, u, 0).frame, level - 1);
      }
    }
  }

  /** No translation that existed before, the user's or anyone's, is changed by the merge: the same
      entries map it with the same rights. */
  lemma MergeKeepsTranslations(m: Machine, kern: nat, user: nat, root: nat, va: nat)
    requires WellFormed(m) && Path(m.mem, root, 4, va).Some?
    ensures Path(Merge(m, kern, user).mem, root, 4, va) == Path(m.mem, root, 4, va)
    ensures Translate(Merge(m, kern, user).mem, root, va) == Translate(m.mem, root, va)
  {
    MergeKeepsPresent(m, kern, user, 4);
    PathKept(m.mem, Merge(m, kern, user).mem, root, 4, va);
  }

  // ---------------------------------------------------------------- what the merge adds

  /** The user tables on the way down through slot 0: the only ones the merge may write. */
  ghost function Written(mem: Phys, u: nat, level: nat): set<nat>
    decreases level
  {
    var e := EntryAt(mem, u, 0);
    {u} + (if level > 2 && e.present then Written(mem, e.frame, level - 1) else {})
  }

  ghost function PoolSet(pool: seq<nat>): set<nat> { set p | p in pool }

  /** The user's tables form a tree: each of the written tables is reached in one way only. */
  ghost predicate UserTree(mem: Phys, u: nat, level: nat, w: set<nat>)
    requires level >= 2
    decreases level
  {
    && u in mem
    && (forall i: nat :: 1 <= i < ENTRIES ==> EntryAvoids(mem, EntryAt(mem, u, i), level, w))
    && var e := EntryAt(mem, u, 0);
       if level == 2 then EntryAvoids(mem, e, level, w)
       else e.present ==>
         !Leaf(e, level) && u !in Written(mem, e.frame, level - 1) && UserTree(mem, e.frame, level - 1, w)
  }

  /** What the merge asks of the user's tables: a tree, apart from the frames still free. */
  ghost predicate UserSide(m: Machine, u: nat, level: nat, w: set<nat>)
    requires level >= 2
  {
    && WellFormed(m) && UserTree(m.mem, u, level, w)
    && Written(m.mem, u, level) <= w && PoolSet(m.pool) <= w
  }

  /** All the merge asks of the two address spaces: kernel tables apart from the tables it writes. */
  ghost predicate Separate(m: Machine, k: nat, u: nat, level: nat, w: set<nat>)
    requires level >= 2
  {
    UserSide(m, u, level, w) && Avoids(m.mem, k, level, w)
  }

  /** No 1 GB page stands where the merge takes an entry for a table on the way of va. */
  ghost predicate KernelPlain(mem: Phys, k: nat, level: nat, va: nat)
    requires level >= 2
    decreases level
  {
    var ke := EntryAt(mem, k, 0);
    level > 2 && Index(va, level) == 0 && ke.present ==> !Leaf(ke, level) && KernelPlain(mem, ke.frame, level - 1, va)
  }

  /** Whatever the merge takes for a kernel table on the way of va leads to no table it writes. */
  ghost predicate TakenApart(mem: Phys, k: nat, level: nat, va: nat, w: set<nat>)
    requires level >= 2
    decreases level
  {
    var ke := EntryAt(mem, k, 0);
    && Avoids(mem, k, level, w)
    && (level > 2 && Index(va, level) == 0 && ke.present ==> TakenApart(mem, ke.frame, level - 1, va, w))
  }

  /** That is so of real tables: only a 1 GB page can hold anything else. */
  lemma {:induction false} PlainTakenApart(mem: Phys, k: nat, level: nat, va: nat, w: set<nat>)
    requires level >= 2 && Avoids(mem, k, level, w) && KernelPlain(mem, k, level, va)
    ensures TakenApart(mem, k, level, va, w)
    decreases level
  {
    var ke := EntryAt(mem, k, 0);
    assert EntryAvoids(mem, ke, level, w);
    if level > 2 && Index(va, level) == 0 && ke.present { PlainTakenApart(mem, ke.frame, level - 1, va, w); }
  }

  /** Whether the merge goes on below slot 0 of this level. */
  ghost predicate Descends(mem: Phys, pool: seq<nat>, k: nat, u: nat, level: nat) {
    level > 2 && EntryAt(mem, k, 0).present && (EntryAt(mem, u, 0).present || |pool| > 0)
  }

  /** The walk after the merge, told in terms of the walks before it: below an empty slot the
      kernel's own path, elsewhere the user's old path. */
  ghost function Expected(mem: Phys, pool: seq<nat>, k: nat, u: nat, level: nat, va: nat): Option<seq<Entry>>
    requires level >= 2
    decreases level
  {
    var i := Index(va, level);
    if i > 0 then
      if EntryAt(mem, u, i) == ZERO then Path(mem, k, level, va) else Path(mem, u, level, va)
    else if !Descends(mem, pool, k, u, level) then Path(mem, u, level, va)
    else
      var e := SlotZero(mem, pool, u);
      var below := Expected(mem, PoolBelow(mem, pool, u), EntryAt(mem, k, 0).frame, e.frame, level - 1, va);
      if below.None? then None else Some([e] + below.value)
  }

  /** Slot 0 of a user table once it leads to a table, and the frames left then. */
  ghost function SlotZero(mem: Phys, pool: seq<nat>, u: nat): Entry
    requires EntryAt(mem, u, 0).present || |pool| > 0
  {
    if EntryAt(mem, u, 0).present then EntryAt(mem, u, 0) else TableEntry(pool[0])
  }

  ghost function PoolBelow(mem: Phys, pool: seq<nat>, u: nat): seq<nat>
    requires EntryAt(mem, u, 0).present || |pool| > 0
  {
    if EntryAt(mem, u, 0).present then pool else pool[1..]
  }

  lemma {:induction false} AvoidsFramed(mem: Phys, mem': Phys, t: nat, level: nat, w: set<nat>)
    requires level >= 1 && SameOutside(mem, mem', w) && Avoids(mem, t, level, w)
    ensures Avoids(mem', t, level, w)
    decreases level
  {
    forall i: nat | i < ENTRIES ensures EntryAvoids(mem', EntryAt(mem', t, i), level, w) {
      var e := EntryAt(mem, t, i);
      assert EntryAt(mem', t, i) == e && EntryAvoids(mem, e, level, w);
      if e.present && !Leaf(e, level) { AvoidsFramed(mem, mem', e.frame, level - 1, w); }
    }
  }

  lemma EntryFramed(mem: Phys, mem': Phys, e: Entry, level: nat, va: nat, w: set<nat>)
    requires level >= 1 && SameOutside(mem, mem', w) && EntryAvoids(mem, e, level, w)
    ensures EntryAvoids(mem', e, level, w)
    ensures e.present && !Leaf(e, level) ==> Path(mem', e.frame, level - 1, va) == Path(mem, e.frame, level - 1, va)
  {
    if e.present && !Leaf(e, level) {
      AvoidsFramed(mem, mem', e.frame, level - 1, w);
      PathFramed(mem, mem', e.frame, level - 1, va, w);
    }
  }

  /** A change of other tables leaves a user tree and its walks alone. */
  lemma {:induction false} TreeFramed(mem: Phys, mem': Phys, u: nat, level: nat, va: nat, w: set<nat>, d: set<nat>)
    requires level >= 2 && UserTree(mem, u, level, w) && mem.Keys <= mem'.Keys
    requires SameOutside(mem, mem', d) && d <= w && d !! Written(mem, u, level)
    ensures UserTree(mem', u, level, w) && Written(mem', u, level) == Written(mem, u, level)
    ensures Path(mem', u, level, va) == Path(mem, u, level, va)
    decreases level
  {
    assert SameOutside(mem, mem', w);
    forall i: nat | i < ENTRIES && (i >= 1 || level == 2)
      ensures EntryAvoids(mem', EntryAt(mem', u, i), level, w)
      ensures i == Index(va, level) ==> Path(mem', u, level, va) == Path(mem, u, level, va)
    {
      assert EntryAvoids(mem, EntryAt(mem, u, i), level, w);
      EntryFramed(mem, mem', EntryAt(mem, u, i), level, va, w);
    }
    var e := EntryAt(mem, u, 0);
    assert EntryAt(mem', u, 0) == e;
    if level > 2 && e.present {
      TreeFramed(mem, mem', e.frame, level - 1, va, w, d);
    }
  }

  ghost predicate Empty(mem: Phys, t: nat) {
    forall i: nat :: EntryAt(mem, t, i) == ZERO
  }

  lemma {:induction false} ExpectedFramed(mem: Phys, mem': Phys, pool: seq<nat>, k: nat, u: nat, level: nat, va: nat,
    w: set<nat>, d: set<nat>)
    requires level >= 2 && mem.Keys <= mem'.Keys
    requires UserTree(mem, u, level, w) || Empty(mem, u)
    requires TakenApart(mem, k, level, va, w)
    requires SameOutside(mem, mem', d) && d <= w && d !! Written(mem, u, level) && d !! PoolSet(pool)
    requires forall p :: p in pool ==> Empty(mem, p)
    ensures Expected(mem', pool, k, u, level, va) == Expected(mem, pool, k, u, level, va)
    decreases level
  {
    assert SameOutside(mem, mem', w);
    PathFramed(mem, mem', k, level, va, w);
    assert EntryAt(mem', k, 0) == EntryAt(mem, k, 0);
    assert EntryAt(mem', u, 0) == EntryAt(mem, u, 0)
      && EntryAt(mem', u, Index(va, level)) == EntryAt(mem, u, Index(va, level));
    if EntryAt(mem, u, Index(va, level)).present { TreeFramed(mem, mem', u, level, va, w, d); }
    var ke := EntryAt(mem, k, 0);
    if Index(va, level) == 0 && Descends(mem, pool, k, u, level) {
      if EntryAt(mem, u, 0).present {
        ExpectedFramed(mem, mem', pool, ke.frame, EntryAt(mem, u, 0).frame, level - 1, va, w, d);
      } else {
        assert pool[0] in pool && Empty(mem, pool[0]) && forall p :: p in pool[1..] ==> p in pool;
        assert Written(mem, pool[0], level - 1) == {pool[0]};
        ExpectedFramed(mem, mem', pool[1..], ke.frame, pool[0], level - 1, va, w, d);
      }
    }
  }

  ghost predicate GoesOn(m: Machine, k: nat, u: nat, level: nat) { Descends(m.mem, m.pool, k, u, level) }

  /** The state in which the merge goes on one level down. */
  ghost function Next(m: Machine, k: nat, u: nat): Machine
    requires WellFormed(m) && u in m.mem && (EntryAt(m.mem, u, 0).present || |m.pool| > 0)
  {
    CopyEntry(m, k, u, u, 0);
    EnsureTable(CopySlots(m, k, u), u).value
  }

  lemma NextEntry(m: Machine, k: nat, u: nat, t: nat, i: nat)
    requires WellFormed(m) && u in m.mem && (EntryAt(m.mem, u, 0).present || |m.pool| > 0)
    ensures EntryAt(Next(m, k, u).mem, t, i) ==
      if t == u && i == 0 then SlotZero(m.mem, m.pool, u) else EntryAt(CopySlots(m, k, u).mem, t, i)
  {
    CopyWellFormed(m, k, u);
    CopyEntry(m, k, u, u, 0);
    EnsureEntry(CopySlots(m, k, u), u, t, i);
  }

  /** Only the table being merged changes before the merge goes on. */
  lemma NextFrame(m: Machine, k: nat, u: nat)
    requires WellFormed(m) && u in m.mem && (EntryAt(m.mem, u, 0).present || |m.pool| > 0)
    ensures var m2 := Next(m, k, u);
      && WellFormed(m2) && SameOutside(m.mem, m2.mem, {u}) && m.mem.Keys <= m2.mem.Keys
      && m2.pool == PoolBelow(m.mem, m.pool, u)
      && (EntryAt(m.mem, u, 0).present || m.pool[0] in m2.mem)
  {
    var m1, m2 := CopySlots(m, k, u), Next(m, k, u);
    CopyWellFormed(m, k, u);
    CopyEntry(m, k, u, u, 0);
    EnsureWellFormed(m1, u);
    forall t: nat, i: nat | t != u ensures EntryAt(m2.mem, t, i) == EntryAt(m.mem, t, i) {
      NextEntry(m, k, u, t, i);
      CopyEntry(m, k, u, t, i);
    }
  }

  /** One level down, the user's tables are a tree again, and the table just filled is left behind. */
  lemma NextUserSide(m: Machine, k: nat, u: nat, level: nat, w: set<nat>)
    requires level >= 2 && UserSide(m, u, level, w) && GoesOn(m, k, u, level)
    ensures var m2, u2 := Next(m, k, u), SlotZero(m.mem, m.pool, u).frame;
      && UserSide(m2, u2, level - 1, w)
      && u !in Written(m2.mem, u2, level - 1) + PoolSet(m2.pool)
      && Written(m2.mem, u2, level - 1) + PoolSet(m2.pool) <= Written(m.mem, u, level) + PoolSet(m.pool)
  {
    var m2, e := Next(m, k, u), EntryAt(m.mem, u, 0);
    NextFrame(m, k, u);
    if e.present {
      TreeFramed(m.mem, m2.mem, e.frame, level - 1, 0, w, {u});
    } else {
      NewTable(m, k, u);
      assert Written(m2.mem, m.pool[0], level - 1) == {m.pool[0]};
      assert forall p :: p in m.pool[1..] ==> p in m.pool;
    }
  }

  /** A new table is empty. */
  lemma NewTable(m: Machine, k: nat, u: nat)
    requires WellFormed(m) && u in m.mem && !EntryAt(m.mem, u, 0).present && |m.pool| > 0
    ensures Empty(Next(m, k, u).mem, m.pool[0]) && m.pool[0] != u && m.pool[0] in m.pool
  {
    NextFrame(m, k, u);
    assert m.pool[0] in m.pool && m.pool[0] !in m.mem;
  }

  lemma NextTakenApart(m: Machine, k: nat, u: nat, level: nat, va: nat, w: set<nat>)
    requires level >= 2 && UserSide(m, u, level, w) && GoesOn(m, k, u, level)
    requires Index(va, level) == 0 && TakenApart(m.mem, k, level, va, w)
    ensures TakenApart(Next(m, k, u).mem, EntryAt(m.mem, k, 0).frame, level - 1, va, w)
  {
    NextFrame(m, k, u);
    assert {u} <= w && SameOutside(m.mem, Next(m, k, u).mem, w);
    TakenApartFramed(m.mem, Next(m, k, u).mem, EntryAt(m.mem, k, 0).frame, level - 1, va, w);
  }

  lemma {:induction false} TakenApartFramed(mem: Phys, mem': Phys, k: nat, level: nat, va: nat, w: set<nat>)
    requires level >= 2 && SameOutside(mem, mem', w) && TakenApart(mem, k, level, va, w)
    ensures TakenApart(mem', k, level, va, w)
    decreases level
  {
    AvoidsFramed(mem, mem', k, level, w);
    var ke := EntryAt(mem, k, 0);
    assert EntryAt(mem', k, 0) == ke;
    if level > 2 && Index(va, level) == 0 && ke.present { TakenApartFramed(mem, mem', ke.frame, level - 1, va, w); }
  }

  /** Only the written tables and fresh frames change. */
  lemma {:induction false} MergeFrame(m: Machine, k: nat, u: nat, level: nat, w: set<nat>)
    requires level >= 2 && UserSide(m, u, level, w)
    ensures SameOutside(m.mem, MergeFrom(m, k, u, level).mem, Written(m.mem, u, level) + PoolSet(m.pool))
    ensures m.mem.Keys <= MergeFrom(m, k, u, level).mem.Keys
    decreases level
  {
    var m' := MergeFrom(m, k, u, level);
    CopyEntry(m, k, u, k, 0);
    CopyEntry(m, k, u, u, 0);
    if GoesOn(m, k, u, level) {
      NextFrame(m, k, u);
      NextUserSide(m, k, u, level, w);
      NextEntry(m, k, u, u, 0);
      MergeFrame(Next(m, k, u), EntryAt(m.mem, k, 0).frame, SlotZero(m.mem, m.pool, u).frame, level - 1, w);
    } else {
      forall t: nat, i: nat | t != u ensures EntryAt(m'.mem, t, i) == EntryAt(m.mem, t, i) { CopyEntry(m, k, u, t, i); }
    }
  }

  /** The walk after the merge, for every address: exactly the expected one. */
  lemma {:induction false} MergedPath(m: Machine, k: nat, u: nat, level: nat, va: nat, w: set<nat>)
    requires level >= 2 && UserSide(m, u, level, w) && TakenApart(m.mem, k, level, va, w)
    ensures Path(MergeFrom(m, k, u, level).mem, u, level, va) == Expected(m.mem, m.pool, k, u, level, va)
    decreases level
  {
    var m', i := MergeFrom(m, k, u, level), Index(va, level);
    var e, ke := EntryAt(m.mem, u, i), EntryAt(m.mem, k, i);
    MergedSlot(m, k, u, level, i, w);
    if i > 0 || level == 2 {
      MergeFrame(m, k, u, level, w);
      assert SameOutside(m.mem, m'.mem, w);
      assert EntryAvoids(m.mem, e, level, w) && EntryAvoids(m.mem, ke, level, w);
      EntryFramed(m.mem, m'.mem, e, level, va, w);
      EntryFramed(m.mem, m'.mem, ke, level, va, w);
    } else if !GoesOn(m, k, u, level) {
      MergedAtOnce(m, k, u, level, va, w);
    } else {
      NextUserSide(m, k, u, level, w);
      NextTakenApart(m, k, u, level, va, w);
      MergedBelow(m, k, u, level);
      MergedPath(Next(m, k, u), ke.frame, SlotZero(m.mem, m.pool, u).frame, level - 1, va, w);
      NextExpected(m, k, u, level, va, w);
    }
  }

  /** The merge of a table that goes on is the merge one level down of what it left. */
  lemma MergedBelow(m: Machine, k: nat, u: nat, level: nat)
    requires WellFormed(m) && u in m.mem && GoesOn(m, k, u, level)
    ensures MergeFrom(m, k, u, level) ==
      MergeFrom(Next(m, k, u), EntryAt(m.mem, k, 0).frame, SlotZero(m.mem, m.pool, u).frame, level - 1)
  {
    CopyEntry(m, k, u, k, 0);
    CopyEntry(m, k, u, u, 0);
    NextEntry(m, k, u, u, 0);
  }

  /** Going on below does not touch the table itself again. */
  lemma LeftBehind(m: Machine, k: nat, u: nat, level: nat, i: nat, w: set<nat>)
    requires level >= 2 && UserSide(m, u, level, w) && GoesOn(m, k, u, level)
    ensures EntryAt(MergeFrom(m, k, u, level).mem, u, i) == EntryAt(Next(m, k, u).mem, u, i)
  {
    var m2, k2, u2 := Next(m, k, u), EntryAt(m.mem, k, 0).frame, SlotZero(m.mem, m.pool, u).frame;
    NextUserSide(m, k, u, level, w);
    MergedBelow(m, k, u, level);
    MergeFrame(m2, k2, u2, level - 1, w);
  }

  /** What ends up in slot i of the table being merged. */
  lemma MergedSlot(m: Machine, k: nat, u: nat, level: nat, i: nat, w: set<nat>)
    requires level >= 2 && UserSide(m, u, level, w) && i < ENTRIES
    ensures EntryAt(MergeFrom(m, k, u, level).mem, u, i) ==
      if i == 0 then (if GoesOn(m, k, u, level) then SlotZero(m.mem, m.pool, u) else EntryAt(m.mem, u, 0))
      else if EntryAt(m.mem, u, i) == ZERO && EntryAt(m.mem, k, i).present then EntryAt(m.mem, k, i)
      else EntryAt(m.mem, u, i)
  {
    CopyEntry(m, k, u, u, i);
    if GoesOn(m, k, u, level) {
      NextEntry(m, k, u, u, i);
      LeftBehind(m, k, u, level, i, w);
    } else {
      CopyEntry(m, k, u, k, 0);
      CopyEntry(m, k, u, u, 0);
    }
  }

  /** When there is nothing to merge below slot 0, or no frame for it, only the table itself is filled. */
  lemma MergedAtOnce(m: Machine, k: nat, u: nat, level: nat, va: nat, w: set<nat>)
    requires level > 2 && UserSide(m, u, level, w) && Index(va, level) == 0 && !GoesOn(m, k, u, level)
    ensures Path(MergeFrom(m, k, u, level).mem, u, level, va) == Path(m.mem, u, level, va)
  {
    var m', e := MergeFrom(m, k, u, level), EntryAt(m.mem, u, 0);
    CopyEntry(m, k, u, k, 0);
    CopyEntry(m, k, u, u, 0);
    CopyWellFormed(m, k, u);
    assert m' == CopySlots(m, k, u);
    if e.present {
      forall t: nat, i: nat | t != u ensures EntryAt(m'.mem, t, i) == EntryAt(m.mem, t, i) { CopyEntry(m, k, u, t, i); }
      TreeFramed(m.mem, m'.mem, e.frame, level - 1, va, w, {u});
    }
  }

  lemma NextExpected(m: Machine, k: nat, u: nat, level: nat, va: nat, w: set<nat>)
    requires level >= 2 && UserSide(m, u, level, w) && GoesOn(m, k, u, level)
    requires Index(va, level) == 0 && TakenApart(m.mem, k, level, va, w)
    ensures var m2, u2, k2 := Next(m, k, u), SlotZero(m.mem, m.pool, u).frame, EntryAt(m.mem, k, 0).frame;
      Expected(m2.mem, m2.pool, k2, u2, level - 1, va) ==
        Expected(m.mem, PoolBelow(m.mem, m.pool, u), k2, u2, level - 1, va)
  {
    NextFrame(m, k, u);
    NextUserSide(m, k, u, level, w);
    var m2, u2, ke := Next(m, k, u), SlotZero(m.mem, m.pool, u).frame, EntryAt(m.mem, k, 0);
    assert forall p :: p in m2.pool ==> p in m.pool && Empty(m.mem, p);
    assert Written(m.mem, u2, level - 1) == Written(m2.mem, u2, level - 1) by {
      if EntryAt(m.mem, u, 0).present {
        TreeFramed(m.mem, m2.mem, u2, level - 1, va, w, {u});
      } else {
        NewTable(m, k, u);
        assert Empty(m.mem, u2);
      }
    }
    assert u2 !in m.mem ==> Empty(m.mem, u2);
    ExpectedFramed(m.mem, m2.mem, m2.pool, ke.frame, u2, level - 1, va, w, {u});
  }

  // ---------------------------------------------------------------- the same translations

  /** The slot that decides va at the merged levels is empty, or lies in a table yet to be made. */
  ghost predicate SlotEmpty(mem: Phys, u: nat, level: nat, va: nat)
    requires level >= 2
    decreases level
  {
    var e := EntryAt(mem, u, Index(va, level));
    if Index(va, level) > 0 then e == ZERO
    else level > 2 && (!e.present || SlotEmpty(mem, e.frame, level - 1, va))
  }

  /** There is a frame for every table the merge has to make on the way of va. */
  ghost predicate Supplied(mem: Phys, pool: seq<nat>, k: nat, u: nat, level: nat, va: nat)
    requires level >= 2
    decreases level
  {
    level > 2 && Index(va, level) == 0 && EntryAt(mem, k, 0).present ==>
      && Descends(mem, pool, k, u, level)
      && Supplied(mem, PoolBelow(mem, pool, u), EntryAt(mem, k, 0).frame, SlotZero(mem, pool, u).frame, level - 1, va)
  }

  /** Some index from this level down to the page directory is not 0: va is not in the first 2 MB. */
  predicate Above(va: nat, level: nat)
    requires level >= 2
    decreases level
  {
    Index(va, level) > 0 || (level > 2 && Above(va, level - 1))
  }

  lemma AboveTwoMb(va: nat)
    requires TWO_MB <= va < VA_LIMIT
    ensures Above(va, 4)
  {
    if Index(va, 4) == 0 && Index(va, 3) == 0 {
      assert va / 0x80_0000_0000 < 512;
      assert va < 0x80_0000_0000;
      assert va / 0x4000_0000 < 512;
      assert va < 0x4000_0000;
      assert 1 <= va / TWO_MB < 512;
    }
  }

  /** Two walks that end at the same leaf on the same level, or both fail. */
  predicate SameEnd(a: Option<seq<Entry>>, b: Option<seq<Entry>>) {
    match (a, b)
    case (Some(p), Some(q)) => |p| == |q| > 0 && p[|p| - 1] == q[|q| - 1]
    case (None, None) => true
    case _ => false
  }

  /** A walk with one more entry in front. */
  function Prepended(e: Entry, p: Option<seq<Entry>>): Option<seq<Entry>> {
    if p.None? then None else Some([e] + p.value)
  }

  lemma PrependedEnds(d: Entry, e: Entry, a: Option<seq<Entry>>, b: Option<seq<Entry>>)
    requires (a.Some? ==> |a.value| > 0) && (b.Some? ==> |b.value| > 0)
    ensures SameEnd(Prepended(d, a), Prepended(e, b)) <==> SameEnd(a, b)
  {
    if a.Some? && b.Some? {
      var p, q := [d] + a.value, [e] + b.value;
      assert p[|p| - 1] == a.value[|a.value| - 1] && q[|q| - 1] == b.value[|b.value| - 1];
    }
  }

  lemma {:induction false} EmptySlotFails(mem: Phys, u: nat, level: nat, va: nat, w: set<nat>)
    requires level >= 2 && SlotEmpty(mem, u, level, va) && (UserTree(mem, u, level, w) || Empty(mem, u))
    ensures Path(mem, u, level, va).None?
    decreases level
  {
    var e := EntryAt(mem, u, Index(va, level));
    if e.present {
      EmptySlotFails(mem, e.frame, level - 1, va, w);
    }
  }

  lemma EmptyAbove(mem: Phys, t: nat, level: nat, va: nat)
    requires level >= 2 && Empty(mem, t) && Above(va, level)
    ensures SlotEmpty(mem, t, level, va)
  {
    assert EntryAt(mem, t, Index(va, level)) == ZERO;
  }

  /** The table below slot 0, an old one or one yet to be made, again leaves va's slot empty. */
  lemma BelowEmpty(mem: Phys, pool: seq<nat>, k: nat, u: nat, level: nat, va: nat, w: set<nat>)
    requires level > 2 && Above(va, level) && Index(va, level) == 0 && Descends(mem, pool, k, u, level)
    requires (UserTree(mem, u, level, w) || Empty(mem, u)) && (forall p :: p in pool ==> Empty(mem, p))
    requires SlotEmpty(mem, u, level, va)
    ensures var t := SlotZero(mem, pool, u).frame;
      (UserTree(mem, t, level - 1, w) || Empty(mem, t)) && SlotEmpty(mem, t, level - 1, va)
    ensures forall p :: p in PoolBelow(mem, pool, u) ==> Empty(mem, p)
  {
    if !EntryAt(mem, u, 0).present {
      assert pool[0] in pool && Empty(mem, pool[0]) && forall p :: p in pool[1..] ==> p in pool;
      EmptyAbove(mem, pool[0], level - 1, va);
    }
  }

  lemma {:induction false} ExpectedEnd(mem: Phys, pool: seq<nat>, k: nat, u: nat, level: nat, va: nat, w: set<nat>)
    requires 2 <= level <= 4 && Above(va, level) && SlotEmpty(mem, u, level, va)
    requires (UserTree(mem, u, level, w) || Empty(mem, u)) && (forall p :: p in pool ==> Empty(mem, p))
    requires KernelPlain(mem, k, level, va)
    ensures Supplied(mem, pool, k, u, level, va) ==>
      SameEnd(Expected(mem, pool, k, u, level, va), Path(mem, k, level, va))
    ensures !Supplied(mem, pool, k, u, level, va) ==> Expected(mem, pool, k, u, level, va).None?
    decreases level
  {
    var ke := EntryAt(mem, k, 0);
    if Index(va, level) == 0 {
      if !Descends(mem, pool, k, u, level) {
        EmptySlotFails(mem, u, level, va, w);
      } else {
        var e, pool' := SlotZero(mem, pool, u), PoolBelow(mem, pool, u);
        BelowEmpty(mem, pool, k, u, level, va, w);
        ExpectedEnd(mem, pool', ke.frame, e.frame, level - 1, va, w);
        var below, path := Expected(mem, pool', ke.frame, e.frame, level - 1, va), Path(mem, ke.frame, level - 1, va);
        assert Expected(mem, pool, k, u, level, va) == Prepended(e, below)
          && Path(mem, k, level, va) == Prepended(ke, path);
        if Supplied(mem, pool, k, u, level, va) { PrependedEnds(e, ke, below, path); }
      }
    }
  }

  /** After the merge slot 0 of a user table never is a page. */
  lemma SlotZeroGoesDown(m: Machine, k: nat, u: nat, level: nat, va: nat, w: set<nat>)
    requires level > 2 && UserSide(m, u, level, w) && Index(va, level) == 0
    ensures var p := Path(MergeFrom(m, k, u, level).mem, u, level, va); p.Some? ==> |p.value| >= 2
  {
    MergedSlot(m, k, u, level, 0, w);
  }

  /** A 1 GB page of the kernel at slot 0 is not shared: its frame is taken for a page directory. */
  lemma {:induction false} PageTakenForTable(m: Machine, k: nat, u: nat, level: nat, va: nat, w: set<nat>)
    requires 2 <= level <= 4 && Separate(m, k, u, level, w) && !KernelPlain(m.mem, k, level, va)
    ensures Path(m.mem, k, level, va).Some?
      && !SameEnd(Path(MergeFrom(m, k, u, level).mem, u, level, va), Path(m.mem, k, level, va))
    decreases level
  {
    var ke := EntryAt(m.mem, k, 0);
    assert EntryAvoids(m.mem, ke, level, w);
    if Leaf(ke, level) {
      SlotZeroGoesDown(m, k, u, level, va, w);
    } else {
      if GoesOn(m, k, u, level) {
        var m2, u2 := Next(m, k, u), SlotZero(m.mem, m.pool, u).frame;
        NextPage(m, k, u, level, va, w);
        PageTakenForTable(m2, ke.frame, u2, level - 1, va, w);
        MergedSlot(m, k, u, level, 0, w);
        var after := MergeFrom(m, k, u, level).mem;
        MergedBelow(m, k, u, level);
        assert !Leaf(SlotZero(m.mem, m.pool, u), level);
        PrependedEnds(SlotZero(m.mem, m.pool, u), ke, Path(after, u2, level - 1, va),
          Path(m.mem, ke.frame, level - 1, va));
      } else {
        BelowPlain(m.mem, k, level, va);
        MergedSlot(m, k, u, level, 0, w);
      }
    }
  }

  lemma {:induction false} BelowPlain(mem: Phys, k: nat, level: nat, va: nat)
    requires 2 <= level && !KernelPlain(mem, k, level, va)
    ensures Path(mem, k, level, va).Some?
    decreases level
  {
    var ke := EntryAt(mem, k, 0);
    if !Leaf(ke, level) { BelowPlain(mem, ke.frame, level - 1, va); }
  }

  lemma NextPage(m: Machine, k: nat, u: nat, level: nat, va: nat, w: set<nat>)
    requires level > 2 && Separate(m, k, u, level, w) && !KernelPlain(m.mem, k, level, va) && GoesOn(m, k, u, level)
    requires !Leaf(EntryAt(m.mem, k, 0), level)
    ensures var m2, k2 := Next(m, k, u), EntryAt(m.mem, k, 0).frame;
      && Separate(m2, k2, SlotZero(m.mem, m.pool, u).frame, level - 1, w) && !KernelPlain(m2.mem, k2, level - 1, va)
      && Path(m2.mem, k2, level - 1, va) == Path(m.mem, k2, level - 1, va)
  {
    var m2, ke := Next(m, k, u), EntryAt(m.mem, k, 0);
    NextFrame(m, k, u);
    NextUserSide(m, k, u, level, w);
    assert EntryAvoids(m.mem, ke, level, w) && SameOutside(m.mem, m2.mem, w);
    AvoidsFramed(m.mem, m2.mem, ke.frame, level - 1, w);
    PathFramed(m.mem, m2.mem, ke.frame, level - 1, va, w);
    PlainFramed(m.mem, m2.mem, ke.frame, level - 1, va, w);
  }

  lemma {:induction false} PlainFramed(mem: Phys, mem': Phys, k: nat, level: nat, va: nat, w: set<nat>)
    requires level >= 2 && SameOutside(mem, mem', w) && Avoids(mem, k, level, w)
    ensures KernelPlain(mem', k, level, va) == KernelPlain(mem, k, level, va)
    decreases level
  {
    var ke := EntryAt(mem, k, 0);
    assert EntryAt(mem', k, 0) == ke && EntryAvoids(mem, ke, level, w);
    if level > 2 && ke.present && !Leaf(ke, level) { PlainFramed(mem, mem', ke.frame, level - 1, va, w); }
  }

  /** From 2 MB up, an address whose slot the user left empty resolves after the merge as in the kernel's
      own tables exactly when no 1 GB page of the kernel stands where the merge expects a page directory
      and no frame is missing for a table on the way; or when the kernel maps nothing there. */
  lemma MergeSharesKernel(m: Machine, kern: nat, user: nat, va: nat, w: set<nat>)
    requires kern != 0 && Separate(m, kern, user, 4, w)
    requires TWO_MB <= va < VA_LIMIT && SlotEmpty(m.mem, user, 4, va)
    ensures Translate(Merge(m, kern, user).mem, user, va) == Translate(m.mem, kern, va) <==>
      || Translate(m.mem, kern, va).None?
      || (KernelPlain(m.mem, kern, 4, va) && Supplied(m.mem, m.pool, kern, user, 4, va))
  {
    var after, path := Path(Merge(m, kern, user).mem, user, 4, va), Path(m.mem, kern, 4, va);
    assert Translate(Merge(m, kern, user).mem, user, va) == Translate(m.mem, kern, va) <==> SameEnd(after, path);
    if KernelPlain(m.mem, kern, 4, va) {
      AboveTwoMb(va);
      PlainTakenApart(m.mem, kern, 4, va, w);
      MergedPath(m, kern, user, 4, va, w);
      assert forall p :: p in m.pool ==> Empty(m.mem, p);
      ExpectedEnd(m.mem, m.pool, kern, user, 4, va, w);
    } else {
      PageTakenForTable(m, kern, user, 4, va, w);
    }
  }

  /** The condition of MergeSharesKernel in terms of the two entries it looks at: only the first gigabyte
      is concerned, and only if the kernel maps it by one page. */
  lemma PlainExactly(mem: Phys, kern: nat, va: nat)
    requires va < VA_LIMIT
    ensures !KernelPlain(mem, kern, 4, va) <==>
      && va < 0x4000_0000 && EntryAt(mem, kern, 0).present
      && var e := EntryAt(mem, EntryAt(mem, kern, 0).frame, 0); e.present && e.huge
  {
    assert Index(va, 4) == 0 && Index(va, 3) == 0 <==> va < 0x4000_0000 by {
      assert va / 0x80_0000_0000 < 512;
      if va < 0x80_0000_0000 { assert va / 0x4000_0000 < 512; }
    }
    var pdpt := EntryAt(mem, kern, 0).frame;
    assert KernelPlain(mem, pdpt, 3, va) == (Index(va, 3) == 0 && EntryAt(mem, pdpt, 0).present ==>
      !Leaf(EntryAt(mem, pdpt, 0), 3)) by {
      assert forall t :: KernelPlain(mem, t, 2, va);
    }
  }

  /** One table with the given slots 0 and 1, empty otherwise. */
  function Table(first: Entry, second: Entry): (t: seq<Entry>)
    ensures |t| == ENTRIES && t[0] == first && t[1] == second && forall i :: 2 <= i < ENTRIES ==> t[i] == ZERO
  {
    [first, second] + seq(ENTRIES - 2, _ => ZERO)
  }

  const TOP: Entry := Entry(true, true, false, false, false, 2, 0)

  /** A kernel (table 1) whose topmost entry lacks the user bit and which maps its first two gigabytes by
      the given pages, a process (table 3) without mappings, and two free frames. */
  function Sample(first: Entry, second: Entry): Machine {
    Machine(map[1 := Table(TOP, ZERO), 2 := Table(first, second), 3 := Table(ZERO, ZERO)], [4, 5])
  }

  lemma SampleApart(first: Entry, second: Entry, va: nat)
    requires (first.huge && first.frame == 0x40000) || first == ZERO
    requires (second.huge && second.frame == 0x40000) || second == ZERO
    ensures UserSide(Sample(first, second), 3, 4, {3, 4, 5})
      && TakenApart(Sample(first, second).mem, 1, 4, va, {3, 4, 5})
  {
    var m, w := Sample(first, second), {3, 4, 5};
    assert Avoids(m.mem, 2, 3, w) && Avoids(m.mem, 0x40000, 2, w);
    assert TakenApart(m.mem, 0x40000, 2, va, w) && TakenApart(m.mem, 2, 3, va, w);
    assert EntryAvoids(m.mem, EntryAt(m.mem, 1, 0), 4, w) && Avoids(m.mem, 1, 4, w);
  }

  lemma SamplePath(first: Entry, second: Entry, va: nat)
    requires Index(va, 4) == 0 && Index(va, 3) <= 1
    ensures var e := if Index(va, 3) == 0 then first else second;
      e.present && e.huge ==>
        Path(Sample(first, second).mem, 2, 3, va) == Some([e])
        && Path(Sample(first, second).mem, 1, 4, va) == Some([TOP, e])
  {
    var mem, e := Sample(first, second).mem, if Index(va, 3) == 0 then first else second;
    if e.present && e.huge {
      assert Path(mem, 2, 3, va) == Some([e]);
      assert [TOP] + [e] == [TOP, e];
    }
  }

  /** Such an input: the kernel maps its first gigabyte by one page, and a process that has nothing at
      2 MB has nothing there after the merge either. */
  lemma FirstGigabyteLost()
    ensures var page := Entry(true, true, false, true, false, 0x40000, 0);
      var m := Sample(page, ZERO);
      && SlotEmpty(m.mem, 3, 4, TWO_MB) && Translate(m.mem, 1, TWO_MB) == Some(Mapping(3, page))
      && Translate(Merge(m, 1, 3).mem, 3, TWO_MB).None?
  {
    var page := Entry(true, true, false, true, false, 0x40000, 0);
    var m := Sample(page, ZERO);
    assert Index(TWO_MB, 4) == 0 && Index(TWO_MB, 3) == 0 && Index(TWO_MB, 2) == 1;
    SampleApart(page, ZERO, TWO_MB);
    SamplePath(page, ZERO, TWO_MB);
    MergedPath(m, 1, 3, 4, TWO_MB, {3, 4, 5});
    NothingExpected(page);
  }

  lemma NothingExpected(page: Entry)
    requires page.present && page.huge && page.frame == 0x40000
    ensures Expected(Sample(page, ZERO).mem, [4, 5], 1, 3, 4, TWO_MB).None?
  {
    var mem := Sample(page, ZERO).mem;
    assert Index(TWO_MB, 4) == 0 && Index(TWO_MB, 3) == 0 && Index(TWO_MB, 2) == 1;
    assert Expected(mem, [], 0x40000, 5, 2, TWO_MB).None?;
    assert [4, 5][1..] == [5] && [5][1..] == [];
    assert Expected(mem, [5], 2, 4, 3, TWO_MB).None?;
  }

  // ---------------------------------------------------------------- who may use them

  predicate AllUser(p: Option<seq<Entry>>) {
    p.Some? && forall e :: e in p.value ==> e.user
  }

  lemma PrependedUser(e: Entry, p: Option<seq<Entry>>)
    ensures AllUser(Prepended(e, p)) <==> e.user && AllUser(p)
  {
    if p.Some? {
      var q := [e] + p.value;
      assert e in q && forall x :: x in q <==> x == e || x in p.value;
    }
  }

  /** The merge opens va to ring 3: its deciding slot is empty, the user's own entries above it carry the
      user bit, and so do the kernel's from that slot's level down. */
  ghost predicate Exposed(mem: Phys, pool: seq<nat>, k: nat, u: nat, level: nat, va: nat)
    requires level >= 2
    decreases level
  {
    if Index(va, level) > 0 then EntryAt(mem, u, Index(va, level)) == ZERO && AllUser(Path(mem, k, level, va))
    else
      && Descends(mem, pool, k, u, level) && SlotZero(mem, pool, u).user
      && Exposed(mem, PoolBelow(mem, pool, u), EntryAt(mem, k, 0).frame, SlotZero(mem, pool, u).frame, level - 1, va)
  }

  lemma {:induction false} ExpectedAccess(mem: Phys, pool: seq<nat>, k: nat, u: nat, level: nat, va: nat, w: set<nat>)
    requires 2 <= level <= 4 && (UserTree(mem, u, level, w) || Empty(mem, u))
      && (forall p :: p in pool ==> Empty(mem, p))
    ensures AllUser(Expected(mem, pool, k, u, level, va)) <==>
      AllUser(Path(mem, u, level, va)) || Exposed(mem, pool, k, u, level, va)
    decreases level
  {
    if Index(va, level) == 0 && Descends(mem, pool, k, u, level) {
      var e, pool', ke := SlotZero(mem, pool, u), PoolBelow(mem, pool, u), EntryAt(mem, k, 0);
      if EntryAt(mem, u, 0).present {
        PrependedUser(e, Path(mem, e.frame, level - 1, va));
      } else {
        assert pool[0] in pool && Empty(mem, pool[0]) && forall p :: p in pool[1..] ==> p in pool;
        assert Path(mem, e.frame, level - 1, va).None?;
      }
      ExpectedAccess(mem, pool', ke.frame, e.frame, level - 1, va, w);
      PrependedUser(e, Expected(mem, pool', ke.frame, e.frame, level - 1, va));
    }
  }

  /** Ring 3 reaches after the merge exactly what it reached before and what is exposed.  (Entries are
      copied as they are, with the user bit the documentation says they lose.) */
  lemma MergeUserAccess(m: Machine, kern: nat, user: nat, va: nat, w: set<nat>)
    requires kern != 0 && UserSide(m, user, 4, w) && TakenApart(m.mem, kern, 4, va, w)
    ensures UserAccessible(Merge(m, kern, user).mem, user, va) <==>
      UserAccessible(m.mem, user, va) || Exposed(m.mem, m.pool, kern, user, 4, va)
  {
    MergedPath(m, kern, user, 4, va, w);
    assert forall p :: p in m.pool ==> Empty(m.mem, p);
    ExpectedAccess(m.mem, m.pool, kern, user, 4, va, w);
  }

  /** None of the kernel entries that can be copied is user accessible. */
  ghost predicate KernelSupervisor(mem: Phys, k: nat, level: nat)
    requires level >= 2
    decreases level
  {
    && (forall i: nat :: 1 <= i < ENTRIES && EntryAt(mem, k, i).present ==> !EntryAt(mem, k, i).user)
    && (level > 2 && EntryAt(mem, k, 0).present ==> KernelSupervisor(mem, EntryAt(mem, k, 0).frame, level - 1))
  }

  lemma {:induction false} SupervisorNotExposed(mem: Phys, pool: seq<nat>, k: nat, u: nat, level: nat, va: nat)
    requires level >= 2 && KernelSupervisor(mem, k, level)
    ensures !Exposed(mem, pool, k, u, level, va)
    decreases level
  {
    if Index(va, level) > 0 {
      var p := Path(mem, k, level, va);
      assert p.Some? ==> p.value[0] in p.value && p.value[0] == EntryAt(mem, k, Index(va, level));
    } else if Descends(mem, pool, k, u, level) {
      SupervisorNotExposed(mem, PoolBelow(mem, pool, u), EntryAt(mem, k, 0).frame, SlotZero(mem, pool, u).frame,
        level - 1, va);
    }
  }

  /** If the kernel entries lack the user bit, the merge gives ring 3 nothing it did not have. */
  lemma MergeAddsNoUserAccess(m: Machine, kern: nat, user: nat, va: nat, w: set<nat>)
    requires kern != 0 && UserSide(m, user, 4, w) && TakenApart(m.mem, kern, 4, va, w)
    requires KernelSupervisor(m.mem, kern, 4)
    ensures UserAccessible(Merge(m, kern, user).mem, user, va) <==> UserAccessible(m.mem, user, va)
  {
    MergeUserAccess(m, kern, user, va, w);
    SupervisorNotExposed(m.mem, m.pool, kern, user, 4, va);
  }

  /** An address the kernel itself denies to ring 3, by its topmost entry, is opened by the merge. */
  lemma DeniedByKernelOpened()
    ensures var m := Sample(ZERO, Entry(true, true, true, true, false, 0x40000, 0));
      && !UserAccessible(m.mem, 1, 0x4000_0000) && !UserAccessible(m.mem, 3, 0x4000_0000)
      && UserAccessible(Merge(m, 1, 3).mem, 3, 0x4000_0000)
  {
    var page, va := Entry(true, true, true, true, false, 0x40000, 0), 0x4000_0000;
    var m := Sample(ZERO, page);
    assert Index(va, 4) == 0 && Index(va, 3) == 1;
    SampleApart(ZERO, page, va);
    MergeUserAccess(m, 1, 3, va, {3, 4, 5});
    SamplePath(ZERO, page, va);
    assert Exposed(m.mem, [5], 2, 4, 3, va);
    assert m.pool[1..] == [5];
    assert TOP in [TOP, page];
  }

  // ---------------------------------------------------------------- what they allow

  /** The entries of the user's own that already stand on the way of va, above the slot that decides it. */
  ghost function StandingAbove(mem: Phys, u: nat, level: nat, va: nat): seq<Entry>
    requires level >= 2
    decreases level
  {
    var e := EntryAt(mem, u, 0);
    if Index(va, level) > 0 || level == 2 || !e.present then [] else [e] + StandingAbove(mem, e.frame, level - 1, va)
  }

  /** The kernel's entries on the way of va, from that slot's level down. */
  ghost function FromSlot(mem: Phys, k: nat, level: nat, va: nat): Option<seq<Entry>>
    requires level >= 2
    decreases level
  {
    if Index(va, level) > 0 || level == 2 then Path(mem, k, level, va)
    else FromSlot(mem, EntryAt(mem, k, 0).frame, level - 1, va)
  }

  lemma PrependedAllows(e: Entry, p: seq<Entry>, r: Right)
    ensures Allows([e] + p, r) <==> Has(e, r) && Allows(p, r)
  {
    var q := [e] + p;
    assert e in q && forall x :: x in q <==> x == e || x in p;
  }

  lemma {:induction false} ExpectedAllows(mem: Phys, pool: seq<nat>, k: nat, u: nat, level: nat, va: nat, w: set<nat>,
    r: Right)
    requires 2 <= level <= 4 && Above(va, level) && SlotEmpty(mem, u, level, va)
    requires (UserTree(mem, u, level, w) || Empty(mem, u)) && (forall p :: p in pool ==> Empty(mem, p))
    requires KernelPlain(mem, k, level, va) && Supplied(mem, pool, k, u, level, va) && Path(mem, k, level, va).Some?
    ensures var p, below := Expected(mem, pool, k, u, level, va), FromSlot(mem, k, level, va);
      && p.Some? && below.Some?
      && (Allows(p.value, r) <==> Allows(StandingAbove(mem, u, level, va), r) && Allows(below.value, r))
    decreases level
  {
    if Index(va, level) == 0 {
      var e, pool', ke := SlotZero(mem, pool, u), PoolBelow(mem, pool, u), EntryAt(mem, k, 0);
      BelowEmpty(mem, pool, k, u, level, va, w);
      ExpectedAllows(mem, pool', ke.frame, e.frame, level - 1, va, w, r);
      PrependedAllows(e, Expected(mem, pool', ke.frame, e.frame, level - 1, va).value, r);
      if EntryAt(mem, u, 0).present {
        PrependedAllows(e, StandingAbove(mem, e.frame, level - 1, va), r);
      } else {
        assert pool[0] in pool && Empty(mem, pool[0]);
        assert StandingAbove(mem, pool[0], level - 1, va) == [];
      }
    }
  }

  /** Where the merge makes a kernel mapping appear, it allows writing, executing and user access exactly as far as
      the kernel's entries from the deciding level down do, and the user's own that already stood above them: a
      table it had to make restricts nothing. */
  lemma MergeAllows(m: Machine, kern: nat, user: nat, va: nat, w: set<nat>, r: Right)
    requires kern != 0 && Separate(m, kern, user, 4, w)
    requires TWO_MB <= va < VA_LIMIT && SlotEmpty(m.mem, user, 4, va) && Path(m.mem, kern, 4, va).Some?
    requires KernelPlain(m.mem, kern, 4, va) && Supplied(m.mem, m.pool, kern, user, 4, va)
    ensures var after, below := Path(Merge(m, kern, user).mem, user, 4, va), FromSlot(m.mem, kern, 4, va);
      && after.Some? && below.Some?
      && (Allows(after.value, r) <==> Allows(StandingAbove(m.mem, user, 4, va), r) && Allows(below.value, r))
  {
    AboveTwoMb(va);
    PlainTakenApart(m.mem, kern, 4, va, w);
    MergedPath(m, kern, user, 4, va, w);
    assert forall p :: p in m.pool ==> Empty(m.mem, p);
    ExpectedAllows(m.mem, m.pool, kern, user, 4, va, w, r);
  }

  // ---------------------------------------------------------------- merging again

  lemma CopyTwice(m: Machine, src: nat, dst: nat)
    requires WellFormed(m) && dst in m.mem
    ensures var m' := CopySlots(m, src, dst); CopySlots(m', src, dst) == m'
  {
    var m' := CopySlots(m, src, dst);
    forall i: nat | i < ENTRIES ensures CopySlots(m', src, dst).mem[dst][i] == m'.mem[dst][i] {
      CopyEntry(m, src, dst, src, i);
      CopyEntry(m, src, dst, dst, i);
      assert EntryAt(m'.mem, dst, i) == m'.mem[dst][i];
      CopyEntry(m', src, dst, dst, i);
    }
    assert CopySlots(m', src, dst).mem[dst] == m'.mem[dst];
    assert CopySlots(m', src, dst).mem == m'.mem;
  }

  /** What the merge left below has not reopened a slot of this table. */
  lemma NothingToCopy(m: Machine, k: nat, u: nat, level: nat, w: set<nat>)
    requires level >= 2 && UserSide(m, u, level, w) && k !in w
    ensures var m' := MergeFrom(m, k, u, level); u in m'.mem && |m'.mem[u]| == ENTRIES && CopySlots(m', k, u) == m'
  {
    var m' := MergeFrom(m, k, u, level);
    MergeKeepsPresent(m, k, u, level);
    MergeFrame(m, k, u, level, w);
    assert SameOutside(m.mem, m'.mem, w);
    forall i: nat | i < ENTRIES ensures CopySlots(m', k, u).mem[u][i] == m'.mem[u][i] {
      MergedSlot(m, k, u, level, i, w);
      assert EntryAt(m'.mem, k, i) == EntryAt(m.mem, k, i) && EntryAt(m'.mem, u, i) == m'.mem[u][i];
      CopyEntry(m', k, u, u, i);
    }
    assert CopySlots(m', k, u).mem[u] == m'.mem[u];
    assert CopySlots(m', k, u).mem == m'.mem;
  }

  lemma {:induction false} MergeFromIdempotent(m: Machine, k: nat, u: nat, level: nat, w: set<nat>)
    requires 2 <= level <= 4 && UserSide(m, u, level, w) && (level > 2 ==> Avoids(m.mem, k, level, w))
    ensures var m' := MergeFrom(m, k, u, level); MergeFrom(m', k, u, level) == m'
    decreases level
  {
    if level == 2 {
      CopyTwice(m, k, u);
    } else {
      var m' := MergeFrom(m, k, u, level);
      NothingToCopy(m, k, u, level, w);
      MergeFrame(m, k, u, level, w);
      assert EntryAt(m'.mem, k, 0) == EntryAt(m.mem, k, 0);
      MergedSlot(m, k, u, level, 0, w);
      if GoesOn(m, k, u, level) {
        var m2, k2, u2 := Next(m, k, u), EntryAt(m.mem, k, 0).frame, SlotZero(m.mem, m.pool, u).frame;
        NextUserSide(m, k, u, level, w);
        if level == 4 { NextAvoids(m, k, u, w); }
        MergedBelow(m, k, u, level);
        MergeFromIdempotent(m2, k2, u2, level - 1, w);
      } else {
        CopyEntry(m, k, u, k, 0);
        CopyEntry(m, k, u, u, 0);
      }
    }
  }

  lemma NextAvoids(m: Machine, k: nat, u: nat, w: set<nat>)
    requires Separate(m, k, u, 4, w) && GoesOn(m, k, u, 4)
    ensures Avoids(Next(m, k, u).mem, EntryAt(m.mem, k, 0).frame, 3, w)
  {
    NextFrame(m, k, u);
    assert EntryAvoids(m.mem, EntryAt(m.mem, k, 0), 4, w) && SameOutside(m.mem, Next(m, k, u).mem, w);
    AvoidsFramed(m.mem, Next(m, k, u).mem, EntryAt(m.mem, k, 0).frame, 3, w);
  }

  /** Merging again changes nothing, whatever was left undone for want of frames. */
  lemma MergeIdempotent(m: Machine, kern: nat, user: nat, w: set<nat>)
    requires Separate(m, kern, user, 4, w)
    ensures Merge(Merge(m, kern, user), kern, user) == Merge(m, kern, user)
  {
    MergeFromIdempotent(m, kern, user, 4, w);
  }

  // ---------------------------------------------------------------- the merge as the kernel runs it

  /** The tables the next level will write exist. */
  lemma TableThere(m: Machine, k: nat, u: nat, level: nat)
    requires WellFormed(m) && level > 2 && HasTables(m.mem, u, level) && EnsureTable(CopySlots(m, k, u), u).Some?
    ensures var m2 := EnsureTable(CopySlots(m, k, u), u).value;
      HasTables(m2.mem, EntryAt(m2.mem, u, 0).frame, level - 1)
  {
    var m1 := CopySlots(m, k, u);
    CopyWellFormed(m, k, u);
    EnsureWellFormed(m1, u);
    if m.mem[u][0].present {
      HasTablesCopied(m, k, u, m.mem[u][0].frame, level - 1);
    } else {
      EnsureEntry(m1, u, m.pool[0], 0);
    }
  }

  lemma {:induction false} HasTablesCopied(m: Machine, k: nat, u: nat, t: nat, level: nat)
    requires WellFormed(m) && u in m.mem && HasTables(m.mem, t, level)
    ensures HasTables(CopySlots(m, k, u).mem, t, level)
    decreases level
  {
    CopyEntry(m, k, u, t, 0);
    if level > 2 && m.mem[t][0].present { HasTablesCopied(m, k, u, m.mem[t][0].frame, level - 1); }
  }

  class Kernel {
    var mem: Phys
    var pool: seq<nat>

    ghost function Now(): Machine
      reads this
    {
      Machine(mem, pool)
    }

    /** The copy loop over slots 1 to 511 of one table. */
    method CopyLoop(src: nat, dst: nat)
      requires dst in mem && |mem[dst]| == ENTRIES
      modifies `mem
      ensures Now() == CopySlots(old(Now()), src, dst)
    {
      ghost var m0 := mem;
      assert CopyUpTo(m0, src, dst, 1)[dst] == m0[dst];
      assert CopyUpTo(m0, src, dst, 1) == m0;
      for i := 1 to ENTRIES
        invariant dst in mem && |mem[dst]| == ENTRIES
        invariant mem == CopyUpTo(m0, src, dst, i)
      {
        ghost var was := mem;
        assert EntryAt(mem, src, i) == EntryAt(m0, src, i);
        if EntryAt(mem, src, i).present && mem[dst][i] == ZERO {
          mem := mem[dst := mem[dst][i := EntryAt(mem, src, i)]];
        }
        assert mem[dst] == CopyUpTo(m0, src, dst, i + 1)[dst];
        assert mem == CopyUpTo(m0, src, dst, i + 1);
      }
    }

    /** Allocates and zeroes a table for slot 0 of dst unless there is one. */
    method EnsureTableAt(dst: nat) returns (ok: bool)
      requires WellFormed(Now()) && dst in mem
      modifies this
      ensures ok == EnsureTable(old(Now()), dst).Some?
      ensures Now() == if ok then EnsureTable(old(Now()), dst).value else old(Now())
    {
      if !mem[dst][0].present {
        if pool == [] { return false; }
        var p := pool[0];
        pool := pool[1..];
        mem := mem[p := seq(ENTRIES, _ => ZERO)];
        mem := mem[dst := mem[dst][0 := TableEntry(p)]];
      }
      ok := true;
    }

    /** merge_kernel_into_user_pml4. */
    method MergeKernelIntoUserPml4(kern: nat, user: nat)
      requires WellFormed(Now()) && HasTables(mem, user, 4)
      modifies this
      ensures Now() == Merge(old(Now()), kern, user)
    {
      if kern == 0 { return; }
      ghost var m0 := Now();
      CopyWellFormed(m0, kern, user);
      CopyLoop(kern, user);
      if !EntryAt(mem, kern, 0).present { return; }
      var kernPdpt := EntryAt(mem, kern, 0).frame;
      ghost var m1 := Now();
      var ok := EnsureTableAt(user);
      if !ok { return; }
      EnsureWellFormed(m1, user);
      var userPdpt := EntryAt(mem, user, 0).frame;
      ghost var m2 := Now();
      TableThere(m0, kern, user, 4);
      assert MergeFrom(m0, kern, user, 4) == MergeFrom(m2, kernPdpt, userPdpt, 3);
      CopyWellFormed(m2, kernPdpt, userPdpt);
      CopyLoop(kernPdpt, userPdpt);
      if !EntryAt(mem, kernPdpt, 0).present { return; }
      var kernPd := EntryAt(mem, kernPdpt, 0).frame;
      ghost var m3 := Now();
      ok := EnsureTableAt(userPdpt);
      if !ok { return; }
      EnsureWellFormed(m3, userPdpt);
      var userPd := EntryAt(mem, userPdpt, 0).frame;
      ghost var m4 := Now();
      TableThere(m2, kernPdpt, userPdpt, 3);
      assert MergeFrom(m2, kernPdpt, userPdpt, 3) == MergeFrom(m4, kernPd, userPd, 2);
      CopyLoop(kernPd, userPd);
    }
  }
}
