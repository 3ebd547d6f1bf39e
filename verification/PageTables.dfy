/** Four-level x86-64 page tables in physical memory and the walk the processor makes
    through them (section 4.5 of the Intel SDM, volume 3A). */
module PageTables {
  import opened Bytes

  /** A 64-bit entry by its fields: the flag bits 0, 1, 2, 7 and 63, the frame number in bits
      12 to 51, and whatever the remaining bits hold.  The word is zero when every field is. */
  datatype Entry = Entry(present: bool, writable: bool, user: bool, huge: bool, noExec: bool, frame: nat, rest: nat)

  const ZERO: Entry := Entry(false, false, false, false, false, 0, 0)

  const ENTRIES: nat := 512
  const VA_LIMIT: nat := 0x1_0000_0000_0000
  const TWO_MB: nat := 0x20_0000

  /** An entry that ends the walk at this level (4 = PML4, ..., 1 = page table). */
  predicate Leaf(e: Entry, level: nat) { level <= 1 || (level <= 3 && e.huge) }

  /** Page tables by frame number; a frame that is not listed holds no table. */
  type Phys = map<nat, seq<Entry>>

  function EntryAt(mem: Phys, table: nat, i: nat): Entry {
    if table in mem && i < |mem[table]| then mem[table][i] else ZERO
  }

  /** How many bytes one entry of a level covers. */
  function Reach(level: nat): nat {
    if level <= 1 then 0x1000 else if level == 2 then TWO_MB else if level == 3 then 0x4000_0000 else 0x80_0000_0000
  }

  function Index(va: nat, level: nat): (i: nat)
    ensures i < ENTRIES
  {
    va / Reach(level) % ENTRIES
  }

  /** The entries the walk for va visits from `table` down to the leaf, or None if one is not present. */
  function Path(mem: Phys, table: nat, level: nat, va: nat): (p: Option<seq<Entry>>)
    requires level >= 1
    ensures p.Some? ==> 1 <= |p.value| <= level
    decreases level
  {
    var e := EntryAt(mem, table, Index(va, level));
    if !e.present then None
    else if Leaf(e, level) then Some([e])
    else
      var below := Path(mem, e.frame, level - 1, va);
      if below.None? then None else Some([e] + below.value)
  }

  /** Where va lands: the leaf entry that maps it (its frame and attributes) and the level it stands on,
      which is the size of the page. */
  datatype Mapping = Mapping(level: nat, leaf: Entry)

  function Translate(mem: Phys, root: nat, va: nat): Option<Mapping> {
    var p := Path(mem, root, 4, va);
    if p.None? then None else Some(Mapping(5 - |p.value|, p.value[|p.value| - 1]))
  }

  /** Ring 3 may touch va: it is mapped and every entry on the way allows user access. */
  predicate UserAccessible(mem: Phys, root: nat, va: nat) {
    var p := Path(mem, root, 4, va);
    p.Some? && forall e :: e in p.value ==> e.user
  }

  /** What a walk may allow (section 4.6 of the Intel SDM, volume 3A): each right needs the consent of every
      entry on the way. */
  datatype Right = Write | Execute | User

  predicate Has(e: Entry, r: Right) {
    match r
    case Write => e.writable
    case Execute => !e.noExec
    case User => e.user
  }

  predicate Allows(p: seq<Entry>, r: Right) { forall e :: e in p ==> Has(e, r) }

  /** Nothing that is present in mem changes in mem'. */
  ghost predicate PresentKept(mem: Phys, mem': Phys) {
    forall t: nat, i: nat :: EntryAt(mem, t, i).present ==> EntryAt(mem', t, i) == EntryAt(mem, t, i)
  }

  /** Filling empty slots never disturbs a walk that already succeeded. */
  lemma {:induction false} PathKept(mem: Phys, mem': Phys, table: nat, level: nat, va: nat)
    requires level >= 1 && PresentKept(mem, mem') && Path(mem, table, level, va).Some?
    ensures Path(mem', table, level, va) == Path(mem, table, level, va)
    decreases level
  {
    var e := EntryAt(mem, table, Index(va, level));
    assert EntryAt(mem', table, Index(va, level)) == e;
    if !Leaf(e, level) {
      PathKept(mem, mem', e.frame, level - 1, va);
    }
  }

  /** No table of w is reached from `table` at this level. */
  ghost predicate Avoids(mem: Phys, table: nat, level: nat, w: set<nat>)
    requires level >= 1
    decreases level
  {
    && table !in w
    && forall i: nat :: i < ENTRIES ==> EntryAvoids(mem, EntryAt(mem, table, i), level, w)
  }

  ghost predicate EntryAvoids(mem: Phys, e: Entry, level: nat, w: set<nat>)
    requires level >= 1
    decreases level, 0
  {
    e.present && !Leaf(e, level) ==> Avoids(mem, e.frame, level - 1, w)
  }

  ghost predicate SameOutside(mem: Phys, mem': Phys, w: set<nat>) {
    forall t: nat, i: nat {:trigger EntryAt(mem', t, i)} :: t !in w ==> EntryAt(mem', t, i) == EntryAt(mem, t, i)
  }

  /** A walk that avoids every changed table gives the same result, also when it fails. */
  lemma {:induction false} PathFramed(mem: Phys, mem': Phys, table: nat, level: nat, va: nat, w: set<nat>)
    requires level >= 1 && SameOutside(mem, mem', w) && Avoids(mem, table, level, w)
    ensures Path(mem', table, level, va) == Path(mem, table, level, va)
    decreases level
  {
    var e := EntryAt(mem, table, Index(va, level));
    assert EntryAt(mem', table, Index(va, level)) == e;
    if e.present && !Leaf(e, level) {
      assert EntryAvoids(mem, e, level, w);
      PathFramed(mem, mem', e.frame, level - 1, va, w);
    }
  }
}
