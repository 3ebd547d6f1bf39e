/** The file server's table of open file descriptors: a flat array that stands for a map from
    (process, descriptor number) to the open file. */
module FdTable {
  import opened Bytes

  const MAX_FDS: nat := 256
  const FDS_PER_PROC: nat := 8
  const MAX_PATH: nat := 64
  const U32_MAX: nat := 0xFFFF_FFFF

  const O_WRONLY: nat := 1
  const O_RDWR: nat := 2

  datatype FdEntry = FdEntry(pid: nat, fd: nat, oflags: nat, offset: nat, path: seq<Byte>, used: bool) {
    function Key(): (nat, nat) { (pid, fd) }
    function File(): OpenFile { OpenFile(oflags, offset, path) }
  }

  /** What a descriptor stands for. */
  datatype OpenFile = OpenFile(oflags: nat, offset: nat, path: seq<Byte>) {
    predicate Readable() { oflags % 4 == 0 || oflags % 4 == O_RDWR }
    predicate Writable() { oflags % 4 == O_WRONLY || oflags % 4 == O_RDWR }
    predicate Appending() { oflags / 16 % 2 == 1 }
  }

  /** Slot i holds the descriptor the index says. */
  ghost predicate SlotOk(s: seq<FdEntry>, slot: map<(nat, nat), nat>, i: nat)
    requires i < |s|
  {
    s[i].used ==>
      && s[i].Key() in slot && slot[s[i].Key()] == i && s[i].fd < FDS_PER_PROC
      && 1 <= |s[i].path| <= MAX_PATH && s[i].offset <= U32_MAX
  }

  ghost predicate KeyOk(s: seq<FdEntry>, slot: map<(nat, nat), nat>, k: (nat, nat))
    requires k in slot
  {
    slot[k] < |s| && s[slot[k]].used && s[slot[k]].Key() == k
  }

  /** The table and its index agree: no two used slots have the same key. */
  ghost predicate Indexed(s: seq<FdEntry>, slot: map<(nat, nat), nat>) {
    && (forall i: nat {:trigger SlotOk(s, slot, i)} :: i < |s| ==> SlotOk(s, slot, i))
    && (forall k {:trigger KeyOk(s, slot, k)} :: k in slot ==> KeyOk(s, slot, k))
  }

  /** The map the table stands for. */
  ghost function View(s: seq<FdEntry>, slot: map<(nat, nat), nat>): (m: map<(nat, nat), OpenFile>)
    requires Indexed(s, slot)
    ensures m.Keys == slot.Keys
  {
    map k | k in slot :: assert KeyOk(s, slot, k); s[slot[k]].File()
  }

  lemma KeyAt(s: seq<FdEntry>, slot: map<(nat, nat), nat>, k: (nat, nat))
    requires Indexed(s, slot) && k in slot
    ensures slot[k] < |s| && s[slot[k]].used && s[slot[k]].Key() == k
  {
    assert KeyOk(s, slot, k);
  }

  lemma UsedAt(s: seq<FdEntry>, slot: map<(nat, nat), nat>, i: nat)
    requires Indexed(s, slot) && i < |s| && s[i].used
    ensures s[i].Key() in slot && View(s, slot)[s[i].Key()] == s[i].File()
  {
    assert SlotOk(s, slot, i) && KeyOk(s, slot, s[i].Key());
  }

  /** Changing the file behind one used slot. */
  lemma ViewUpdate(s: seq<FdEntry>, slot: map<(nat, nat), nat>, i: nat, e: FdEntry)
    requires Indexed(s, slot) && i < |s| && s[i].used && e.used && e.Key() == s[i].Key()
    requires e.path == s[i].path && e.offset <= U32_MAX
    ensures Indexed(s[i := e], slot) && View(s[i := e], slot) == View(s, slot)[e.Key() := e.File()]
  {
    var s' := s[i := e];
    assert SlotOk(s, slot, i);
    forall j: nat | j < |s'| ensures SlotOk(s', slot, j) { assert SlotOk(s, slot, j); }
    forall k | k in slot ensures KeyOk(s', slot, k) { assert KeyOk(s, slot, k); }
    forall k | k in slot ensures View(s', slot)[k] == View(s, slot)[e.Key() := e.File()][k] {
      assert KeyOk(s, slot, k) && KeyOk(s', slot, k);
    }
  }

  /** Filling a free slot with a new key. */
  lemma ViewInsert(s: seq<FdEntry>, slot: map<(nat, nat), nat>, i: nat, e: FdEntry)
    requires Indexed(s, slot) && i < |s| && !s[i].used && e.used && e.Key() !in slot
    requires e.fd < FDS_PER_PROC && 1 <= |e.path| <= MAX_PATH && e.offset <= U32_MAX
    ensures Indexed(s[i := e], slot[e.Key() := i])
      && View(s[i := e], slot[e.Key() := i]) == View(s, slot)[e.Key() := e.File()]
  {
    var s', slot' := s[i := e], slot[e.Key() := i];
    forall j: nat | j < |s'| ensures SlotOk(s', slot', j) { assert SlotOk(s, slot, j); }
    forall k | k in slot' ensures KeyOk(s', slot', k) { if k in slot { assert KeyOk(s, slot, k); } }
    forall k | k in slot' ensures View(s', slot')[k] == View(s, slot)[e.Key() := e.File()][k] {
      assert KeyOk(s', slot', k);
      if k != e.Key() { assert KeyOk(s, slot, k); }
    }
  }

  /** Clearing slot i drops its key, if it had one. */
  lemma ViewRemove(s: seq<FdEntry>, slot: map<(nat, nat), nat>, i: nat)
    requires Indexed(s, slot) && i < |s|
    ensures var gone := if s[i].used then {s[i].Key()} else {};
      && Indexed(s[i := s[i].(used := false)], slot - gone)
      && View(s[i := s[i].(used := false)], slot - gone) == View(s, slot) - gone
  {
    var gone := if s[i].used then {s[i].Key()} else {};
    var s', slot' := s[i := s[i].(used := false)], slot - gone;
    assert SlotOk(s, slot, i);
    forall j: nat | j < |s'| ensures SlotOk(s', slot', j) { assert SlotOk(s, slot, j); }
    forall k | k in slot' ensures KeyOk(s', slot', k) { assert KeyOk(s, slot, k); }
    forall k | k in slot' ensures View(s', slot')[k] == (View(s, slot) - gone)[k] {
      assert KeyOk(s', slot', k) && KeyOk(s, slot, k);
    }
  }

  /** No process holds more than eight descriptors. */
  lemma {:induction false} EightPerProcess(s: seq<FdEntry>, slot: map<(nat, nat), nat>, pid: nat)
    requires Indexed(s, slot)
    ensures |set k | k in View(s, slot) && k.0 == pid| <= FDS_PER_PROC
  {
    var mine := set k | k in View(s, slot) && k.0 == pid;
    var all := {(pid, 0), (pid, 1), (pid, 2), (pid, 3), (pid, 4), (pid, 5), (pid, 6), (pid, 7)};
    forall k | k in mine ensures k in all {
      KeyAt(s, slot, k);
      assert SlotOk(s, slot, slot[k]);
      assert k == (pid, k.1);
    }
    SubsetSize(mine, all);
  }

  /** The keys held in the first n slots: at most n of them, and n only if all those slots are used. */
  lemma {:induction false} KeysBelow(s: seq<FdEntry>, slot: map<(nat, nat), nat>, n: nat)
    requires Indexed(s, slot) && n <= |s|
    ensures var below := set k | k in slot && slot[k] < n;
      |below| <= n && (|below| == n <==> forall i: nat :: i < n ==> s[i].used)
  {
    var below := set k | k in slot && slot[k] < n;
    if n > 0 {
      KeysBelow(s, slot, n - 1);
      var fewer := set k | k in slot && slot[k] < n - 1;
      forall k | k in below && k !in fewer ensures s[n - 1].used && k == s[n - 1].Key() { KeyAt(s, slot, k); }
      if s[n - 1].used {
        UsedAt(s, slot, n - 1);
        assert SlotOk(s, slot, n - 1);
        assert below == fewer + {s[n - 1].Key()};
      } else {
        assert below == fewer;
      }
    }
  }

  /** Every slot is used exactly when 256 descriptors are open. */
  lemma FullTable(s: seq<FdEntry>, slot: map<(nat, nat), nat>)
    requires Indexed(s, slot)
    ensures (forall i: nat :: i < |s| ==> s[i].used) <==> |View(s, slot)| == |s|
  {
    KeysBelow(s, slot, |s|);
    forall k | k in slot ensures slot[k] < |s| { KeyAt(s, slot, k); }
    assert (set k | k in slot && slot[k] < |s|) == View(s, slot).Keys;
  }

  /** Whether an open can succeed: a path that fits, a free number of the process, a free slot. */
  ghost predicate CanGrant(pid: nat, files: map<(nat, nat), OpenFile>, path: seq<Byte>) {
    && 1 <= |path| <= MAX_PATH && |files| != MAX_FDS
    && exists n: nat :: n < FDS_PER_PROC && (pid, n) !in files
  }

  ghost predicate IsLowest(pid: nat, files: map<(nat, nat), OpenFile>, n: nat) {
    n < FDS_PER_PROC && (pid, n) !in files && forall k: nat :: k < n ==> (pid, k) in files
  }

  class Table {
    const tbl: array<FdEntry>
    /** Which slot holds each open descriptor. */
    ghost var slot: map<(nat, nat), nat>
    /** The map the table stands for. */
    ghost var files: map<(nat, nat), OpenFile>

    ghost predicate Valid()
      reads this, tbl
    {
      tbl.Length == MAX_FDS && Indexed(tbl[..], slot) && files == View(tbl[..], slot)
    }

    lemma OffsetFits(k: (nat, nat))
      requires Valid() && k in files
      ensures files[k].offset <= U32_MAX
    {
      KeyAt(tbl[..], slot, k);
      assert SlotOk(tbl[..], slot, slot[k]);
    }

    constructor ()
      ensures Valid() && files == map[] && fresh(tbl)
    {
      tbl := new FdEntry[MAX_FDS](_ => FdEntry(0, 0, 0, 0, [], false));
      slot, files := map[], map[];
      new;
      assert Indexed(tbl[..], slot);
    }

    /** The slot scan behind get, advance, seek and free. */
    method Find(pid: nat, fd: nat) returns (i: Option<nat>)
      requires Valid()
      ensures i.Some? ==>
        i.value < MAX_FDS && tbl[i.value].used && tbl[i.value].Key() == (pid, fd) && (pid, fd) in files
        && files[(pid, fd)] == tbl[i.value].File()
      ensures i.None? ==> (pid, fd) !in files
    {
      for n := 0 to MAX_FDS
        invariant forall j: nat :: j < n ==> !(tbl[j].used && tbl[j].Key() == (pid, fd))
      {
        if tbl[n].used && tbl[n].pid == pid && tbl[n].fd == fd {
          assert SlotOk(tbl[..], slot, n) && KeyOk(tbl[..], slot, (pid, fd));
          return Some(n);
        }
      }
      forall k | k in slot ensures k != (pid, fd) { KeyAt(tbl[..], slot, k); }
      i := None;
    }

    /** fd::get. */
    method Get(pid: nat, fd: nat) returns (f: Option<OpenFile>)
      requires Valid()
      ensures f == if (pid, fd) in files then Some(files[(pid, fd)]) else None
      ensures f.Some? ==> f.value.offset <= U32_MAX && 1 <= |f.value.path| <= MAX_PATH
    {
      var i := Find(pid, fd);
      if i.Some? { assert SlotOk(tbl[..], slot, i.value); }
      f := if i.Some? then Some(tbl[i.value].File()) else None;
    }

    method SetOffset(i: nat, offset: nat)
      requires Valid() && i < MAX_FDS && tbl[i].used && offset <= U32_MAX
      modifies tbl, `files
      ensures Valid() && files == old(files)[old(tbl[i].Key()) := old(tbl[i].File()).(offset := offset)]
    {
      ViewUpdate(tbl[..], slot, i, tbl[i].(offset := offset));
      ghost var s' := tbl[..][i := tbl[i].(offset := offset)];
      files := files[tbl[i].Key() := tbl[i].File().(offset := offset)];
      tbl[i] := tbl[i].(offset := offset);
      assert tbl[..] == s';
    }

    /** fd::advance: saturating at u32::MAX; an unknown descriptor is ignored. */
    method Advance(pid: nat, fd: nat, delta: nat)
      requires Valid()
      modifies tbl, `files
      ensures Valid()
      ensures (pid, fd) !in old(files) ==> files == old(files)
      ensures (pid, fd) in old(files) ==>
        var f := old(files)[(pid, fd)]; files == old(files)[(pid, fd) := f.(offset := Min(f.offset + delta, U32_MAX))]
    {
      var i := Find(pid, fd);
      if i.Some? { SetOffset(i.value, Min(tbl[i.value].offset + delta, U32_MAX)); }
    }

    /** fd::seek. */
    method Seek(pid: nat, fd: nat, offset: nat)
      requires Valid() && offset <= U32_MAX
      modifies tbl, `files
      ensures Valid()
      ensures files == if (pid, fd) in old(files)
        then old(files)[(pid, fd) := old(files)[(pid, fd)].(offset := offset)] else old(files)
    {
      var i := Find(pid, fd);
      if i.Some? { SetOffset(i.value, offset); }
    }

    method Clear(i: nat)
      requires Valid() && i < MAX_FDS
      modifies tbl, `slot, `files
      ensures Valid() && tbl[..] == old(tbl[..])[i := old(tbl[i]).(used := false)]
      ensures files == old(files) - (if old(tbl[i].used) then {old(tbl[i].Key())} else {})
    {
      ViewRemove(tbl[..], slot, i);
      ghost var s' := tbl[..][i := tbl[i].(used := false)];
      ghost var gone := if tbl[i].used then {tbl[i].Key()} else {};
      slot, files := slot - gone, files - gone;
      tbl[i] := tbl[i].(used := false);
      assert tbl[..] == s';
    }

    /** fd::free. */
    method Free(pid: nat, fd: nat) returns (ok: bool)
      requires Valid()
      modifies tbl, `slot, `files
      ensures Valid() && (ok <==> (pid, fd) in old(files))
      ensures files == old(files) - {(pid, fd)}
    {
      var i := Find(pid, fd);
      if i.Some? {
        Clear(i.value);
        return true;
      }
      assert files - {(pid, fd)} == files;
      ok := false;
    }

    /** Which descriptor numbers pid has open. */
    method UsedFds(pid: nat) returns (inUse: seq<bool>)
      requires Valid()
      ensures |inUse| == FDS_PER_PROC && forall f: nat :: f < FDS_PER_PROC ==> (inUse[f] <==> (pid, f) in files)
    {
      inUse := seq(FDS_PER_PROC, _ => false);
      for n := 0 to MAX_FDS
        invariant |inUse| == FDS_PER_PROC
        invariant forall f: nat :: f < FDS_PER_PROC && inUse[f] ==> (pid, f) in slot
        invariant forall j: nat ::
          j < n && tbl[j].used && tbl[j].pid == pid && tbl[j].fd < FDS_PER_PROC ==> inUse[tbl[j].fd]
      {
        if tbl[n].used && tbl[n].pid == pid {
          assert SlotOk(tbl[..], slot, n);
          var f := tbl[n].fd;
          if f < FDS_PER_PROC { inUse := inUse[f := true]; }
        }
      }
      forall f: nat | f < FDS_PER_PROC && (pid, f) in slot ensures inUse[f] {
        KeyAt(tbl[..], slot, (pid, f));
      }
    }

    /** fd::alloc: the lowest free descriptor number of the process, and when there is none. */
    method Alloc(pid: nat, path: seq<Byte>, oflags: nat) returns (fd: Option<nat>)
      requires Valid()
      modifies tbl, `slot, `files
      ensures Valid()
      ensures fd.Some? <==> CanGrant(pid, old(files), path)
      ensures fd.Some? ==>
        IsLowest(pid, old(files), fd.value) && files == old(files)[(pid, fd.value) := OpenFile(oflags, 0, path)]
      ensures fd.None? ==> files == old(files)
    {
      FullTable(tbl[..], slot);
      if |path| == 0 || |path| > MAX_PATH { return None; }
      var inUse := UsedFds(pid);
      var num := 0;
      while num < FDS_PER_PROC && inUse[num]
        invariant num <= FDS_PER_PROC && forall f: nat :: f < num ==> inUse[f]
      {
        num := num + 1;
      }
      if num == FDS_PER_PROC { return None; }
      for n := 0 to MAX_FDS
        invariant forall j: nat :: j < n ==> tbl[j].used
        invariant tbl[..] == old(tbl[..]) && slot == old(slot)
      {
        if !tbl[n].used {
          assert !tbl[..][n].used;
          Place(n, FdEntry(pid, num, oflags, 0, path, true));
          return Some(num);
        }
      }
      fd := None;
    }

    /** alloc, then seek to where the descriptor starts. */
    method AllocAt(pid: nat, path: seq<Byte>, oflags: nat, start: nat) returns (fd: Option<nat>)
      requires Valid() && start <= U32_MAX
      modifies tbl, `slot, `files
      ensures Valid() && (fd.Some? <==> CanGrant(pid, old(files), path))
      ensures fd.Some? ==>
        IsLowest(pid, old(files), fd.value) && files == old(files)[(pid, fd.value) := OpenFile(oflags, start, path)]
      ensures fd.None? ==> files == old(files)
    {
      fd := Alloc(pid, path, oflags);
      if fd.Some? && start > 0 { Seek(pid, fd.value, start); }
    }

    method Place(n: nat, e: FdEntry)
      requires Valid() && n < MAX_FDS && !tbl[n].used && e.used && e.Key() !in files
      requires e.fd < FDS_PER_PROC && 1 <= |e.path| <= MAX_PATH && e.offset <= U32_MAX
      modifies tbl, `slot, `files
      ensures Valid() && files == old(files)[e.Key() := e.File()]
    {
      ViewInsert(tbl[..], slot, n, e);
      ghost var s' := tbl[..][n := e];
      tbl[n] := e;
      slot, files := slot[e.Key() := n], files[e.Key() := e.File()];
      assert tbl[..] == s';
    }

    /** fd::free_all: every descriptor of a process, and no other's. */
    method FreeAll(pid: nat)
      requires Valid()
      modifies tbl, `slot, `files
      ensures Valid() && files == map k | k in old(files) && k.0 != pid :: old(files)[k]
    {
      for n := 0 to MAX_FDS
        invariant Valid() && files.Keys <= old(files).Keys
        invariant forall k :: k in files ==> files[k] == old(files)[k]
        invariant forall k :: k in old(files) && k.0 != pid ==> k in files
        invariant forall j: nat :: j < n && tbl[j].used ==> tbl[j].pid != pid
      {
        if tbl[n].pid == pid { Clear(n); }
      }
      forall k | k in files ensures k.0 != pid { KeyAt(tbl[..], slot, k); }
    }

    /** fd::free_all_path: every process's descriptors on a path. */
    method FreeAllPath(path: seq<Byte>)
      requires Valid()
      modifies tbl, `slot, `files
      ensures Valid() && files == map k | k in old(files) && old(files)[k].path != path :: old(files)[k]
    {
      for n := 0 to MAX_FDS
        invariant Valid() && files.Keys <= old(files).Keys
        invariant forall k :: k in files ==> files[k] == old(files)[k]
        invariant forall k :: k in old(files) && old(files)[k].path != path ==> k in files
        invariant forall j: nat :: j < n && tbl[j].used ==> tbl[j].path != path
      {
        if tbl[n].used && tbl[n].path == path {
          UsedAt(tbl[..], slot, n);
          Clear(n);
        }
      }
      forall k | k in files ensures files[k].path != path { KeyAt(tbl[..], slot, k); }
    }
  }
}
