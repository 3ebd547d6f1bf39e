/** Where a FAT32 volume keeps what: the boot sector, the FAT copies and the data area one after the other, as
    the FAT Volume Structure and the Boot Sector and BPB sections of Microsoft's FAT32 specification 1.03 lay them
    out.  The reader's arithmetic is checked against a disk written in that order. */
module Fat32Layout {
  import opened Bytes
  import opened Fat32Names
  import opened Fat32Volume

  // ---------------------------------------------------------------- bytes on consecutive sectors

  /** The disk holds `bytes` from the beginning of sector `lba` on. */
  ghost predicate OnDisk(v: Volume, lba: nat, bytes: seq<Byte>)
    requires Sized(v)
  {
    forall i: nat {:trigger bytes[i]} :: i < |bytes| ==> v.disk(lba + i / SECTOR)[i % SECTOR] == bytes[i]
  }

  ghost function Joined(parts: seq<seq<Byte>>): seq<Byte> {
    if parts == [] then [] else parts[0] + Joined(parts[1..])
  }

  ghost predicate AllOf(parts: seq<seq<Byte>>, size: nat) { forall i :: 0 <= i < |parts| ==> |parts[i]| == size }

  lemma {:induction false} JoinedAt(parts: seq<seq<Byte>>, size: nat, q: nat, r: nat)
    requires AllOf(parts, size) && r < size
    ensures |Joined(parts)| == |parts| * size
    ensures q < |parts| ==> q * size + r < |parts| * size && Joined(parts)[q * size + r] == parts[q][r]
    decreases |parts|
  {
    if parts != [] {
      MulStep(|parts|, size);
      if 0 < q < |parts| {
        JoinedAt(parts[1..], size, q - 1, r);
        MulStep(q, size);
      } else {
        JoinedAt(parts[1..], size, |parts| - 1, r);
      }
    }
  }

  /** Behind n whole sectors comes the rest. */
  lemma OnDiskTail(v: Volume, lba: nat, a: seq<Byte>, b: seq<Byte>, n: nat)
    requires Sized(v) && OnDisk(v, lba, a + b) && |a| == n * SECTOR
    ensures OnDisk(v, lba + n, b)
  {
    forall i: nat | i < |b| ensures v.disk(lba + n + i / SECTOR)[i % SECTOR] == b[i] {
      assert (a + b)[|a| + i] == b[i];
      assert (n * SECTOR + i) / SECTOR == n + i / SECTOR && (n * SECTOR + i) % SECTOR == i % SECTOR;
    }
  }

  lemma OnDiskHead(v: Volume, lba: nat, a: seq<Byte>, b: seq<Byte>)
    requires Sized(v) && OnDisk(v, lba, a + b)
    ensures OnDisk(v, lba, a)
  {
    forall i: nat | i < |a| ensures v.disk(lba + i / SECTOR)[i % SECTOR] == a[i] { assert (a + b)[i] == a[i]; }
  }

  // ---------------------------------------------------------------- the data area

  /** The data area holds the clusters one after the other; the first of them has number 2. */
  ghost predicate DataArea(v: Volume, clusters: seq<seq<Byte>>)
    requires Sized(v)
  {
    AllOf(clusters, v.spc * SECTOR) && OnDisk(v, v.dataLba, Joined(clusters))
  }

  ghost predicate Numbered(clusters: seq<seq<Byte>>, chain: seq<nat>) {
    forall k :: 0 <= k < |chain| ==> 2 <= chain[k] < |clusters| + 2
  }

  /** What the clusters of a chain hold. */
  ghost function Picked(clusters: seq<seq<Byte>>, chain: seq<nat>): seq<seq<Byte>>
    requires Numbered(clusters, chain)
  {
    if chain == [] then [] else [clusters[chain[0] - 2]] + Picked(clusters, chain[1..])
  }

  /** The sectors the reader takes for cluster c hold cluster c. */
  lemma ClusterBytes(v: Volume, clusters: seq<seq<Byte>>, c: nat)
    requires Sized(v) && DataArea(v, clusters) && 2 <= c < |clusters| + 2
    ensures SectorBytes(v, ClusterLbas(v, c, v.spc)) == clusters[c - 2]
  {
    var lbas, bytes := ClusterLbas(v, c, v.spc), SectorBytes(v, ClusterLbas(v, c, v.spc));
    SectorBytesAt(v, lbas, 0, 0);
    forall x: nat | x < v.spc * SECTOR ensures bytes[x] == clusters[c - 2][x] { ClusterByte(v, clusters, c, x); }
  }

  lemma ClusterByte(v: Volume, clusters: seq<seq<Byte>>, c: nat, x: nat)
    requires Sized(v) && DataArea(v, clusters) && 2 <= c < |clusters| + 2 && x < v.spc * SECTOR
    ensures |SectorBytes(v, ClusterLbas(v, c, v.spc))| == v.spc * SECTOR
    ensures SectorBytes(v, ClusterLbas(v, c, v.spc))[x] == clusters[c - 2][x]
  {
    SectorBytesAt(v, ClusterLbas(v, c, v.spc), x / SECTOR, x % SECTOR);
    AreaByte(v, clusters, c - 2, x);
  }

  /** Byte x of the cluster in place q. */
  lemma AreaByte(v: Volume, clusters: seq<seq<Byte>>, q: nat, x: nat)
    requires Sized(v) && DataArea(v, clusters) && q < |clusters| && x < v.spc * SECTOR
    ensures v.disk(v.dataLba + q * v.spc + x / SECTOR)[x % SECTOR] == clusters[q][x]
  {
    var size := v.spc * SECTOR;
    JoinedAt(clusters, size, q, x);
    var at := q * size + x;
    Locate(at, v.spc, q, x);
    assert v.disk(v.dataLba + at / SECTOR)[at % SECTOR] == Joined(clusters)[at];
  }

  lemma {:induction false} SectorsAppend(v: Volume, a: seq<nat>, b: seq<nat>)
    ensures SectorBytes(v, a + b) == SectorBytes(v, a) + SectorBytes(v, b)
    decreases |a|
  {
    if a == [] {
      assert a + b == b;
    } else {
      assert (a + b)[1..] == a[1..] + b;
      SectorsAppend(v, a[1..], b);
    }
  }

  lemma {:induction false} ChainBytes(v: Volume, clusters: seq<seq<Byte>>, chain: seq<nat>)
    requires Sized(v) && DataArea(v, clusters) && Numbered(clusters, chain)
    ensures SectorBytes(v, ChainLbas(v, chain)) == Joined(Picked(clusters, chain))
    decreases |chain|
  {
    if chain != [] {
      ClusterBytes(v, clusters, chain[0]);
      SectorsAppend(v, ClusterLbas(v, chain[0], v.spc), ChainLbas(v, chain[1..]));
      ChainBytes(v, clusters, chain[1..]);
      assert Picked(clusters, chain)[1..] == Picked(clusters, chain[1..]);
    }
  }

  /** What the reader reads as a file is what the clusters of its chain hold, one after the other, cut to its size. */
  lemma ContentsAre(v: Volume, chains: nat -> seq<nat>, fi: FileInfo, clusters: seq<seq<Byte>>)
    requires FileOk(v, chains, fi) && DataArea(v, clusters) && Numbered(clusters, chains(fi.firstCluster))
    ensures var bytes := Joined(Picked(clusters, chains(fi.firstCluster)));
      fi.size <= |bytes| && Contents(v, chains, fi) == bytes[..fi.size]
  {
    ChainBytes(v, clusters, chains(fi.firstCluster));
    SectorBytesAt(v, FileLbas(v, chains, fi), 0, 0);
  }

  // ---------------------------------------------------------------- directories

  /** Bytes in slots of 32. */
  ghost function Slots(bytes: seq<Byte>): seq<Slot> {
    if |bytes| < SLOT then [] else [bytes[..SLOT]] + Slots(bytes[SLOT..])
  }

  lemma {:induction false} SlotsAppend(a: seq<Byte>, b: seq<Byte>)
    requires |a| % SLOT == 0
    ensures Slots(a + b) == Slots(a) + Slots(b)
    decreases |a|
  {
    if a == [] {
      assert a + b == b;
    } else {
      assert (a + b)[..SLOT] == a[..SLOT] && (a + b)[SLOT..] == a[SLOT..] + b;
      SlotsAppend(a[SLOT..], b);
    }
  }

  lemma {:induction false} SectorSlotsAre(sec: seq<Byte>, n: nat)
    requires |sec| == SECTOR && n <= 16
    ensures SectorSlots(sec, n) == Slots(sec[..n * SLOT])
    decreases n
  {
    if n > 0 {
      SectorSlotsAre(sec, n - 1);
      var front, last := sec[..(n - 1) * SLOT], sec[(n - 1) * SLOT..n * SLOT];
      assert sec[..n * SLOT] == front + last;
      SlotsAppend(front, last);
      assert last[..SLOT] == last && Slots(last[SLOT..]) == [];
    }
  }

  lemma {:induction false} ClusterSlotsAre(v: Volume, c: nat, m: nat)
    requires Sized(v) && c >= 2
    ensures ClusterSlots(v, c, m) == Slots(SectorBytes(v, ClusterLbas(v, c, m)))
    decreases m
  {
    if m > 0 {
      var front, sec := ClusterLbas(v, c, m - 1), ClusToLba(v, c) + m - 1;
      ClusterSlotsAre(v, c, m - 1);
      OneMoreSector(v, front, sec);
    }
  }

  lemma OneMoreSector(v: Volume, front: seq<nat>, sec: nat)
    requires Sized(v)
    ensures Slots(SectorBytes(v, front + [sec])) == Slots(SectorBytes(v, front)) + SectorSlots(v.disk(sec), 16)
  {
    SectorsAppend(v, front, [sec]);
    SectorBytesAt(v, front, 0, 0);
    assert [sec][1..] == [] && SectorBytes(v, [sec]) == v.disk(sec) + [] == v.disk(sec);
    WholeSlots(|front|);
    SlotsAppend(SectorBytes(v, front), v.disk(sec));
    SectorSlotsAre(v.disk(sec), 16);
    assert v.disk(sec)[..16 * SLOT] == v.disk(sec);
  }

  lemma {:induction false} ChainSlotsAre(v: Volume, clusters: seq<seq<Byte>>, chain: seq<nat>, k: nat)
    requires Sized(v) && DataArea(v, clusters) && Numbered(clusters, chain) && k <= |chain|
    ensures ChainSlots(v, chain, k) == Slots(Joined(Picked(clusters, chain[..k])))
    decreases k
  {
    if k > 0 {
      ChainSlotsAre(v, clusters, chain, k - 1);
      var front, c := chain[..k - 1], chain[k - 1];
      ClusterSlotsAre(v, c, v.spc);
      ClusterBytes(v, clusters, c);
      assert chain[..k] == front + [c];
      PickedAppend(clusters, front, c);
      JoinedSlots(v, clusters, front);
      SlotsAppend(Joined(Picked(clusters, front)), clusters[c - 2]);
    }
  }

  lemma {:induction false} PickedAppend(clusters: seq<seq<Byte>>, front: seq<nat>, c: nat)
    requires Numbered(clusters, front) && 2 <= c < |clusters| + 2
    ensures Joined(Picked(clusters, front + [c])) == Joined(Picked(clusters, front)) + clusters[c - 2]
    decreases |front|
  {
    var all := front + [c];
    JoinedPicked(clusters, all);
    if front == [] {
      assert all[1..] == [];
    } else {
      assert all[1..] == front[1..] + [c];
      PickedAppend(clusters, front[1..], c);
      JoinedPicked(clusters, front);
    }
  }

  lemma JoinedPicked(clusters: seq<seq<Byte>>, chain: seq<nat>)
    requires Numbered(clusters, chain) && chain != []
    ensures Joined(Picked(clusters, chain)) == clusters[chain[0] - 2] + Joined(Picked(clusters, chain[1..]))
  {
    assert Picked(clusters, chain)[1..] == Picked(clusters, chain[1..]);
  }

  /** Whole clusters hold whole slots. */
  lemma {:induction false} JoinedSlots(v: Volume, clusters: seq<seq<Byte>>, chain: seq<nat>)
    requires AllOf(clusters, v.spc * SECTOR) && Numbered(clusters, chain)
    ensures |Joined(Picked(clusters, chain))| % SLOT == 0
    decreases |chain|
  {
    if chain != [] {
      JoinedSlots(v, clusters, chain[1..]);
      assert Picked(clusters, chain)[1..] == Picked(clusters, chain[1..]);
      WholeSlots(v.spc);
    }
  }

  lemma WholeSlots(spc: nat)
    ensures spc * SECTOR % SLOT == 0
  {
    assert spc * SECTOR == SLOT * (spc * 16);
  }

  /** What the reader takes for a directory's slots are those of its own clusters. */
  lemma DirEntriesAre(v: Volume, c: nat, chain: seq<nat>, clusters: seq<seq<Byte>>)
    requires DirOk(v, c, chain) && DataArea(v, clusters) && Numbered(clusters, chain)
    ensures DirEntries(v, c, chain) == ScanAll(Start(), Slots(Joined(Picked(clusters, chain)))).out
  {
    ChainSlotsAre(v, clusters, chain, |chain|);
    assert chain[..|chain|] == chain;
  }

  // ---------------------------------------------------------------- directories as they are written

  /** What is written to a directory: entries that do not count (erased ones, dot entries, volume labels), and
      files, with or without a long name. */
  datatype Record =
    | Skipped(slot: Slot)
    | File(longName: Option<seq<Byte>>, base: seq<Byte>, ext: seq<Byte>, attr: Byte, cluster: nat, size: nat,
      slot: Slot)

  /** s filled up to n bytes with spaces. */
  function Padded(s: seq<Byte>, n: nat): seq<Byte>
    requires |s| <= n
  {
    s + seq(n - |s|, _ => 0x20)
  }

  predicate Trimmed(s: seq<Byte>) { s == [] || s[|s| - 1] != 0x20 }

  /** Its slot holds the fields, each at its place. */
  ghost predicate RecordOk(r: Record) {
    match r
    case Skipped(e) =>
      e[0] == 0xE5 || (e[0] != 0 && e[11] != ATTR_LFN && (e[0] == 0x2E || (e[11] / 8 % 2 == 1 && e[11] / 16 % 2 == 0)))
    case File(longName, base, ext, attr, cluster, size, e) =>
      && (longName.Some? ==> Printable(longName.value))
      && 1 <= |base| <= 8 && |ext| <= 3 && Trimmed(base) && Trimmed(ext) && base[0] !in {0, 0xE5, 0x2E}
      && attr != ATTR_LFN && !(attr / 8 % 2 == 1 && attr / 16 % 2 == 0) && cluster < 0x1_0000_0000
        && size < 0x1_0000_0000
      && e[..8] == Padded(base, 8) && e[8..11] == Padded(ext, 3) && e[11] == attr
      && e[20..22] == LeBytes(cluster / 0x1_0000, 2) && e[26..28] == LeBytes(cluster % 0x1_0000, 2)
      && e[28..32] == LeBytes(size, 4)
  }

  /** The slots of a record: a long name comes in front of its short entry. */
  ghost function RecordSlots(r: Record): seq<Slot>
    requires RecordOk(r)
  {
    match r
    case Skipped(e) => [e]
    case File(longName, _, _, _, _, _, e) =>
      (if longName.Some? then NameSlots(longName.value, SlotsNeeded(longName.value), true) else []) + [e]
  }

  /** What a listing should say of it. */
  function Listed(r: Record): seq<DirEnt> {
    match r
    case Skipped(_) => []
    case File(longName, base, ext, attr, cluster, size, _) =>
      var name := if longName.Some? then longName.value else LowerAll(base) + if ext == [] then []
        else [0x2E] + LowerAll(ext);
      [DirEnt(name, attr / 16 % 2 == 1, size, cluster)]
  }

  ghost predicate RecordsOk(rs: seq<Record>) { forall i :: 0 <= i < |rs| ==> RecordOk(rs[i]) }

  ghost function AllSlots(rs: seq<Record>): seq<Slot>
    requires RecordsOk(rs)
  {
    if rs == [] then [] else RecordSlots(rs[0]) + AllSlots(rs[1..])
  }

  function AllListed(rs: seq<Record>): seq<DirEnt> { if rs == [] then [] else Listed(rs[0]) + AllListed(rs[1..]) }

  lemma {:induction false} TrimPadded(s: seq<Byte>, n: nat)
    requires Trimmed(s) && |s| <= n
    ensures TrimSpaces(Padded(s, n)) == s
    decreases n
  {
    var p := Padded(s, n);
    if |s| < n {
      assert p[|p| - 1] == 0x20 && p[..|p| - 1] == Padded(s, n - 1);
      TrimPadded(s, n - 1);
    } else {
      assert p == s;
    }
  }

  /** A short entry is read as it was written. */
  lemma EntryRead(r: Record, name: seq<Byte>)
    requires r.File? && RecordOk(r)
    ensures EntryOf(name, r.slot) == DirEnt(name, r.attr / 16 % 2 == 1, r.size, r.cluster)
    ensures Regular(r.slot) && (r.longName.None? ==> ShortName(r.slot) == Listed(r)[0].name)
  {
    PowConstants();
    LeRoundTrip(r.cluster / 0x1_0000, 2);
    LeRoundTrip(r.cluster % 0x1_0000, 2);
    LeRoundTrip(r.size, 4);
    TrimPadded(r.base, 8);
    TrimPadded(r.ext, 3);
    assert r.slot[..8][0] == r.base[0];
  }

  lemma ScanRecord(s: Scan, r: Record)
    requires ScanOk(s) && !s.stopped && !s.lfnHave && RecordOk(r)
    ensures Adds(s, RecordSlots(r), Listed(r))
  {
    var e := r.slot;
    assert ScanAll(s, [e]) == ScanSlot(s, e) by { assert [e][1..] == []; }
    if r.Skipped? {
      assert s.out + [] == s.out;
    } else {
      EntryRead(r, Listed(r)[0].name);
      if r.longName.Some? { LongNameReported(s, r.longName.value, e); } else { assert [] + [e] == [e]; }
    }
  }

  /** Scanning the slots adds exactly these entries, and the scan is ready for more. */
  ghost predicate Adds(s: Scan, slots: seq<Slot>, entries: seq<DirEnt>)
    requires ScanOk(s)
  {
    var s' := ScanAll(s, slots);
    s'.out == s.out + entries && !s'.stopped && !s'.lfnHave
  }

  lemma AddsBoth(s: Scan, a: seq<Slot>, b: seq<Slot>, x: seq<DirEnt>, y: seq<DirEnt>)
    requires ScanOk(s) && Adds(s, a, x) && Adds(ScanAll(s, a), b, y)
    ensures Adds(s, a + b, x + y)
  {
    var s1 := ScanAll(s, a);
    var s2 := ScanAll(s1, b);
    assert ScanAll(s, a + b) == s2 by { ScanAppend(s, a, b); }
    Regrouped(s.out, x, y);
  }

  lemma Regrouped(a: seq<DirEnt>, b: seq<DirEnt>, c: seq<DirEnt>)
    ensures (a + b) + c == a + (b + c)
  {
  }

  lemma {:induction false} ScanRecords(s: Scan, rs: seq<Record>)
    requires ScanOk(s) && !s.stopped && !s.lfnHave && RecordsOk(rs)
    ensures Adds(s, AllSlots(rs), AllListed(rs)) == true
    decreases |rs|
  {
    if rs == [] {
      assert s.out + [] == s.out;
    } else {
      var first := RecordSlots(rs[0]);
      ScanRecord(s, rs[0]);
      ScanRecords(ScanAll(s, first), rs[1..]);
      AddsBoth(s, first, AllSlots(rs[1..]), Listed(rs[0]), AllListed(rs[1..]));
    }
  }

  /** A directory is listed as it was written, whatever lies behind its end marker. */
  lemma ScanInvertsWrite(rs: seq<Record>, end: Slot, behind: seq<Slot>)
    requires RecordsOk(rs) && end[0] == 0
    ensures ScanAll(Start(), AllSlots(rs) + ([end] + behind)).out == AllListed(rs)
  {
    ScanRecords(Start(), rs);
    var s, tail := ScanAll(Start(), AllSlots(rs)), [end] + behind;
    ScanAppend(Start(), AllSlots(rs), tail);
    assert ScanAll(s, tail) == ScanAll(ScanSlot(s, end), behind) by { assert tail[0] == end && tail[1..] == behind; }
    ScanStopped(ScanSlot(s, end), behind);
    assert [] + AllListed(rs) == AllListed(rs);
  }

  /** So a directory whose clusters were written so is listed so. */
  lemma DirectoryListed(v: Volume, c: nat, chain: seq<nat>, clusters: seq<seq<Byte>>, rs: seq<Record>, end: Slot,
    behind: seq<Slot>)
    requires DirOk(v, c, chain) && DataArea(v, clusters) && Numbered(clusters, chain) && RecordsOk(rs) && end[0] == 0
    requires Slots(Joined(Picked(clusters, chain))) == AllSlots(rs) + ([end] + behind)
    ensures DirEntries(v, c, chain) == AllListed(rs)
  {
    DirEntriesAre(v, c, chain, clusters);
    ScanInvertsWrite(rs, end, behind);
  }

  // ---------------------------------------------------------------- the FAT

  /** The FAT as it is stored: 32 bits an entry. */
  ghost function FatBytes(fat: seq<nat>): seq<Byte> {
    if fat == [] then [] else LeBytes(fat[0], 4) + FatBytes(fat[1..])
  }

  lemma {:induction false} FatBytesAt(fat: seq<nat>, c: nat, k: nat)
    requires k < 4
    ensures |FatBytes(fat)| == 4 * |fat|
    ensures c < |fat| ==> FatBytes(fat)[4 * c + k] == LeBytes(fat[c], 4)[k]
    decreases |fat|
  {
    if fat != [] { FatBytesAt(fat[1..], if c > 0 then c - 1 else 0, k); }
  }

  ghost predicate FatFits(fat: seq<nat>) { forall c :: 0 <= c < |fat| ==> fat[c] < 0x1_0000_0000 }

  ghost predicate FatArea(v: Volume, fat: seq<nat>)
    requires Sized(v)
  {
    FatFits(fat) && OnDisk(v, v.fatLba, FatBytes(fat))
  }

  /** From cluster c the reader goes on to what the FAT's entry c says, in its lower 28 bits. */
  lemma FatEntryIs(v: Volume, fat: seq<nat>, c: nat)
    requires Sized(v) && FatArea(v, fat) && c < |fat|
    ensures FatEntry(v, c) == fat[c] % 0x1000_0000
  {
    var at, sec := c * 4 % SECTOR, v.disk(v.fatLba + c * 4 / SECTOR);
    assert at % 4 == 0 && at + 4 <= SECTOR;
    var entry := sec[at..at + 4];
    forall k | 0 <= k < 4 ensures entry[k] == LeBytes(fat[c], 4)[k] {
      FatBytesAt(fat, c, k);
      SameSector(c, k);
      assert v.disk(v.fatLba + (4 * c + k) / SECTOR)[(4 * c + k) % SECTOR] == FatBytes(fat)[4 * c + k];
    }
    assert entry == LeBytes(fat[c], 4);
    LeRoundTrip(fat[c], 4);
    PowConstants();
  }

  lemma SameSector(c: nat, k: nat)
    requires k < 4
    ensures (4 * c + k) / SECTOR == c * 4 / SECTOR && (4 * c + k) % SECTOR == c * 4 % SECTOR + k
  {
    var at := c * 4 % SECTOR;
    assert at % 4 == 0 && at + 4 <= SECTOR;
  }

  /** So a chain the reader follows is the one the FAT links. */
  lemma WalkIsLinked(v: Volume, fat: seq<nat>, c: nat, chain: seq<nat>, k: nat)
    requires Sized(v) && FatArea(v, fat) && Walk(v, c, chain) && k + 1 < |chain| && chain[k] < |fat|
    ensures chain[0] == c && chain[k + 1] == fat[chain[k]] % 0x1000_0000
  {
    WalkAt(v, c, chain, k);
    FatEntryIs(v, fat, chain[k]);
  }

  // ---------------------------------------------------------------- the boot sector

  /** The fields of a boot sector the driver looks at. */
  datatype Boot = Boot(jump: Byte, bytesPerSector: nat, spc: Byte, reserved: nat, numFats: Byte, fatSize: nat,
    rootClus: nat, sig: Byte) {
    predicate Fits() { bytesPerSector < 0x1_0000 && reserved < 0x1_0000 && fatSize < 0x1_0000_0000
      && rootClus < 0x1_0000_0000 }
    /** A volume this driver supports. */
    predicate Supported() {
      && (jump == 0xEB || jump == 0xE9) && bytesPerSector == SECTOR && spc > 0 && numFats > 0 && fatSize > 0
      && (sig == 0x28 || sig == 0x29)
    }
  }

  /** The sector holds those fields, each at its place. */
  ghost predicate IsBoot(vbr: seq<Byte>, b: Boot) {
    && |vbr| == SECTOR && b.Fits()
    && vbr[0] == b.jump && vbr[11..13] == LeBytes(b.bytesPerSector, 2) && vbr[13] == b.spc
    && vbr[14..16] == LeBytes(b.reserved, 2) && vbr[16] == b.numFats
    && vbr[36..40] == LeBytes(b.fatSize, 4) && vbr[44..48] == LeBytes(b.rootClus, 4) && vbr[66] == b.sig
  }

  /** available: the volume on a disk, as its boot sector describes it. */
  function Mounted(disk: nat -> seq<Byte>): Option<Volume> {
    var vbr := disk(0);
    if |vbr| != SECTOR || (vbr[0] != 0xEB && vbr[0] != 0xE9) || LeValue(vbr[11..13]) != 512 || vbr[13] == 0 then None
    else
      var reserved, numFats, fatSize := LeValue(vbr[14..16]), vbr[16], LeValue(vbr[36..40]);
      if numFats == 0 || fatSize == 0 || (vbr[66] != 0x28 && vbr[66] != 0x29) then None
      else Some(Volume(disk, vbr[13], reserved, reserved + numFats * fatSize, LeValue(vbr[44..48])))
  }

  /** A disk written as a volume: the reserved sectors, the first of them the boot sector, the copies of the FAT,
      then the clusters. */
  ghost predicate Written(v: Volume, b: Boot, reservedBytes: seq<Byte>, fats: seq<seq<Byte>>, clusters: seq<seq<Byte>>)
    requires Sized(v)
  {
    && IsBoot(v.disk(0), b) && |reservedBytes| == b.reserved * SECTOR
    && |fats| == b.numFats && AllOf(fats, b.fatSize * SECTOR)
    && OnDisk(v, 0, reservedBytes + (Joined(fats) + Joined(clusters)))
  }

  /** Such a volume is accepted exactly if it is supported, and then the reader finds the FAT and the clusters where
      they are. */
  lemma MountedExactly(v: Volume, b: Boot, reservedBytes: seq<Byte>, fats: seq<seq<Byte>>, fat: seq<nat>,
    clusters: seq<seq<Byte>>)
    requires Sized(v) && Written(v, b, reservedBytes, fats, clusters)
    requires fats != [] ==> FatBytes(fat) <= fats[0]
    requires AllOf(clusters, b.spc * SECTOR) && FatFits(fat)
    ensures Mounted(v.disk).Some? <==> b.Supported()
    ensures b.Supported() ==>
      var m := Mounted(v.disk).value;
      m.disk == v.disk && m.spc == b.spc && m.rootClus == b.rootClus && Sized(m) && FatArea(m, fat)
        && DataArea(m, clusters)
  {
    MountedIs(v.disk, b);
    if b.Supported() { AreasFound(Mounted(v.disk).value, b, reservedBytes, fats, fat, clusters); }
  }

  lemma MountedIs(disk: nat -> seq<Byte>, b: Boot)
    requires IsBoot(disk(0), b)
    ensures Mounted(disk) ==
      if b.Supported() then Some(Volume(disk, b.spc, b.reserved, b.reserved + b.numFats * b.fatSize, b.rootClus))
        else None
  {
    BootRead(disk(0), b);
  }

  lemma AreasFound(m: Volume, b: Boot, reservedBytes: seq<Byte>, fats: seq<seq<Byte>>, fat: seq<nat>,
    clusters: seq<seq<Byte>>)
    requires Sized(m) && m.fatLba == b.reserved && m.dataLba == b.reserved + b.numFats * b.fatSize
    requires |reservedBytes| == b.reserved * SECTOR && |fats| == b.numFats > 0 && b.fatSize > 0
      && AllOf(fats, b.fatSize * SECTOR)
    requires OnDisk(m, 0, reservedBytes + (Joined(fats) + Joined(clusters))) && FatBytes(fat) <= fats[0]
    ensures OnDisk(m, m.fatLba, FatBytes(fat)) && OnDisk(m, m.dataLba, Joined(clusters))
  {
    JoinedAt(fats, b.fatSize * SECTOR, 0, 0);
    Associates(b.numFats, b.fatSize, SECTOR);
    AreasAt(m, reservedBytes, Joined(fats), Joined(clusters), b.reserved, b.numFats * b.fatSize);
    FirstFat(m, b.reserved, fats, Joined(clusters), FatBytes(fat));
  }

  lemma Associates(a: nat, b: nat, c: nat)
    ensures a * (b * c) == a * b * c
  {
  }

  lemma AreasAt(m: Volume, a: seq<Byte>, b: seq<Byte>, c: seq<Byte>, n: nat, k: nat)
    requires Sized(m) && OnDisk(m, 0, a + (b + c)) && |a| == n * SECTOR && |b| == k * SECTOR
    ensures OnDisk(m, n, b + c) && OnDisk(m, n + k, c)
  {
    OnDiskTail(m, 0, a, b + c, n);
    OnDiskTail(m, n, b, c, k);
  }

  lemma FirstFat(v: Volume, lba: nat, fats: seq<seq<Byte>>, rest: seq<Byte>, bytes: seq<Byte>)
    requires Sized(v) && fats != [] && OnDisk(v, lba, Joined(fats) + rest) && bytes <= fats[0]
    ensures OnDisk(v, lba, bytes)
  {
    var behind := fats[0][|bytes|..] + (Joined(fats[1..]) + rest);
    assert Joined(fats) + rest == bytes + behind;
    OnDiskHead(v, lba, bytes, behind);
  }

  lemma BootRead(vbr: seq<Byte>, b: Boot)
    requires IsBoot(vbr, b)
    ensures LeValue(vbr[11..13]) == b.bytesPerSector && LeValue(vbr[14..16]) == b.reserved
    ensures LeValue(vbr[36..40]) == b.fatSize && LeValue(vbr[44..48]) == b.rootClus
  {
    PowConstants();
    LeRoundTrip(b.bytesPerSector, 2);
    LeRoundTrip(b.reserved, 2);
    LeRoundTrip(b.fatSize, 4);
    LeRoundTrip(b.rootClus, 4);
  }
}
