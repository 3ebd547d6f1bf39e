/** The contents of a FAT32 volume: cluster chains, the bytes and the directory slots they hold, and
    what a path names.  Everything here is a function of the disk alone. */
module Fat32Volume {
  import opened Bytes
  import opened Fat32Names

  const SECTOR: nat := 512
  const EOC: nat := 0x0FFF_FFF8
  const U32_MAX: nat := 0xFFFF_FFFF
  const READ_MAX: nat := 40

  datatype Volume = Volume(disk: nat -> seq<Byte>, spc: nat, fatLba: nat, dataLba: nat, rootClus: nat)

  ghost predicate Sized(v: Volume) { v.spc >= 1 && forall lba :: |v.disk(lba)| == SECTOR }

  predicate Ended(c: nat) { c < 2 || c >= EOC }

  /** The FAT entry of cluster c: the next cluster of its chain, 28 bits. */
  function FatEntry(v: Volume, c: nat): nat
    requires |v.disk(v.fatLba + c * 4 / SECTOR)| == SECTOR
  {
    var at := c * 4 % SECTOR;
    if at + 4 <= SECTOR then LeValue(v.disk(v.fatLba + c * 4 / SECTOR)[at..at + 4]) % 0x1000_0000 else 0
  }

  function ClusToLba(v: Volume, c: nat): nat
    requires c >= 2
  {
    v.dataLba + (c - 2) * v.spc
  }

  /** The sectors of cluster c and of its FAT entry have 32-bit numbers below the empty cache tag. */
  ghost predicate InRange(v: Volume, c: nat)
    requires c >= 2
  {
    ClusToLba(v, c) + v.spc <= U32_MAX && v.fatLba + c * 4 / SECTOR < U32_MAX
  }

  /** `chain` is the beginning, or all, of what following the FAT from cluster c visits. */
  ghost predicate Walk(v: Volume, c: nat, chain: seq<nat>)
    requires Sized(v)
    decreases |chain|
  {
    chain != [] ==> !Ended(c) && InRange(v, c) && chain[0] == c && Walk(v, FatEntry(v, c), chain[1..])
  }

  /** Where the walk goes next. */
  ghost function After(v: Volume, c: nat, chain: seq<nat>): nat
    requires Sized(v)
  {
    if chain == [] then c else FatEntry(v, chain[|chain| - 1])
  }

  lemma {:induction false} WalkAt(v: Volume, c: nat, chain: seq<nat>, k: nat)
    requires Sized(v) && Walk(v, c, chain) && k < |chain|
    ensures chain[0] == c && !Ended(chain[k]) && InRange(v, chain[k])
    ensures k + 1 < |chain| ==> FatEntry(v, chain[k]) == chain[k + 1]
    decreases k
  {
    if k > 0 { WalkAt(v, FatEntry(v, c), chain[1..], k - 1); } else if |chain| > 1 { assert chain[1..][0] == chain[1]; }
  }

  lemma WalkClusters(v: Volume, c: nat, chain: seq<nat>)
    requires Sized(v) && Walk(v, c, chain)
    ensures forall k :: 0 <= k < |chain| ==> chain[k] >= 2 && !Ended(chain[k])
  {
    forall k | 0 <= k < |chain| ensures chain[k] >= 2 && !Ended(chain[k]) { WalkAt(v, c, chain, k); }
  }

  // ---------------------------------------------------------------- bytes

  /** The first m sectors of cluster c. */
  function ClusterLbas(v: Volume, c: nat, m: nat): (l: seq<nat>)
    requires c >= 2
    ensures |l| == m && forall i :: 0 <= i < m ==> l[i] == ClusToLba(v, c) + i
  {
    if m == 0 then [] else ClusterLbas(v, c, m - 1) + [ClusToLba(v, c) + m - 1]
  }

  /** The sectors of a chain, cluster after cluster. */
  ghost function ChainLbas(v: Volume, chain: seq<nat>): seq<nat>
    requires forall k :: 0 <= k < |chain| ==> chain[k] >= 2
  {
    if chain == [] then [] else ClusterLbas(v, chain[0], v.spc) + ChainLbas(v, chain[1..])
  }

  lemma {:induction false} ChainLbasAt(v: Volume, chain: seq<nat>, q: nat, s: nat)
    requires (forall k :: 0 <= k < |chain| ==> chain[k] >= 2) && s < v.spc
    ensures |ChainLbas(v, chain)| == |chain| * v.spc
    ensures q < |chain| ==>
      q * v.spc + s < |chain| * v.spc && ChainLbas(v, chain)[q * v.spc + s] == ClusToLba(v, chain[q]) + s
    decreases |chain|
  {
    if chain != [] {
      var rest := chain[1..];
      MulStep(|chain|, v.spc);
      if 0 < q < |chain| {
        ChainLbasAt(v, rest, q - 1, s);
        MulStep(q, v.spc);
        assert rest[q - 1] == chain[q];
      } else {
        ChainLbasAt(v, rest, |rest|, s);
      }
    }
  }

  lemma MulStep(q: nat, b: nat)
    requires q > 0
    ensures q * b == (q - 1) * b + b && (q - 1) * b >= 0
  {
  }

  /** The concatenated sectors. */
  ghost function SectorBytes(v: Volume, lbas: seq<nat>): seq<Byte> {
    if lbas == [] then [] else v.disk(lbas[0]) + SectorBytes(v, lbas[1..])
  }

  lemma {:induction false} SectorBytesAt(v: Volume, lbas: seq<nat>, j: nat, x: nat)
    requires Sized(v) && x < SECTOR
    ensures |SectorBytes(v, lbas)| == SECTOR * |lbas|
    ensures j < |lbas| ==> SectorBytes(v, lbas)[SECTOR * j + x] == v.disk(lbas[j])[x]
    decreases |lbas|
  {
    if lbas != [] {
      SectorBytesAt(v, lbas[1..], if j > 0 then j - 1 else 0, x);
      assert |v.disk(lbas[0])| == SECTOR;
      if 0 < j < |lbas| { assert lbas[1..][j - 1] == lbas[j]; }
    }
  }

  // ---------------------------------------------------------------- directories

  function SectorSlots(sec: seq<Byte>, n: nat): seq<Slot>
    requires |sec| == SECTOR && n <= 16
  {
    if n == 0 then [] else SectorSlots(sec, n - 1) + [sec[(n - 1) * SLOT..n * SLOT]]
  }

  function ClusterSlots(v: Volume, c: nat, m: nat): seq<Slot>
    requires c >= 2 && forall lba :: |v.disk(lba)| == SECTOR
  {
    if m == 0 then [] else ClusterSlots(v, c, m - 1) + SectorSlots(v.disk(ClusToLba(v, c) + m - 1), 16)
  }

  ghost function ChainSlots(v: Volume, chain: seq<nat>, k: nat): seq<Slot>
    requires Sized(v) && k <= |chain| && forall i :: 0 <= i < |chain| ==> chain[i] >= 2
  {
    if k == 0 then [] else ChainSlots(v, chain, k - 1) + ClusterSlots(v, chain[k - 1], v.spc)
  }

  /** The directory that starts at cluster c can be scanned over `chain`: the chain ends there, or an end
      marker stands in it (whatever the FAT says behind). */
  ghost predicate DirOk(v: Volume, c: nat, chain: seq<nat>) {
    && Sized(v) && Walk(v, c, chain)
    && (Ended(After(v, c, chain))
      || (WalkClusters(v, c, chain); ScanAll(Start(), ChainSlots(v, chain, |chain|)).stopped))
  }

  /** The entries of that directory, in order. */
  ghost function DirEntries(v: Volume, c: nat, chain: seq<nat>): seq<DirEnt>
    requires DirOk(v, c, chain)
  {
    WalkClusters(v, c, chain);
    ScanAll(Start(), ChainSlots(v, chain, |chain|)).out
  }

  // ---------------------------------------------------------------- paths

  datatype FileInfo = FileInfo(firstCluster: nat, size: nat, isDir: bool)

  predicate EqCi(a: seq<Byte>, b: seq<Byte>) {
    |a| == |b| && LowerAll(a) == LowerAll(b)
  }

  function FirstMatch(entries: seq<DirEnt>, comp: seq<Byte>): Option<FileInfo> {
    if entries == [] then None
    else if EqCi(entries[0].name, comp) then Some(FileInfo(entries[0].firstCluster, entries[0].size, entries[0].isDir))
    else FirstMatch(entries[1..], comp)
  }

  /** ASCII letters are the same in either case, every other byte only as itself. */
  predicate SameLetter(x: Byte, y: Byte) {
    x == y || (0x41 <= x <= 0x5A && y == x + 32) || (0x41 <= y <= 0x5A && x == y + 32)
  }

  lemma {:induction false} LowerAt(s: seq<Byte>, i: nat)
    requires i < |s|
    ensures LowerAll(s)[i] == Lower(s[i])
  {
    if i > 0 { LowerAt(s[1..], i - 1); }
  }

  lemma EqCiExactly(a: seq<Byte>, b: seq<Byte>)
    ensures EqCi(a, b) <==> |a| == |b| && forall i: nat :: i < |a| ==> SameLetter(a[i], b[i])
  {
    if |a| == |b| {
      forall i: nat | i < |a| ensures LowerAll(a)[i] == LowerAll(b)[i] <==> SameLetter(a[i], b[i]) {
        LowerAt(a, i);
        LowerAt(b, i);
      }
    }
  }

  /** The first entry of that name, if there is one. */
  lemma {:induction false} FirstMatchIs(entries: seq<DirEnt>, comp: seq<Byte>)
    ensures FirstMatch(entries, comp).None? ==> forall i :: 0 <= i < |entries| ==> !EqCi(entries[i].name, comp)
    ensures FirstMatch(entries, comp).Some? ==>
      exists i :: 0 <= i < |entries| && IsFirst(entries, comp, i)
        && FirstMatch(entries, comp) == Some(FileInfo(entries[i].firstCluster, entries[i].size, entries[i].isDir))
  {
    if entries != [] {
      var rest := entries[1..];
      if EqCi(entries[0].name, comp) {
        assert IsFirst(entries, comp, 0);
      } else {
        FirstMatchIs(rest, comp);
        assert forall i :: 0 < i < |entries| ==> entries[i] == rest[i - 1];
        if FirstMatch(rest, comp).Some? {
          var i :| 0 <= i < |rest| && IsFirst(rest, comp, i)
            && FirstMatch(rest, comp) == Some(FileInfo(rest[i].firstCluster, rest[i].size, rest[i].isDir));
          assert IsFirst(entries, comp, i + 1);
        }
      }
    }
  }

  ghost predicate IsFirst(entries: seq<DirEnt>, comp: seq<Byte>, i: int) {
    0 <= i < |entries| && EqCi(entries[i].name, comp) && forall j :: 0 <= j < i ==> !EqCi(entries[j].name, comp)
  }

  /** trim_path. */
  function TrimPath(p: seq<Byte>): seq<Byte> {
    UpToNul(if p != [] && p[0] == 0x2F then p[1..] else p)
  }

  /** Every directory on the way of a path can be scanned; `chains` gives their clusters. */
  ghost predicate WayOk(v: Volume, chains: nat -> seq<nat>, c: nat, path: seq<Byte>)
    decreases |path|
  {
    var comp, rest := path[..SlashAt(path)], AfterSlash(path);
    comp != [] ==>
      && DirOk(v, c, chains(c))
      && var found := FirstMatch(DirEntries(v, c, chains(c)), comp);
         found.Some? && rest != [] && found.value.isDir ==> WayOk(v, chains, found.value.firstCluster, rest)
  }

  ghost function LookupFrom(v: Volume, chains: nat -> seq<nat>, c: nat, path: seq<Byte>): Option<FileInfo>
    requires WayOk(v, chains, c, path)
    decreases |path|
  {
    var comp, rest := path[..SlashAt(path)], AfterSlash(path);
    if comp == [] then None
    else
      var found := FirstMatch(DirEntries(v, c, chains(c)), comp);
      if found.None? || rest == [] then found
      else if found.value.isDir then LookupFrom(v, chains, found.value.firstCluster, rest)
      else None
  }

  ghost predicate PathOk(v: Volume, chains: nat -> seq<nat>, path: seq<Byte>) {
    Sized(v) && (TrimPath(path) != [] ==> WayOk(v, chains, v.rootClus, TrimPath(path)))
  }

  /** lookup. */
  ghost function Lookup(v: Volume, chains: nat -> seq<nat>, path: seq<Byte>): Option<FileInfo>
    requires PathOk(v, chains, path)
  {
    if TrimPath(path) == [] then Some(FileInfo(v.rootClus, 0, true))
    else LookupFrom(v, chains, v.rootClus, TrimPath(path))
  }

  /** Going down by the components one after the other, through directories. */
  ghost function Descend(v: Volume, chains: nat -> seq<nat>, c: nat, comps: seq<seq<Byte>>): Option<FileInfo>
    requires comps != [] && WayOk(v, chains, c, JoinPath(comps)) && forall i :: 0 <= i < |comps| ==> Component(comps[i])
    decreases |comps|
  {
    JoinSplit(comps);
    var found := FirstMatch(DirEntries(v, c, chains(c)), comps[0]);
    if found.None? || |comps| == 1 then found
    else if found.value.isDir then (JoinSplit(comps[1..]); Descend(v, chains, found.value.firstCluster, comps[1..]))
    else None
  }

  lemma {:induction false} LookupDescends(v: Volume, chains: nat -> seq<nat>, c: nat, comps: seq<seq<Byte>>)
    requires comps != [] && WayOk(v, chains, c, JoinPath(comps)) && forall i :: 0 <= i < |comps| ==> Component(comps[i])
    ensures LookupFrom(v, chains, c, JoinPath(comps)) == Descend(v, chains, c, comps)
    decreases |comps|
  {
    JoinSplit(comps);
    var found := FirstMatch(DirEntries(v, c, chains(c)), comps[0]);
    if |comps| > 1 {
      JoinSplit(comps[1..]);
      if found.Some? && found.value.isDir { LookupDescends(v, chains, found.value.firstCluster, comps[1..]); }
    }
  }

  /** A path names what its components lead to from the root, with or without a slash in front. */
  lemma LookupIs(v: Volume, chains: nat -> seq<nat>, comps: seq<seq<Byte>>)
    requires Sized(v) && comps != [] && forall i :: 0 <= i < |comps| ==> Component(comps[i])
    requires WayOk(v, chains, v.rootClus, JoinPath(comps))
    ensures TrimPath(JoinPath(comps)) == JoinPath(comps) && TrimPath([0x2F] + JoinPath(comps)) == JoinPath(comps)
    ensures Lookup(v, chains, JoinPath(comps)) == Lookup(v, chains, [0x2F] + JoinPath(comps))
      == Descend(v, chains, v.rootClus, comps)
  {
    var p := JoinPath(comps);
    JoinHasNoNul(comps);
    NoNul(p);
    JoinSplit(comps);
    assert p[..SlashAt(p)][0] == comps[0][0];
    assert ([0x2F] + p)[1..] == p;
    LookupDescends(v, chains, v.rootClus, comps);
  }

  lemma {:induction false} MatchedSize(entries: seq<DirEnt>, comp: seq<Byte>)
    requires SizesFit(entries)
    ensures FirstMatch(entries, comp).Some? ==> FirstMatch(entries, comp).value.size < 0x1_0000_0000
  {
    if entries != [] { MatchedSize(entries[1..], comp); }
  }

  lemma {:induction false} FoundSize(v: Volume, chains: nat -> seq<nat>, c: nat, path: seq<Byte>)
    requires WayOk(v, chains, c, path)
    ensures var fi := LookupFrom(v, chains, c, path); fi.Some? ==> fi.value.size < 0x1_0000_0000
    decreases |path|
  {
    var comp, rest := path[..SlashAt(path)], AfterSlash(path);
    if comp != [] {
      var found := FirstMatch(DirEntries(v, c, chains(c)), comp);
      WalkClusters(v, c, chains(c));
      ScannedSizes(Start(), ChainSlots(v, chains(c), |chains(c)|));
      MatchedSize(DirEntries(v, c, chains(c)), comp);
      if found.Some? && rest != [] && found.value.isDir { FoundSize(v, chains, found.value.firstCluster, rest); }
    }
  }

  /** No file is larger than its 32-bit size field allows. */
  lemma LookupSize(v: Volume, chains: nat -> seq<nat>, path: seq<Byte>)
    requires PathOk(v, chains, path)
    ensures Lookup(v, chains, path).Some? ==> Lookup(v, chains, path).value.size < 0x1_0000_0000
  {
    if TrimPath(path) != [] { FoundSize(v, chains, v.rootClus, TrimPath(path)); }
  }

  /** The cluster chain of a file is long enough for its size. */
  ghost predicate FileOk(v: Volume, chains: nat -> seq<nat>, fi: FileInfo) {
    && Sized(v) && Walk(v, fi.firstCluster, chains(fi.firstCluster))
    && fi.size <= SECTOR * |FileLbas(v, chains, fi)|
  }

  ghost function FileLbas(v: Volume, chains: nat -> seq<nat>, fi: FileInfo): seq<nat>
    requires Sized(v) && Walk(v, fi.firstCluster, chains(fi.firstCluster))
  {
    WalkClusters(v, fi.firstCluster, chains(fi.firstCluster));
    ChainLbas(v, chains(fi.firstCluster))
  }

  /** The bytes of a file: its size cut from its concatenated cluster chain. */
  ghost function Contents(v: Volume, chains: nat -> seq<nat>, fi: FileInfo): (s: seq<Byte>)
    requires FileOk(v, chains, fi)
    ensures |s| == fi.size
  {
    SectorBytesAt(v, FileLbas(v, chains, fi), 0, 0);
    SectorBytes(v, FileLbas(v, chains, fi))[..fi.size]
  }

  /** How many bytes one read at `offset` returns: never past 40, the file, or the sector. */
  function ChunkAt(size: nat, offset: nat): (n: nat)
    ensures offset + n <= size || n == 0
    ensures n == 0 <==> offset >= size
    ensures offset % SECTOR + n <= SECTOR
  {
    if offset >= size then 0 else Min(Min(READ_MAX, size - offset), SECTOR - offset % SECTOR)
  }

  /** Where the code looks for byte `offset`: cluster q of the chain, byte r of that cluster. */
  lemma Locate(offset: nat, spc: nat, q: nat, r: nat)
    requires spc >= 1 && r < spc * SECTOR && offset == q * (spc * SECTOR) + r
    ensures offset % SECTOR == r % SECTOR && r / SECTOR < spc
    ensures offset / SECTOR == q * spc + r / SECTOR
  {
    var k := q * spc;
    assert q * (spc * SECTOR) == SECTOR * k;
    assert offset == SECTOR * k + r;
  }

  lemma QuotLess(q: nat, s: nat, n: nat, b: nat)
    requires q * b + s < n * b
    ensures q < n
  {
    if q >= n { MulMore(n, q, b); }
  }

  lemma MulMore(n: nat, q: nat, b: nat)
    requires n <= q
    ensures n * b <= q * b
  {
    assert q * b == n * b + (q - n) * b;
  }

  /** A read inside one sector is a slice of the file. */
  lemma SectorIsSlice(v: Volume, chains: nat -> seq<nat>, fi: FileInfo, offset: nat)
    requires FileOk(v, chains, fi) && offset < fi.size
    ensures offset / SECTOR < |FileLbas(v, chains, fi)|
    ensures var n, x := ChunkAt(fi.size, offset), offset % SECTOR;
      && |v.disk(FileLbas(v, chains, fi)[offset / SECTOR])| == SECTOR
      && v.disk(FileLbas(v, chains, fi)[offset / SECTOR])[x..x + n] == Contents(v, chains, fi)[offset..offset + n]
  {
    var lbas := FileLbas(v, chains, fi);
    var j, x, n := offset / SECTOR, offset % SECTOR, ChunkAt(fi.size, offset);
    var a, c := v.disk(lbas[j])[x..x + n], Contents(v, chains, fi)[offset..offset + n];
    forall i | 0 <= i < n ensures a[i] == c[i] {
      SectorBytesAt(v, lbas, j, x + i);
    }
    assert a == c;
  }

  /** The chosen sector belongs to the cluster the chain walk arrives at. */
  lemma SectorInCluster(v: Volume, chains: nat -> seq<nat>, fi: FileInfo, q: nat, s: nat)
    requires FileOk(v, chains, fi) && s < v.spc && q * v.spc + s < |FileLbas(v, chains, fi)|
    ensures var chain := chains(fi.firstCluster);
      && q < |chain| && chain[q] >= 2 && !Ended(chain[q])
      && FileLbas(v, chains, fi)[q * v.spc + s] == ClusToLba(v, chain[q]) + s
  {
    var chain := chains(fi.firstCluster);
    WalkClusters(v, fi.firstCluster, chain);
    ChainLbasAt(v, chain, q, s);
    QuotLess(q, s, |chain|, v.spc);
  }
}
