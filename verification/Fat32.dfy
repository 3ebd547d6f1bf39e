/** The FAT32 reader: two one-sector caches between the parser and the block client. */
module Fat32 {
  import opened Bytes
  import opened Fat32Names
  import opened Fat32Volume
  import BlockDriver

  /** A cache is empty (tag u32::MAX) or holds the sector its tag names. */
  ghost predicate CacheOk(v: Volume, tag: nat, cache: seq<Byte>) {
    |cache| == SECTOR && (tag == U32_MAX || cache == v.disk(tag))
  }

  /** What a read that fails midway would leave in a cache: the first n bytes of another sector under the old
      tag, which is then right only if the two sectors agree so far. */
  lemma HalfFilled(v: Volume, tag: nat, cache: seq<Byte>, lba: nat, n: nat)
    requires Sized(v) && CacheOk(v, tag, cache) && tag != U32_MAX && n <= SECTOR
    ensures CacheOk(v, tag, v.disk(lba)[..n] + cache[n..]) <==> v.disk(lba)[..n] == v.disk(tag)[..n]
  {
    var now := v.disk(lba)[..n] + cache[n..];
    assert now[..n] == v.disk(lba)[..n] && now[n..] == cache[n..];
    assert v.disk(tag) == v.disk(tag)[..n] + v.disk(tag)[n..];
  }

  /** What one read of a file at `offset` yields. */
  ghost function Piece(v: Volume, chains: nat -> seq<nat>, fi: FileInfo, offset: nat): seq<Byte>
    requires FileOk(v, chains, fi)
  {
    if offset >= fi.size then [] else Contents(v, chains, fi)[offset..offset + ChunkAt(fi.size, offset)]
  }

  /** A path can be read: its directories can be scanned, and if it names a file, the file's own chain is
      long enough for its size. */
  ghost predicate Reads(v: Volume, chains: nat -> seq<nat>, path: seq<Byte>) {
    PathOk(v, chains, path) && (IsFile(v, chains, path) ==> FileOk(v, chains, Lookup(v, chains, path).value))
  }

  ghost predicate IsFile(v: Volume, chains: nat -> seq<nat>, path: seq<Byte>)
    requires PathOk(v, chains, path)
  {
    Lookup(v, chains, path).Some? && !Lookup(v, chains, path).value.isDir
  }

  ghost function FileRead(v: Volume, chains: nat -> seq<nat>, path: seq<Byte>, offset: nat): Option<(nat, seq<Byte>)>
    requires Reads(v, chains, path)
  {
    var fi := Lookup(v, chains, path);
    if fi.None? || fi.value.isDir then None
    else Some((fi.value.size, Piece(v, chains, fi.value, offset)))
  }

  /** How a read went: rightly, or what was lost for want of a sector: the way to the file (its directories),
      its cluster chain in the FAT, or the sector of its data. */
  datatype Outcome = Right | LostWay | LostChain | LostSector

  /** What read_file makes of each: a lost chain looks like the end of the file, anything else lost like no
      file at all. */
  ghost function Yield(v: Volume, chains: nat -> seq<nat>, path: seq<Byte>, offset: nat, how: Outcome): Option<(nat,
    seq<Byte>)>
    requires Reads(v, chains, path)
  {
    var right := FileRead(v, chains, path, offset);
    if right.None? || how == Right then right else Lost(right.value.0, how)
  }

  function Lost(size: nat, how: Outcome): Option<(nat, seq<Byte>)> {
    if how == LostChain then Some((size, [])) else None
  }

  lemma YieldOfFile(v: Volume, chains: nat -> seq<nat>, path: seq<Byte>, fi: FileInfo, offset: nat, how: Outcome)
    requires Reads(v, chains, path) && Lookup(v, chains, path) == Some(fi) && !fi.isDir
    ensures Yield(v, chains, path, offset, how) ==
      if how == Right then Some((fi.size, Piece(v, chains, fi, offset))) else Lost(fi.size, how)
  {
  }

  /** A path can be listed: its directories, and itself if it is one, can be scanned. */
  ghost predicate Lists(v: Volume, chains: nat -> seq<nat>, path: seq<Byte>) {
    && PathOk(v, chains, path)
    && var fi := Lookup(v, chains, path);
       fi.Some? && fi.value.isDir ==> DirOk(v, fi.value.firstCluster, chains(fi.value.firstCluster))
  }

  /** The entries below a path; none unless it is a directory. */
  ghost function Listing(v: Volume, chains: nat -> seq<nat>, path: seq<Byte>): Option<seq<DirEnt>>
    requires Lists(v, chains, path)
  {
    var fi := Lookup(v, chains, path);
    if fi.None? || !fi.value.isDir then None
    else Some(DirEntries(v, fi.value.firstCluster, chains(fi.value.firstCluster)))
  }

  method DivMod(a: nat, b: nat) returns (q: nat, r: nat)
    requires b > 0
    ensures a == q * b + r && r < b
  {
    q, r := a / b, a % b;
  }

  /** The arithmetic of read_file: which cluster of the chain, which sector of it, which byte of that. */
  method Place(v: Volume, ghost chains: nat -> seq<nat>, fi: FileInfo, offset: nat)
    returns (clusIdx: nat, secInClus: nat, byteInSec: nat)
    requires FileOk(v, chains, fi) && offset < fi.size
    ensures !Ended(fi.firstCluster) && offset / SECTOR < |FileLbas(v, chains, fi)|
    ensures clusIdx < |chains(fi.firstCluster)| && !Ended(chains(fi.firstCluster)[clusIdx])
    ensures byteInSec == offset % SECTOR && secInClus < v.spc
    ensures FileLbas(v, chains, fi)[offset / SECTOR] == ClusToLba(v, chains(fi.firstCluster)[clusIdx]) + secInClus
  {
    var bytesPerClus := v.spc * SECTOR;
    var byteInClus;
    clusIdx, byteInClus := DivMod(offset, bytesPerClus);
    secInClus, byteInSec := byteInClus / SECTOR, byteInClus % SECTOR;
    Arrival(v, chains, fi, offset, clusIdx, byteInClus);
  }

  /** A FAT entry never straddles sectors. */
  lemma EntryFits(c: nat)
    ensures c * 4 % SECTOR + 4 <= SECTOR
  {
    assert c * 4 % SECTOR % 4 == 0;
  }

  /** The reader's statics.  `drv` is the block driver it asks, as process `pid`. */
  class Reader {
    const vol: Volume
    const drv: BlockDriver.Driver
    const pid: nat
    ghost const chains: nat -> seq<nat>
    var secClba: nat
    var secCache: seq<Byte>
    var fatClba: nat
    var fatCache: seq<Byte>
    /** Sector reads that failed so far, and those among them that were reads of the FAT. */
    ghost var failures: nat
    ghost var fatFailures: nat

    /** No sector read fails unless the device has failed a request. */
    ghost predicate Valid()
      reads this, drv
    {
      && Sized(vol) && pid != 0 && drv.Valid() && drv.disk == vol.disk
      && drv.Idle() && (failures > 0 ==> drv.Failed())
      && CacheOk(vol, secClba, secCache) && CacheOk(vol, fatClba, fatCache)
    }

    constructor (v: Volume, driver: BlockDriver.Driver, self: nat, ghost c: nat -> seq<nat>)
      requires Sized(v) && self != 0 && driver.Valid() && driver.disk == v.disk && driver.Idle()
      ensures Valid() && vol == v && drv == driver && chains == c && failures == 0
    {
      vol, drv, pid, chains := v, driver, self, c;
      secClba, secCache := U32_MAX, seq(SECTOR, _ => 0);
      fatClba, fatCache := U32_MAX, seq(SECTOR, _ => 0);
      failures, fatFailures := 0, 0;
    }

    /** As long as the device fails nothing, no read does. */
    lemma NothingFails()
      requires Valid() && forall n :: drv.device(n)
      ensures failures == 0
    {
    }

    /** blk::read_sector into a cache buffer holding `was`. */
    method BlkRead(lba: nat, was: seq<Byte>) returns (ok: bool, now: seq<Byte>)
      requires Valid() && |was| == SECTOR
      modifies `failures, drv
      ensures Valid() && now == (if ok then vol.disk(lba) else was) && (ok <==> old(drv.Serves(lba)))
      ensures failures == if ok then old(failures) else old(failures) + 1
    {
      var buf := new Byte[SECTOR](i requires 0 <= i < |was| => was[i]);
      assert buf[..] == was;
      ok := BlockDriver.ReadSector(drv, pid, lba, buf);
      now := buf[..];
      if !ok { failures := failures + 1; }
    }

    /** read_sec. */
    method ReadSec(lba: nat) returns (ok: bool)
      requires Valid() && lba < U32_MAX
      modifies `secClba, `secCache, `failures, drv
      ensures Valid() && failures >= old(failures) && (ok <==> failures == old(failures))
      ensures ok ==> secCache == vol.disk(lba)
      ensures ok <==> old(secClba) == lba || old(drv.Serves(lba))
    {
      if secClba == lba { return true; }
      var now;
      ok, now := BlkRead(lba, secCache);
      secCache := now;
      if ok { secClba := lba; }
    }

    /** fat_next: the FAT entry, or u32::MAX when the FAT cannot be read. */
    method FatNext(c: nat) returns (next: nat)
      requires Valid() && !Ended(c) && InRange(vol, c)
      modifies `fatClba, `fatCache, `failures, `fatFailures, drv
      ensures Valid() && failures >= old(failures) && failures - old(failures) == fatFailures - old(fatFailures)
      ensures failures == old(failures) ==> next == FatEntry(vol, c)
      ensures failures > old(failures) ==> next == U32_MAX
    {
      var byteOff := c * 4;
      var at := byteOff % SECTOR;
      var lba := vol.fatLba + byteOff / SECTOR;
      if fatClba != lba {
        var ok, now := BlkRead(lba, fatCache);
        fatCache := now;
        if !ok {
          fatFailures := fatFailures + 1;
          return U32_MAX;
        }
        fatClba := lba;
      }
      assert at + 4 <= SECTOR by { EntryFits(c); }
      next := LeValue(fatCache[at..at + 4]) % 0x1000_0000;
    }

    // -------------------------------------------------------------- directories

    /** The sixteen slots of one sector. */
    method ScanSector(s: Scan, sec: seq<Byte>) returns (r: Scan)
      requires ScanOk(s) && |sec| == SECTOR
      ensures ScanOk(r) && r == ScanAll(s, SectorSlots(sec, 16))
    {
      r := s;
      for ent := 0 to 16
        invariant ScanOk(r) && r == ScanAll(s, SectorSlots(sec, ent))
      {
        var e: Slot := sec[ent * SLOT..(ent + 1) * SLOT];
        ScanAppend(s, SectorSlots(sec, ent), [e]);
        assert ScanAll(r, [e]) == ScanSlot(r, e) by { assert [e][1..] == []; }
        r := ScanSlot(r, e);
      }
    }

    /** One cluster; gives up at the end marker or at a sector that cannot be read. */
    method ScanCluster(s: Scan, c: nat) returns (r: Scan, ok: bool)
      requires Valid() && ScanOk(s) && !Ended(c) && InRange(vol, c)
      modifies `secClba, `secCache, `failures, drv
      ensures Valid() && ScanOk(r) && failures >= old(failures) && (ok <==> failures == old(failures))
      ensures ok ==> r == ScanAll(s, ClusterSlots(vol, c, vol.spc))
      ensures r.out <= ScanAll(s, ClusterSlots(vol, c, vol.spc)).out
    {
      r := s;
      var base := ClusToLba(vol, c);
      var i := 0;
      while i < vol.spc && !r.stopped
        invariant 0 <= i <= vol.spc && Valid() && ScanOk(r) && failures == old(failures)
        invariant r == ScanAll(s, ClusterSlots(vol, c, i))
      {
        var got := ReadSec(base + i);
        if !got {
          ClusterGrows(vol, s, c, i, vol.spc);
          return r, false;
        }
        ScanAppend(s, ClusterSlots(vol, c, i), SectorSlots(vol.disk(base + i), 16));
        r := ScanSector(r, secCache);
        i := i + 1;
      }
      ok := true;
      ClusterStopped(vol, s, c, i, vol.spc);
    }

    /** scan_dir: terminates on every chain that ends or holds an end marker, and without read failures
        reports exactly the entries of the directory, wherever its slots fall in sectors and clusters. */
    method ScanDir(start: nat) returns (entries: seq<DirEnt>)
      requires Valid() && DirOk(vol, start, chains(start))
      modifies this, drv
      ensures Valid() && failures >= old(failures)
      ensures failures == old(failures) ==> entries == DirEntries(vol, start, chains(start))
      ensures entries <= DirEntries(vol, start, chains(start))
    {
      ghost var chain, fails := chains(start), failures;
      WalkClusters(vol, start, chain);
      var s := Start();
      var clus := start;
      ghost var k := 0;
      while !Ended(clus)
        invariant Valid() && failures >= fails && (failures > fails ==> Ended(clus))
        invariant ScannedTo(vol, start, chain, k, s, clus, failures == fails) == true
        decreases |chain| - k
      {
        ScanGoesOn(vol, start, chain, k, s, clus);
        var r, ok := ScanCluster(s, clus);
        if !ok { return r.out; }
        k := k + 1;
        s := r;
        if s.stopped { return s.out; }
        clus := FatNext(clus);
        ScanWentOn(vol, start, chain, k, s, clus, failures == fails);
      }
      ScanEnds(vol, start, chain, k, s, clus, failures == fails);
      entries := s.out;
    }

    // -------------------------------------------------------------- paths and files

    /** lookup. */
    method LookupPath(path: seq<Byte>) returns (found: Option<FileInfo>)
      requires Valid() && PathOk(vol, chains, path)
      modifies this, drv
      ensures Valid() && failures >= old(failures)
      ensures failures == old(failures) || found.Some? ==> found == Lookup(vol, chains, path)
    {
      var remaining := TrimPath(path);
      if remaining == [] { return Some(FileInfo(vol.rootClus, 0, true)); }
      var cur := vol.rootClus;
      while true
        invariant Valid() && failures >= old(failures) && WayOk(vol, chains, cur, remaining)
        invariant LookupFrom(vol, chains, cur, remaining) == Lookup(vol, chains, path)
        decreases |remaining|
      {
        var comp, rest := remaining[..SlashAt(remaining)], AfterSlash(remaining);
        if comp == [] { return None; }
        var entries := ScanDir(cur);
        found := FirstMatch(entries, comp);
        MatchInPrefix(entries, DirEntries(vol, cur, chains(cur)), comp);
        if found.None? || rest == [] { return; }
        if !found.value.isDir { return None; }
        cur, remaining := found.value.firstCluster, rest;
      }
    }

    /** readdir. */
    method ReadDir(path: seq<Byte>) returns (entries: Option<seq<DirEnt>>)
      requires Valid() && Lists(vol, chains, path)
      modifies this, drv
      ensures Valid() && failures >= old(failures)
      ensures failures == old(failures) ==> entries == Listing(vol, chains, path)
      ensures entries.Some? ==> Listing(vol, chains, path).Some? && entries.value <= Listing(vol, chains, path).value
    {
      var start := vol.rootClus;
      if TrimPath(path) != [] {
        var fi := LookupPath(path);
        if fi.None? || !fi.value.isDir { return None; }
        start := fi.value.firstCluster;
      }
      var all := ScanDir(start);
      entries := Some(all);
    }

    /** Follows `steps` links of a chain; None when the FAT cannot be read. */
    method WalkChain(first: nat, steps: nat) returns (clus: Option<nat>)
      requires Valid() && Walk(vol, first, chains(first)) && steps < |chains(first)|
      modifies `fatClba, `fatCache, `failures, `fatFailures, drv
      ensures Valid() && failures >= old(failures) && failures - old(failures) == fatFailures - old(fatFailures)
      ensures clus.Some? ==> clus.value == chains(first)[steps]
      ensures clus.Some? <==> failures == old(failures)
    {
      ghost var chain := chains(first);
      var c := first;
      WalkAt(vol, first, chain, 0);
      for i := 0 to steps
        invariant Valid() && failures == old(failures) && fatFailures == old(fatFailures) && c == chain[i]
      {
        WalkAt(vol, first, chain, i);
        WalkAt(vol, first, chain, i + 1);
        var next := FatNext(c);
        if Ended(next) { return None; }
        c := next;
      }
      clus := Some(c);
    }

    /** What the counters say of a read of one file: FAT reads failed, other reads failed, or none did. */
    ghost function HowSince(fails: nat, fatFails: nat): Outcome
      reads this
    {
      if fatFailures > fatFails then LostChain else if failures > fails then LostSector else Right
    }

    /** read_file once the file is found: the size and up to 40 bytes from `offset`.  It claims the end of the
        file too early exactly when the FAT could not be read, and no file exactly when the data could not. */
    method ReadAt(fi: FileInfo, offset: nat) returns (r: Option<(nat, seq<Byte>)>)
      requires Valid() && FileOk(vol, chains, fi)
      modifies this, drv
      ensures Valid() && failures >= old(failures) && fatFailures >= old(fatFailures)
      ensures offset >= fi.size ==> failures == old(failures) && fatFailures == old(fatFailures)
      ensures failures == old(failures) ==>
        r == Some((fi.size, Piece(vol, chains, fi, offset))) && fatFailures == old(fatFailures)
      ensures offset < fi.size ==> (r == Some((fi.size, [])) <==> fatFailures > old(fatFailures))
      ensures r == None <==> failures > old(failures) && fatFailures == old(fatFailures)
    {
      if offset >= fi.size { return Some((fi.size, [])); }
      var clusIdx, secInClus, byteInSec := Place(vol, chains, fi, offset);
      r := ReadCluster(fi, offset, clusIdx, secInClus, byteInSec);
    }

    /** Its second half: walk to the cluster, read the sector, copy. */
    method ReadCluster(fi: FileInfo, offset: nat, clusIdx: nat, secInClus: nat, byteInSec: nat)
      returns (r: Option<(nat, seq<Byte>)>)
      requires Valid() && FileOk(vol, chains, fi) && offset < fi.size
      requires clusIdx < |chains(fi.firstCluster)| && !Ended(chains(fi.firstCluster)[clusIdx])
      requires secInClus < vol.spc && byteInSec == offset % SECTOR && offset / SECTOR < |FileLbas(vol, chains, fi)|
      requires FileLbas(vol, chains, fi)[offset / SECTOR] == ClusToLba(vol, chains(fi.firstCluster)[clusIdx])
        + secInClus
      modifies this, drv
      ensures Valid() && failures >= old(failures) && fatFailures >= old(fatFailures)
      ensures failures == old(failures) ==>
        r == Some((fi.size, Piece(vol, chains, fi, offset))) && fatFailures == old(fatFailures)
      ensures r == Some((fi.size, [])) <==> fatFailures > old(fatFailures)
      ensures r == None <==> failures > old(failures) && fatFailures == old(fatFailures)
    {
      var clus := WalkChain(fi.firstCluster, clusIdx);
      if clus.None? { return Some((fi.size, [])); }
      WalkAt(vol, fi.firstCluster, chains(fi.firstCluster), clusIdx);
      var ok := ReadSec(ClusToLba(vol, clus.value) + secInClus);
      if !ok { return None; }
      var n := Min(Min(READ_MAX, fi.size - offset), SECTOR - byteInSec);
      SectorIsSlice(vol, chains, fi, offset);
      r := Some((fi.size, secCache[byteInSec..byteInSec + n]));
    }

    /** read_file; `how` is how it went. */
    method ReadFile(path: seq<Byte>, offset: nat) returns (r: Option<(nat, seq<Byte>)>, ghost how: Outcome)
      requires Valid() && Reads(vol, chains, path)
      modifies this, drv
      ensures Valid() && failures >= old(failures) && (failures == old(failures) ==> how == Right)
      ensures r == Yield(vol, chains, path, offset, how)
      ensures how != Right ==> IsFile(vol, chains, path)
    {
      var fi := LookupPath(path);
      if fi.None? || fi.value.isDir { return None, if IsFile(vol, chains, path) then LostWay else Right; }
      ghost var fails, fatFails := failures, fatFailures;
      r := ReadAt(fi.value, offset);
      how := HowSince(fails, fatFails);
      YieldOfFile(vol, chains, path, fi.value, offset, how);
    }

    /** Reading chunk after chunk until an empty one: without failures, the whole file. */
    method ReadWhole(path: seq<Byte>) returns (data: seq<Byte>)
      requires Valid() && Reads(vol, chains, path)
      modifies this, drv
      ensures Valid() && failures >= old(failures)
      ensures failures == old(failures) && IsFile(vol, chains, path) ==>
        data == Contents(vol, chains, Lookup(vol, chains, path).value)
    {
      data := [];
      ghost var fi := Lookup(vol, chains, path);
      ghost var isFile := fi.Some? && !fi.value.isDir;
      while true
        invariant Valid() && failures >= old(failures)
        invariant failures == old(failures) && isFile ==> data <= Contents(vol, chains, fi.value)
        invariant data == [] || (fi.Some? && |data| <= fi.value.size)
        decreases if fi.Some? then fi.value.size - |data| else 0
      {
        var r, how := ReadFile(path, |data|);
        if failures == old(failures) && isFile { NextPiece(vol, chains, fi.value, data); }
        if r.None? || r.value.1 == [] { return; }
        data := data + r.value.1;
      }
    }
  }

  /** The scan of a directory has done the first k clusters of its chain and stands at `clus`. */
  ghost predicate ScannedTo(v: Volume, start: nat, chain: seq<nat>, k: nat, s: Scan, clus: nat, sound: bool)
    requires DirOk(v, start, chain)
  {
    WalkClusters(v, start, chain);
    && k <= |chain| && s == ScanAll(Start(), ChainSlots(v, chain, k)) && !s.stopped
    && (sound ==> clus == if k < |chain| then chain[k] else After(v, start, chain))
  }

  lemma ScanGoesOn(v: Volume, start: nat, chain: seq<nat>, k: nat, s: Scan, clus: nat)
    requires DirOk(v, start, chain) && ScannedTo(v, start, chain, k, s, clus, true) && !Ended(clus)
    ensures k < |chain| && clus == chain[k] && InRange(v, clus) && ScanOk(s)
    ensures var r := ScanAll(s, ClusterSlots(v, clus, v.spc));
      && r.out <= DirEntries(v, start, chain) && (r.stopped ==> r.out == DirEntries(v, start, chain))
      && (WalkClusters(v, start, chain); r == ScanAll(Start(), ChainSlots(v, chain, k + 1)))
  {
    StillInChain(v, start, chain, k, s, clus);
    WalkClusters(v, start, chain);
    ChainNext(v, chain, k, s);
    if ScanAll(s, ClusterSlots(v, clus, v.spc)).stopped { StoppedIsAll(v, start, chain, k + 1); }
  }

  lemma StillInChain(v: Volume, start: nat, chain: seq<nat>, k: nat, s: Scan, clus: nat)
    requires DirOk(v, start, chain) && ScannedTo(v, start, chain, k, s, clus, true) && !Ended(clus)
    ensures k < |chain| && clus == chain[k] && InRange(v, clus)
  {
    WalkClusters(v, start, chain);
    if k < |chain| { WalkAt(v, start, chain, k); }
  }

  lemma StoppedIsAll(v: Volume, start: nat, chain: seq<nat>, k: nat)
    requires DirOk(v, start, chain) && k <= |chain|
    requires (WalkClusters(v, start, chain); ScanAll(Start(), ChainSlots(v, chain, k)).stopped)
    ensures (WalkClusters(v, start, chain);
      ScanAll(Start(), ChainSlots(v, chain, k)).out == DirEntries(v, start, chain))
  {
    WalkClusters(v, start, chain);
    ChainStopped(v, chain, k, |chain|);
  }

  lemma ScanWentOn(v: Volume, start: nat, chain: seq<nat>, k: nat, s: Scan, clus: nat, sound: bool)
    requires DirOk(v, start, chain) && 0 < k <= |chain| && !s.stopped
    requires (WalkClusters(v, start, chain); s == ScanAll(Start(), ChainSlots(v, chain, k)))
    requires sound ==> clus == FatEntry(v, chain[k - 1])
    ensures ScannedTo(v, start, chain, k, s, clus, sound)
  {
    WalkAt(v, start, chain, k - 1);
  }

  lemma ScanEnds(v: Volume, start: nat, chain: seq<nat>, k: nat, s: Scan, clus: nat, sound: bool)
    requires DirOk(v, start, chain) && ScannedTo(v, start, chain, k, s, clus, sound) && Ended(clus)
    ensures s.out <= DirEntries(v, start, chain) && (sound ==> s.out == DirEntries(v, start, chain))
  {
    WalkClusters(v, start, chain);
    ChainGrows(v, chain, k, |chain|);
    if k < |chain| { WalkAt(v, start, chain, k); }
  }

  /** Each piece continues the file, and only its end yields nothing. */
  lemma NextPiece(v: Volume, chains: nat -> seq<nat>, fi: FileInfo, data: seq<Byte>)
    requires FileOk(v, chains, fi) && data <= Contents(v, chains, fi)
    ensures var p := Piece(v, chains, fi, |data|);
      data + p <= Contents(v, chains, fi) && (p == [] ==> data == Contents(v, chains, fi))
  {
    var all, n := Contents(v, chains, fi), |data|;
    if n < fi.size {
      var m := ChunkAt(fi.size, n);
      assert data + all[n..n + m] == all[..n + m];
    }
  }

  /** Slots after the end marker change nothing. */
  lemma {:induction false} ClusterStopped(v: Volume, s: Scan, c: nat, i: nat, n: nat)
    requires Sized(v) && ScanOk(s) && c >= 2 && i <= n
    requires i == n || ScanAll(s, ClusterSlots(v, c, i)).stopped
    ensures ScanAll(s, ClusterSlots(v, c, n)) == ScanAll(s, ClusterSlots(v, c, i))
    decreases n
  {
    if i < n {
      ClusterStopped(v, s, c, i, n - 1);
      var more := SectorSlots(v.disk(ClusToLba(v, c) + n - 1), 16);
      ScanAppend(s, ClusterSlots(v, c, n - 1), more);
      ScanStopped(ScanAll(s, ClusterSlots(v, c, n - 1)), more);
    }
  }

  lemma {:induction false} ChainStopped(v: Volume, chain: seq<nat>, k: nat, n: nat)
    requires Sized(v) && k <= n <= |chain| && forall i :: 0 <= i < |chain| ==> chain[i] >= 2
    requires ScanAll(Start(), ChainSlots(v, chain, k)).stopped
    ensures ScanAll(Start(), ChainSlots(v, chain, n)) == ScanAll(Start(), ChainSlots(v, chain, k))
    decreases n
  {
    if k < n {
      ChainStopped(v, chain, k, n - 1);
      var before, more := ChainSlots(v, chain, n - 1), ClusterSlots(v, chain[n - 1], v.spc);
      assert ChainSlots(v, chain, n) == before + more;
      StoppedStays(before, more);
    }
  }

  lemma StoppedStays(slots: seq<Slot>, more: seq<Slot>)
    requires ScanAll(Start(), slots).stopped
    ensures ScanAll(Start(), slots + more) == ScanAll(Start(), slots)
  {
    ScanAppend(Start(), slots, more);
    ScanStopped(ScanAll(Start(), slots), more);
  }

  /** Scanning the next cluster of a chain goes on from the clusters before it. */
  lemma ChainNext(v: Volume, chain: seq<nat>, k: nat, s: Scan)
    requires Sized(v) && k < |chain| && (forall i :: 0 <= i < |chain| ==> chain[i] >= 2)
      && s == ScanAll(Start(), ChainSlots(v, chain, k))
    ensures ScanAll(s, ClusterSlots(v, chain[k], v.spc)) == ScanAll(Start(), ChainSlots(v, chain, k + 1))
    ensures ScanAll(s, ClusterSlots(v, chain[k], v.spc)).out <= ScanAll(Start(), ChainSlots(v, chain, |chain|)).out
  {
    ScanAppend(Start(), ChainSlots(v, chain, k), ClusterSlots(v, chain[k], v.spc));
    ChainGrows(v, chain, k + 1, |chain|);
  }

  lemma {:induction false} OutGrows(s: Scan, slots: seq<Slot>)
    requires ScanOk(s)
    ensures s.out <= ScanAll(s, slots).out
    decreases |slots|
  {
    if slots != [] { OutGrows(ScanSlot(s, slots[0]), slots[1..]); }
  }

  lemma {:induction false} ClusterGrows(v: Volume, s: Scan, c: nat, i: nat, n: nat)
    requires Sized(v) && ScanOk(s) && c >= 2 && i <= n
    ensures ScanAll(s, ClusterSlots(v, c, i)).out <= ScanAll(s, ClusterSlots(v, c, n)).out
    decreases n
  {
    if i < n {
      ClusterGrows(v, s, c, i, n - 1);
      var more := SectorSlots(v.disk(ClusToLba(v, c) + n - 1), 16);
      ScanAppend(s, ClusterSlots(v, c, n - 1), more);
      OutGrows(ScanAll(s, ClusterSlots(v, c, n - 1)), more);
    }
  }

  lemma {:induction false} ChainGrows(v: Volume, chain: seq<nat>, k: nat, n: nat)
    requires Sized(v) && k <= n <= |chain| && forall i :: 0 <= i < |chain| ==> chain[i] >= 2
    ensures ScanAll(Start(), ChainSlots(v, chain, k)).out <= ScanAll(Start(), ChainSlots(v, chain, n)).out
    decreases n
  {
    if k < n {
      ChainGrows(v, chain, k, n - 1);
      var more := ClusterSlots(v, chain[n - 1], v.spc);
      ScanAppend(Start(), ChainSlots(v, chain, n - 1), more);
      OutGrows(ScanAll(Start(), ChainSlots(v, chain, n - 1)), more);
    }
  }

  /** A file written into a directory with its long name, wherever in its slots, is among the entries
      scan_dir reports. */
  lemma LongNameListed(v: Volume, c: nat, chain: seq<nat>, a: seq<Slot>, name: seq<Byte>, short: Slot, b: seq<Slot>)
    requires DirOk(v, c, chain) && Printable(name) && Regular(short) && SlotsNeeded(name) <= 20
    requires !ScanAll(Start(), a).stopped
    requires (WalkClusters(v, c, chain);
      ChainSlots(v, chain, |chain|) == a + (NameSlots(name, SlotsNeeded(name), true) + [short]) + b)
    ensures EntryOf(name, short) in DirEntries(v, c, chain)
  {
    WalkClusters(v, c, chain);
    var s, slots := ScanAll(Start(), a), NameSlots(name, SlotsNeeded(name), true) + [short];
    ScanAppend(Start(), a + slots, b);
    ScanAppend(Start(), a, slots);
    LongNameReported(s, name, short);
    var s' := ScanAll(s, slots);
    OutGrows(s', b);
    assert s'.out[|s.out|] == EntryOf(name, short) && s'.out <= DirEntries(v, c, chain);
  }

  /** A match found in part of a directory is the match in all of it. */
  lemma {:induction false} MatchInPrefix(some: seq<DirEnt>, all: seq<DirEnt>, comp: seq<Byte>)
    requires some <= all
    ensures FirstMatch(some, comp).Some? ==> FirstMatch(some, comp) == FirstMatch(all, comp)
    decreases |some|
  {
    if some != [] { MatchInPrefix(some[1..], all[1..], comp); }
  }

  /** The cluster and sector the code computes for `offset` hold it. */
  lemma Arrival(v: Volume, chains: nat -> seq<nat>, fi: FileInfo, offset: nat, q: nat, r: nat)
    requires FileOk(v, chains, fi) && offset < fi.size
    requires r < v.spc * SECTOR && offset == q * (v.spc * SECTOR) + r
    ensures !Ended(fi.firstCluster) && offset / SECTOR < |FileLbas(v, chains, fi)|
    ensures q < |chains(fi.firstCluster)| && !Ended(chains(fi.firstCluster)[q])
    ensures r % SECTOR == offset % SECTOR && r / SECTOR < v.spc
    ensures FileLbas(v, chains, fi)[offset / SECTOR] == ClusToLba(v, chains(fi.firstCluster)[q]) + r / SECTOR
  {
    Locate(offset, v.spc, q, r);
    SectorInCluster(v, chains, fi, q, r / SECTOR);
  }
}
