/** The asynchronous virtio-blk driver, its device, and the sector client in the file server.
    A request that misses the one-sector cache is submitted and answered later, from the interrupt. */
module BlockDriver {
  import opened Bytes
  import opened Packing

  const SECTOR: nat := 512
  const U16: nat := 0x1_0000
  const RESP_BLK_DATA: nat := 0x90
  const RESP_ERROR: nat := 0x8F
  const EBUSY: nat := 16
  const EIO: nat := 5
  const STATUS_PENDING: Byte := 0xFF

  /** What the device stores: 512 bytes per sector. */
  type Disk = nat -> seq<Byte>

  ghost predicate DiskOk(disk: Disk) { forall lba :: |disk(lba)| == SECTOR }

  datatype Reply = Reply(to: nat, data: seq<nat>)

  /** The driver's statics and the memory it shares with the device; `submitted` and `completed`
      count the requests handed to the device and those it has finished. */
  datatype State = State(
    availIdx: nat, usedLast: nat, usedMem: nat, reqSector: nat, status: Byte, sectorBuf: seq<Byte>,
    pendingSender: nat, pendingLba: nat, pendingOffset: nat,
    cacheLba: nat, cacheBuf: seq<Byte>, cacheValid: bool,
    submitted: nat, completed: nat)

  /** A client's request, the completion interrupt, and the device finishing with success or failure. */
  datatype Event =
    | Request(sender: nat, lba: nat, offset: nat)
    | Irq
    | DeviceOk
    | DeviceFails(code: Byte, junk: seq<Byte>)

  function ErrorReply(to: nat, code: nat): Reply { Reply(to, [RESP_ERROR, code, 0, 0, 0, 0, 0, 0]) }

  function ChunkLen(offset: nat): nat
    requires offset < SECTOR
  {
    Min(SECTOR - offset, CHUNK_SIZE)
  }

  /** serve_from_cache. */
  function DataReply(to: nat, buf: seq<Byte>, offset: nat): Reply
    requires offset < SECTOR == |buf|
  {
    var n := ChunkLen(offset);
    Reply(to, [RESP_BLK_DATA, SECTOR, n] + PackData(buf[offset..offset + n]))
  }

  /** handle_read. */
  function HandleRead(s: State, sender: nat, lba: nat, offset: nat): (State, Option<Reply>)
    requires |s.cacheBuf| == SECTOR
  {
    if offset >= SECTOR then (s, Some(ErrorReply(sender, 1)))
    else if s.cacheValid && s.cacheLba == lba then (s, Some(DataReply(sender, s.cacheBuf, offset)))
    else if s.pendingSender != 0 then (s, Some(ErrorReply(sender, EBUSY)))
    else
      (s.(reqSector := lba, status := STATUS_PENDING, availIdx := (s.availIdx + 1) % U16, submitted := s.submitted + 1,
          pendingSender := sender, pendingLba := lba, pendingOffset := offset), None)
  }

  /** check_complete. */
  function Checked(s: State): (State, bool) {
    if s.usedMem == s.usedLast then (s, false) else (s.(usedLast := s.usedMem), s.status == 0)
  }

  /** handle_irq_completion. */
  function HandleIrq(s: State): (State, Option<Reply>)
    requires |s.sectorBuf| == SECTOR && s.pendingOffset < SECTOR
  {
    if s.pendingSender == 0 then (s, None)
    else
      var (s1, done) := Checked(s);
      if !done then (s1, None)
      else if s1.status == 0 then
        (s1.(pendingSender := 0, cacheBuf := s.sectorBuf, cacheLba := s.pendingLba, cacheValid := true),
         Some(DataReply(s.pendingSender, s.sectorBuf, s.pendingOffset)))
      else (s1.(pendingSender := 0), Some(ErrorReply(s.pendingSender, EIO)))
  }

  /** Its last branch, which would report EIO, is dead: an error status has already been taken for an interrupt
      that came too early, and leaves the request pending and unanswered. */
  lemma EioNeverSent(s: State)
    requires |s.sectorBuf| == SECTOR && s.pendingOffset < SECTOR
    ensures HandleIrq(s).1.Some? ==> HandleIrq(s).1.value.data[0] == RESP_BLK_DATA
    ensures s.pendingSender != 0 && s.status != 0 ==> HandleIrq(s) == (s.(usedLast := s.usedMem), None)
  {
  }

  /** The device finishes the request it was given: the data first, then the status. */
  function DeviceDone(s: State, code: Byte, data: seq<Byte>): State {
    if s.completed < s.submitted
    then s.(sectorBuf := data, status := code, usedMem := (s.usedMem + 1) % U16, completed := s.completed + 1)
    else s
  }

  /** Every sender has a pid, and pids start at 1; an error status is not 0. */
  ghost predicate EventOk(e: Event) {
    match e
    case Request(sender, lba, offset) => sender != 0
    case DeviceFails(code, junk) => code != 0 && |junk| == SECTOR
    case _ => true
  }

  ghost predicate Sized(s: State) { |s.cacheBuf| == SECTOR && |s.sectorBuf| == SECTOR && s.pendingOffset < SECTOR }

  function Step(disk: Disk, s: State, e: Event): (State, Option<Reply>)
    requires |s.cacheBuf| == SECTOR && |s.sectorBuf| == SECTOR && s.pendingOffset < SECTOR
  {
    match e
    case Request(sender, lba, offset) => HandleRead(s, sender, lba, offset)
    case Irq => HandleIrq(s)
    case DeviceOk => (DeviceDone(s, 0, disk(s.reqSector)), None)
    case DeviceFails(code, junk) => (DeviceDone(s, code, junk), None)
  }

  function Initial(): State {
    State(0, 0, 0, 0, STATUS_PENDING, seq(SECTOR, _ => 0), 0, 0, 0, 0xFFFF_FFFF, seq(SECTOR, _ => 0), false, 0, 0)
  }

  /** At most one request is with the device; the cache, when valid, is the sector it claims to be;
      a finished read has left the requested sector in the buffer. */
  ghost predicate Inv(disk: Disk, s: State) {
    && Sized(s)
    && s.completed <= s.submitted <= s.completed + 1
    && s.availIdx == s.submitted % U16 && s.usedMem == s.completed % U16
    && (s.cacheValid ==> s.cacheBuf == disk(s.cacheLba))
    && (s.pendingSender == 0 ==> s.submitted == s.completed && s.usedLast == s.usedMem)
    && (s.pendingSender != 0 ==>
          && s.reqSector == s.pendingLba
          && (s.completed < s.submitted ==> s.usedLast == s.usedMem)
          && (s.completed == s.submitted && s.status == 0 ==>
            s.sectorBuf == disk(s.pendingLba) && s.usedLast != s.usedMem))
  }

  lemma WrapNext(n: nat)
    ensures (n % U16 + 1) % U16 == (n + 1) % U16 && (n + 1) % U16 != n % U16
  {
    var q := n / U16;
    assert n == U16 * q + n % U16;
    if n % U16 == U16 - 1 { assert n + 1 == U16 * (q + 1); } else { assert n + 1 == U16 * q + (n % U16 + 1); }
  }

  lemma StepKeepsInv(disk: Disk, s: State, e: Event)
    requires DiskOk(disk) && Inv(disk, s) && EventOk(e)
    ensures Inv(disk, Step(disk, s, e).0)
  {
    WrapNext(s.submitted);
    WrapNext(s.completed);
  }

  /** r answers (sender, lba, offset) with exactly the bytes of that sector from that offset on. */
  ghost predicate Answers(disk: Disk, r: Reply, sender: nat, lba: nat, offset: nat)
    requires DiskOk(disk)
  {
    && offset < SECTOR && r.to == sender && |r.data| == 8
    && r.data[0] == RESP_BLK_DATA && r.data[1] == SECTOR && r.data[2] == ChunkLen(offset)
    && Carries(r.data[3..], disk(lba)[offset..offset + ChunkLen(offset)])
  }

  lemma DataReplyAnswers(disk: Disk, sender: nat, lba: nat, offset: nat)
    requires DiskOk(disk) && offset < SECTOR
    ensures Answers(disk, DataReply(sender, disk(lba), offset), sender, lba, offset)
  {
    var chunk := disk(lba)[offset..offset + ChunkLen(offset)];
    PackDataCarries(chunk);
    assert DataReply(sender, disk(lba), offset).data[3..] == PackData(chunk);
  }

  // ---------------------------------------------------------------- runs

  function Run(disk: Disk, events: seq<Event>): (r: (State, seq<Option<Reply>>))
    requires forall lba :: |disk(lba)| == SECTOR
    requires forall i :: 0 <= i < |events| ==> (events[i].DeviceFails? ==> |events[i].junk| == SECTOR)
    ensures Sized(r.0) && |r.1| == |events|
  {
    if events == [] then (Initial(), [])
    else
      var (s, rs) := Run(disk, events[..|events| - 1]);
      var (s', r) := Step(disk, s, events[|events| - 1]);
      (s', rs + [r])
  }

  ghost predicate EventsOk(events: seq<Event>) {
    forall i {:trigger events[i]} :: 0 <= i < |events| ==> EventOk(events[i])
  }

  ghost predicate Asked(events: seq<Event>, sender: nat, lba: nat, offset: nat) {
    Request(sender, lba, offset) in events
  }

  /** In every run: one request at most at the device, a truthful cache, and whatever is pending was asked for. */
  lemma {:induction false} RunKeepsInv(disk: Disk, events: seq<Event>)
    requires DiskOk(disk) && EventsOk(events)
    ensures Inv(disk, Run(disk, events).0)
    ensures var s := Run(disk, events).0; s.pendingSender != 0 ==>
      Asked(events, s.pendingSender, s.pendingLba, s.pendingOffset)
    decreases |events|
  {
    if events != [] {
      var before, e := events[..|events| - 1], events[|events| - 1];
      assert forall x :: x in before ==> x in events;
      RunKeepsInv(disk, before);
      StepKeepsInv(disk, Run(disk, before).0, e);
      assert e in events;
    }
  }

  /** Every data reply of every run answers a request that was made, with the bytes asked for. */
  lemma RepliesAnswer(disk: Disk, events: seq<Event>, k: nat)
    requires DiskOk(disk) && EventsOk(events) && k < |events|
    ensures var r := Run(disk, events).1[k];
      r.Some? && |r.value.data| > 0 && r.value.data[0] == RESP_BLK_DATA ==>
        exists lba, offset :: Asked(events, r.value.to, lba, offset) && Answers(disk, r.value, r.value.to, lba, offset)
    decreases |events|
  {
    var n := |events| - 1;
    var before, e := events[..n], events[n];
    assert forall x :: x in before ==> x in events;
    if k < n {
      RepliesAnswer(disk, before, k);
    } else {
      RunKeepsInv(disk, before);
      var s := Run(disk, before).0;
      match e
      case Request(sender, lba, offset) =>
        if offset < SECTOR && s.cacheValid && s.cacheLba == lba {
          DataReplyAnswers(disk, sender, lba, offset);
          assert Asked(events, sender, lba, offset);
        }
      case Irq =>
        if s.pendingSender != 0 && s.usedMem != s.usedLast && s.status == 0 {
          DataReplyAnswers(disk, s.pendingSender, s.pendingLba, s.pendingOffset);
          assert Asked(events, s.pendingSender, s.pendingLba, s.pendingOffset);
        }
      case DeviceOk =>
      case DeviceFails(_, _) =>
    }
  }

  function CountRequests(events: seq<Event>): nat {
    if events == [] then 0 else CountRequests(events[..|events| - 1]) + (if events[|events| - 1].Request? then 1 else 0)
  }

  function CountReplies(rs: seq<Option<Reply>>): nat {
    if rs == [] then 0 else CountReplies(rs[..|rs| - 1]) + (if rs[|rs| - 1].Some? then 1 else 0)
  }

  /** No request is answered twice and none but the pending one is left unanswered. */
  lemma {:induction false} RepliesConserved(disk: Disk, events: seq<Event>)
    requires DiskOk(disk) && EventsOk(events)
    ensures var (s, rs) := Run(disk, events);
      CountReplies(rs) + (if s.pendingSender != 0 then 1 else 0) == CountRequests(events)
    decreases |events|
  {
    if events != [] {
      var before, e := events[..|events| - 1], events[|events| - 1];
      RepliesConserved(disk, before);
      var (s, rs) := Run(disk, before);
      var (s', r) := Step(disk, s, e);
      assert (rs + [r])[..|rs|] == rs;
      StepConserves(disk, s, e);
    }
  }

  lemma StepConserves(disk: Disk, s: State, e: Event)
    requires Sized(s) && EventOk(e)
    ensures var (s', r) := Step(disk, s, e);
      (if r.Some? then 1 else 0) + (if s'.pendingSender != 0 then 1 else 0) ==
      (if e.Request? then 1 else 0) + (if s.pendingSender != 0 then 1 else 0)
  {
  }

  /** After the device reported an error the request stays pending with nobody to finish it. */
  ghost predicate Stuck(s: State) {
    Sized(s) && s.pendingSender != 0 && s.submitted == s.completed && s.usedLast == s.usedMem
  }

  /** The interrupt answers the pending request exactly when the device reported status 0; otherwise
      the request is left pending for ever. */
  lemma IrqRepliesExactly(disk: Disk, s: State, code: Byte, data: seq<Byte>)
    requires DiskOk(disk) && Inv(disk, s) && s.pendingSender != 0 && s.completed < s.submitted
    requires |data| == SECTOR && (code == 0 ==> data == disk(s.reqSector))
    ensures var s1 := DeviceDone(s, code, data);
      var (s2, r) := HandleIrq(s1);
      && (r.Some? <==> code == 0)
      && (code == 0 ==> s2.pendingSender == 0 && Answers(disk, r.value, s.pendingSender, s.pendingLba, s.pendingOffset))
      && (code != 0 ==> Stuck(s2))
  {
    WrapNext(s.completed);
    DataReplyAnswers(disk, s.pendingSender, s.pendingLba, s.pendingOffset);
  }

  /** From then on, whatever happens, the driver submits nothing: every request either hits the cache
      or is refused. */
  lemma {:induction false} StuckForever(disk: Disk, s: State, events: seq<Event>)
    requires DiskOk(disk) && Stuck(s) && EventsOk(events)
    ensures Stuck(RunFrom(disk, s, events)) && RunFrom(disk, s, events).submitted == s.submitted
    decreases |events|
  {
    if events != [] {
      assert EventOk(events[0]);
      var s1 := Step(disk, s, events[0]).0;
      assert Stuck(s1) && s1.submitted == s.submitted;
      forall i | 0 <= i < |events| - 1 ensures EventOk(events[1..][i]) { assert EventOk(events[i + 1]); }
      StuckForever(disk, s1, events[1..]);
    }
  }

  function RunFrom(disk: Disk, s: State, events: seq<Event>): (r: State)
    requires (forall lba :: |disk(lba)| == SECTOR) && Sized(s)
    requires forall i :: 0 <= i < |events| ==> (events[i].DeviceFails? ==> |events[i].junk| == SECTOR)
    decreases |events|
  {
    if events == [] then s else RunFrom(disk, Step(disk, s, events[0]).0, events[1..])
  }

  /** A request is answered at once exactly when it asks beyond the sector, hits the cache, or finds another
      pending, with error 1, the bytes, or EBUSY; otherwise it is handed to the device and becomes the pending one. */
  lemma AnsweredAtOnce(disk: Disk, s: State, sender: nat, lba: nat, offset: nat)
    requires DiskOk(disk) && Inv(disk, s) && sender != 0
    ensures var (s', r) := HandleRead(s, sender, lba, offset);
      var hit := s.cacheValid && s.cacheLba == lba;
      && (r.Some? <==> offset >= 512 || hit || s.pendingSender != 0)
      && (offset >= 512 ==> r.value.to == sender && r.value.data[..2] == [0x8F, 1])
      && (offset < 512 && hit ==> Answers(disk, r.value, sender, lba, offset))
      && (offset < 512 && !hit && s.pendingSender != 0 ==> r.value.to == sender && r.value.data[..2] == [0x8F, 16])
      && (r.Some? ==> s' == s)
      && (r.None? ==>
            && s'.submitted == s.submitted + 1 && s'.reqSector == lba
            && s'.pendingSender == sender && s'.pendingLba == lba && s'.pendingOffset == offset)
  {
    if offset < 512 && s.cacheValid && s.cacheLba == lba { DataReplyAnswers(disk, sender, lba, offset); }
  }

  /** How a sector read can fail midway: between two chunks of client a, served from the cache, another
      client's miss replaces the cached sector; then a device error leaves a's next chunk unanswered. */
  lemma SecondClientSplits(disk: Disk, s: State, a: nat, b: nat, lba: nat, other: nat, offset: nat, code: Byte,
    junk: seq<Byte>)
    requires DiskOk(disk) && Inv(disk, s) && s.pendingSender == 0 && s.cacheValid && s.cacheLba == lba != other
    requires a != 0 && b != 0 && 0 < offset < SECTOR && code != 0 && |junk| == SECTOR
    ensures Answers(disk, HandleRead(s, a, lba, offset).1.value, a, lba, offset)
    ensures var s1 := ServedMiss(disk, s, b, other);
      && Inv(disk, s1) && s1.pendingSender == 0 && s1.cacheLba == other
      && var (s2, r) := HandleRead(s1, a, lba, offset);
         r == None && Stuck(HandleIrq(DeviceDone(s2, code, junk)).0) && HandleIrq(DeviceDone(s2, code, junk)).1 == None
  {
    DataReplyAnswers(disk, a, lba, offset);
    var q := HandleRead(s, b, other, 0).0;
    StepKeepsInv(disk, s, Request(b, other, 0));
    StepKeepsInv(disk, q, DeviceOk);
    StepKeepsInv(disk, DeviceDone(q, 0, disk(other)), Irq);
    WrapNext(q.completed);
    var s1 := ServedMiss(disk, s, b, other);
    var s2 := HandleRead(s1, a, lba, offset).0;
    StepKeepsInv(disk, s1, Request(a, lba, offset));
    IrqRepliesExactly(disk, s2, code, junk);
  }

  /** A miss of `sender`, submitted, finished by the device and answered. */
  function ServedMiss(disk: Disk, s: State, sender: nat, lba: nat): State
    requires Sized(s) && |disk(lba)| == SECTOR
  {
    var q := HandleRead(s, sender, lba, 0).0;
    HandleIrq(DeviceDone(q, 0, disk(lba))).0
  }

  // ---------------------------------------------------------------- the driver and its client

  class Driver {
    const disk: Disk
    /** Which requests the device, counting them from 0, finishes with success. */
    const device: nat -> bool
    var availIdx: nat
    var usedLast: nat
    var usedMem: nat
    var reqSector: nat
    var status: Byte
    var sectorBuf: seq<Byte>
    var pendingSender: nat
    var pendingLba: nat
    var pendingOffset: nat
    var cacheLba: nat
    var cacheBuf: seq<Byte>
    var cacheValid: bool
    var submitted: nat
    var completed: nat

    ghost function Now(): State
      reads this
    {
      State(availIdx, usedLast, usedMem, reqSector, status, sectorBuf, pendingSender, pendingLba, pendingOffset,
            cacheLba, cacheBuf, cacheValid, submitted, completed)
    }

    ghost predicate Valid()
      reads this
    {
      DiskOk(disk) && Inv(disk, Now())
    }

    /** The device has failed a request. */
    ghost predicate Failed()
      reads this
    {
      exists n :: 0 <= n < completed && !device(n)
    }

    /** No request is left over, unless the device failed one. */
    ghost predicate Idle()
      reads this
    {
      pendingSender == 0 || Failed()
    }

    predicate Cached(lba: nat)
      reads this
    {
      cacheValid && cacheLba == lba
    }

    /** A sector can be had: from the cache, or else from the device if nothing is pending and it succeeds. */
    predicate Serves(lba: nat)
      reads this
    {
      Cached(lba) || (pendingSender == 0 && device(submitted))
    }

    constructor (contents: Disk, answers: nat -> bool)
      requires DiskOk(contents)
      ensures Valid() && disk == contents && device == answers && Now() == Initial() && Idle()
    {
      disk, device := contents, answers;
      availIdx, usedLast, usedMem, reqSector, status := 0, 0, 0, 0, STATUS_PENDING;
      sectorBuf := seq(SECTOR, _ => 0);
      pendingSender, pendingLba, pendingOffset := 0, 0, 0;
      cacheLba, cacheBuf, cacheValid := 0xFFFF_FFFF, seq(SECTOR, _ => 0), false;
      submitted, completed := 0, 0;
    }

    /** submit_read. */
    method SubmitRead(sector: nat)
      modifies `reqSector, `status, `availIdx, `submitted
      ensures reqSector == sector && status == STATUS_PENDING && availIdx == (old(availIdx) + 1) % U16
      ensures submitted == old(submitted) + 1
    {
      reqSector := sector;
      status := STATUS_PENDING;
      availIdx := (availIdx + 1) % U16;
      submitted := submitted + 1;
    }

    method OnRequest(sender: nat, lba: nat, offset: nat) returns (reply: Option<Reply>)
      requires Valid() && sender != 0
      modifies this
      ensures Valid() && (Now(), reply) == HandleRead(old(Now()), sender, lba, offset)
    {
      StepKeepsInv(disk, Now(), Request(sender, lba, offset));
      if offset >= SECTOR { return Some(ErrorReply(sender, 1)); }
      if cacheValid && cacheLba == lba { return Some(DataReply(sender, cacheBuf, offset)); }
      if pendingSender != 0 { return Some(ErrorReply(sender, EBUSY)); }
      SubmitRead(lba);
      pendingSender, pendingLba, pendingOffset := sender, lba, offset;
      reply := None;
    }

    /** check_complete. */
    method CheckComplete() returns (ok: bool)
      modifies `usedLast
      ensures usedLast == usedMem && (ok <==> old(usedLast) != usedMem && status == 0)
    {
      if usedMem == usedLast { return false; }
      usedLast := usedMem;
      ok := status == 0;
    }

    method OnIrq() returns (reply: Option<Reply>)
      requires Valid()
      modifies this
      ensures Valid() && (Now(), reply) == HandleIrq(old(Now()))
    {
      StepKeepsInv(disk, Now(), Irq);
      if pendingSender == 0 { return None; }
      var done := CheckComplete();
      if !done { return None; }
      var sender, lba, offset := pendingSender, pendingLba, pendingOffset;
      pendingSender := 0;
      if status == 0 {
        cacheBuf, cacheLba, cacheValid := sectorBuf, lba, true;
        reply := Some(DataReply(sender, cacheBuf, offset));
      } else {
        reply := Some(ErrorReply(sender, EIO));
      }
    }

    /** The device finishes, with success or with an error. */
    method Device() returns (ok: bool)
      requires Valid() && completed < submitted
      modifies this
      ensures Valid() && completed == submitted == old(submitted) && ok == device(old(completed))
      ensures ok ==> Now() == DeviceDone(old(Now()), 0, disk(old(reqSector)))
      ensures !ok ==> Now().pendingSender == old(pendingSender) && status != 0
    {
      ghost var e: Event := DeviceOk;
      ok := device(completed);
      if !ok { e := DeviceFails(1, sectorBuf); }
      StepKeepsInv(disk, Now(), e);
      if ok { sectorBuf := disk(reqSector); }
      status := if ok then 0 else 1;
      usedMem := (usedMem + 1) % U16;
      completed := completed + 1;
    }
  }

  /** A synchronous call of the client: the request, and unless it is answered at once, whatever the
      device does and the interrupt it raises.  None means that no reply comes.  Data comes exactly when
      the sector can be had, and then it is in the cache. */
  method Call(drv: Driver, pid: nat, lba: nat, offset: nat) returns (reply: Option<seq<nat>>)
    requires drv.Valid() && pid != 0
    modifies drv
    ensures drv.Valid()
    ensures reply.Some? ==> |reply.value| == 8
    ensures reply.Some? && reply.value[0] == RESP_BLK_DATA <==> offset < SECTOR && old(drv.Serves(lba))
    ensures reply.Some? && reply.value[0] == RESP_BLK_DATA ==>
      && Answers(drv.disk, Reply(pid, reply.value), pid, lba, offset)
      && drv.Cached(lba) && drv.pendingSender == old(drv.pendingSender)
    ensures offset < SECTOR ==> drv.submitted == old(Submitting(drv, lba))
    ensures offset < SECTOR && old(drv.Idle()) && !old(drv.Serves(lba)) ==> drv.Failed()
    ensures old(drv.Failed()) ==> drv.Failed()
  {
    var r := drv.OnRequest(pid, lba, offset);
    if r.Some? && offset < SECTOR { DataReplyAnswers(drv.disk, pid, lba, offset); }
    if r.None? {
      var ok := drv.Device();
      r := drv.OnIrq();
      DataReplyAnswers(drv.disk, pid, lba, offset);
    }
    reply := if r.Some? then Some(r.value.data) else None;
  }

  /** The device's request count once `lba` has been asked for: one more on a miss, unless one is pending. */
  function Submitting(drv: Driver, lba: nat): nat
    reads drv
  {
    if drv.Cached(lba) || drv.pendingSender != 0 then drv.submitted else drv.submitted + 1
  }

  /** read_sector, with nobody else asking in between: all or nothing, since after the first chunk the
      sector is in the driver's cache.  It succeeds exactly when the sector can be had, for at most one
      request to the device, and fails only once the device has failed. */
  method ReadSector(drv: Driver, pid: nat, lba: nat, buf: array<Byte>) returns (ok: bool)
    requires drv.Valid() && pid != 0 && buf.Length == SECTOR
    modifies drv, buf
    ensures drv.Valid() && buf[..] == if ok then drv.disk(lba) else old(buf[..])
    ensures (ok <==> old(drv.Serves(lba))) && drv.submitted == old(Submitting(drv, lba))
    ensures ok ==> drv.Cached(lba) && drv.pendingSender == old(drv.pendingSender)
    ensures old(drv.Idle()) ==> drv.Idle() && (!ok ==> drv.Failed())
  {
    var total := 0;
    ghost var sector, was := drv.disk(lba), buf[..];
    while total < SECTOR
      invariant 0 <= total <= SECTOR && drv.Valid() == true
      invariant total == 0 ==> unchanged(drv)
      invariant total > 0 ==> drv.Cached(lba) && old(drv.Serves(lba)) && drv.submitted == old(Submitting(drv, lba))
      invariant drv.pendingSender == old(drv.pendingSender) && (old(drv.Failed()) ==> drv.Failed())
      invariant buf[..] == sector[..total] + was[total..]
    {
      var reply := Call(drv, pid, lba, total);
      if reply.None? { return false; }
      var data := reply.value;
      if data[0] != RESP_BLK_DATA { return false; }
      var chunkLen := Min(Min(data[2], CHUNK_SIZE), SECTOR - total);
      if chunkLen == 0 { return false; }
      assert chunkLen == ChunkLen(total) && data[3..8] == data[3..];
      UnpackInto(data[3..8], buf, total, chunkLen, sector[total..total + chunkLen]);
      ChunkAppended(sector, was, total, chunkLen);
      total := total + chunkLen;
    }
    assert sector[..SECTOR] == sector;
    ok := true;
  }

  lemma ChunkAppended(sector: seq<Byte>, was: seq<Byte>, at: nat, n: nat)
    requires |sector| == |was| == SECTOR && at + n <= SECTOR
    ensures var before := sector[..at] + was[at..];
      before[..at] + sector[at..at + n] + before[at + n..] == sector[..at + n] + was[at + n..]
  {
  }

  /** unpack_into at an offset of the sector buffer. */
  method UnpackInto(words: seq<nat>, buf: array<Byte>, at: nat, n: nat, ghost chunk: seq<Byte>)
    requires |words| == DATA_WORDS && n <= CHUNK_SIZE && at + n <= buf.Length
    requires Carries(words, chunk) && n == |chunk|
    modifies buf
    ensures buf[..] == old(buf[..at]) + chunk + old(buf[at + n..])
  {
    for i := 0 to n
      invariant forall k :: 0 <= k < buf.Length ==> buf[k] == if at <= k < at + i then chunk[k - at] else old(buf[k])
    {
      buf[at + i] := ByteOf(words, i);
    }
    assert buf[..] == old(buf[..at]) + chunk + old(buf[at + n..]);
  }
}
