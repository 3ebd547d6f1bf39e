/** The virtio-net driver's two queues (section 2.6 of VIRTIO 1.1) against the device that shares
    their memory.  The 16-bit ring indices wrap; unbounded counters tell what they stand for. */
module Virtqueue {
  import opened Bytes

  const QUEUE_SIZE: nat := 256
  const U16: nat := 0x1_0000
  const RX_BUF_COUNT: nat := 8
  const PKT_BUF_SIZE: nat := 1526
  const NET_HDR_SIZE: nat := 10
  const TX_LIMIT: nat := 128

  const DESC_F_NEXT: nat := 1

  datatype Desc = Desc(len: nat, flags: nat, next: nat)
  datatype UsedElem = UsedElem(id: nat, len: nat)

  /** a - b in 16 bits. */
  function WrapSub(a: nat, b: nat): nat
    requires a < U16 && b < U16
  {
    (a + U16 - b) % U16
  }

  /** The wrapped difference of two wrapped counters is their true distance while it fits 16 bits. */
  lemma WrapDistance(late: nat, early: nat)
    requires early <= late < early + U16
    ensures WrapSub(late % U16, early % U16) == late - early
  {
    var q, r := late / U16, early / U16;
    assert late == U16 * q + late % U16 && early == U16 * r + early % U16;
  }

  /** The head descriptor of the k-th send ever. */
  function HeadOf(k: nat): (h: nat)
    ensures h < QUEUE_SIZE - 1 && h % 2 == 0
  {
    2 * (k % TX_LIMIT)
  }

  /** Sends less than 128 apart use different descriptor pairs. */
  lemma ChainsDisjoint(j: nat, k: nat)
    requires j < k < j + TX_LIMIT
    ensures HeadOf(j) != HeadOf(k) && HeadOf(j) + 1 != HeadOf(k) && HeadOf(j) != HeadOf(k) + 1
  {
    var a, b := j / TX_LIMIT, k / TX_LIMIT;
    assert j == TX_LIMIT * a + j % TX_LIMIT && k == TX_LIMIT * b + k % TX_LIMIT;
    assert k - j == TX_LIMIT * (b - a) + (k % TX_LIMIT - j % TX_LIMIT);
  }

  lemma SlotsApart(j: nat, k: nat)
    requires j < k < j + QUEUE_SIZE
    ensures j % QUEUE_SIZE != k % QUEUE_SIZE
  {
    var a, b := j / QUEUE_SIZE, k / QUEUE_SIZE;
    assert k - j == QUEUE_SIZE * (b - a) + (k % QUEUE_SIZE - j % QUEUE_SIZE);
  }

  lemma Mod256(n: nat, q: nat, r: nat)
    requires n == 256 * q + r && r < 256
    ensures n % 256 == r
  {
  }

  lemma Mod128(n: nat, q: nat, r: nat)
    requires n == 128 * q + r && r < 128
    ensures n % 128 == r
  {
  }

  /** The descriptor cursor advances by two modulo 256 with every send. */
  lemma CursorStep(k: nat)
    ensures HeadOf(k) == 2 * k % QUEUE_SIZE
    ensures (HeadOf(k) + 2) % QUEUE_SIZE == HeadOf(k + 1)
    ensures (k % U16 + 1) % U16 == (k + 1) % U16
  {
    var q, r := k / TX_LIMIT, k % TX_LIMIT;
    Mod256(2 * k, q, 2 * r);
    if r == TX_LIMIT - 1 {
      Mod128(k + 1, q + 1, 0);
    } else {
      Mod128(k + 1, q, r + 1);
    }
    WrapAdd(k, 1);
  }

  // ---------------------------------------------------------------- transmit

  /** The chain of send k is intact in the tables: announced, header then payload of its own length. */
  ghost predicate ChainFits(desc: seq<Desc>, ring: seq<nat>, sent: seq<seq<Byte>>, k: nat) {
    && |desc| == |ring| == QUEUE_SIZE && k < |sent|
    && ring[k % QUEUE_SIZE] == HeadOf(k)
    && desc[HeadOf(k)] == Desc(NET_HDR_SIZE, DESC_F_NEXT, HeadOf(k) + 1)
    && desc[HeadOf(k) + 1] == Desc(|sent[k]|, 0, 0)
  }

  /** So are those of all sends from `completed` on. */
  ghost predicate AllChained(desc: seq<Desc>, ring: seq<nat>, sent: seq<seq<Byte>>, completed: nat) {
    && |desc| == |ring| == QUEUE_SIZE
    && forall k: nat {:trigger ChainFits(desc, ring, sent, k)} ::
      completed <= k < |sent| ==> ChainFits(desc, ring, sent, k)
  }

  /** The buffer begins with the newest frame. */
  ghost predicate BufferHolds(buf: seq<Byte>, sent: seq<seq<Byte>>) {
    && |buf| == PKT_BUF_SIZE && (forall k :: 0 <= k < |sent| ==> |sent[k]| <= PKT_BUF_SIZE - NET_HDR_SIZE)
    && (sent != [] ==> sent[|sent| - 1] <= buf)
  }

  /** A further send takes descriptors and a slot that no send in flight has. */
  lemma ChainAdded(desc: seq<Desc>, ring: seq<nat>, sent: seq<seq<Byte>>, completed: nat, data: seq<Byte>)
    requires AllChained(desc, ring, sent, completed) && completed <= |sent| < completed + TX_LIMIT
    ensures var d0, slot := HeadOf(|sent|), |sent| % QUEUE_SIZE;
      AllChained(desc[d0 := Desc(NET_HDR_SIZE, DESC_F_NEXT, d0 + 1)][d0 + 1 := Desc(|data|, 0, 0)], ring[slot := d0],
        sent + [data], completed)
  {
    var s, d0, slot := |sent|, HeadOf(|sent|), |sent| % QUEUE_SIZE;
    var desc', ring' := desc[d0 := Desc(NET_HDR_SIZE, DESC_F_NEXT, d0 + 1)][d0 + 1 := Desc(|data|, 0, 0)],
      ring[slot := d0];
    forall k: nat | completed <= k < |sent + [data]| ensures ChainFits(desc', ring', sent + [data], k) {
      if k < s {
        assert ChainFits(desc, ring, sent, k);
        ChainsDisjoint(k, s);
        SlotsApart(k, s);
      }
    }
  }

  lemma FewerChained(desc: seq<Desc>, ring: seq<nat>, sent: seq<seq<Byte>>, completed: nat)
    requires AllChained(desc, ring, sent, completed)
    ensures AllChained(desc, ring, sent, completed + 1)
  {
  }

  /** The tables say the same of a send in flight before and after. */
  lemma SameChain(desc: seq<Desc>, ring: seq<nat>, sent: seq<seq<Byte>>, desc': seq<Desc>, ring': seq<nat>,
    sent': seq<seq<Byte>>, completed: nat)
    requires AllChained(desc, ring, sent, completed) && AllChained(desc', ring', sent', completed) && sent <= sent'
    ensures forall k: nat {:trigger HeadOf(k)} :: completed <= k < |sent| ==>
      desc'[HeadOf(k)] == desc[HeadOf(k)] && desc'[HeadOf(k) + 1] == desc[HeadOf(k) + 1]
  {
    forall k: nat | completed <= k < |sent|
      ensures desc'[HeadOf(k)] == desc[HeadOf(k)] && desc'[HeadOf(k) + 1] == desc[HeadOf(k) + 1]
    {
      assert ChainFits(desc, ring, sent, k) && ChainFits(desc', ring', sent', k) && sent'[k] == sent[k];
    }
  }

  class TxQueue {
    const desc: array<Desc>
    const ring: array<nat>
    /** The one buffer every payload descriptor points to. */
    var txBuf: seq<Byte>
    /** avail.idx and used.idx as they stand in shared memory. */
    var availMem: nat
    var usedMem: nat
    var descIdx: nat
    var availIdx: nat
    var usedLast: nat
    /** The frames ever accepted, and how many the device has finished. */
    ghost var sent: seq<seq<Byte>>
    ghost var completed: nat

    ghost predicate Valid()
      reads this, desc, ring
    {
      && desc.Length == QUEUE_SIZE && ring.Length == QUEUE_SIZE
      && completed <= |sent| <= completed + TX_LIMIT
      && availIdx == availMem == |sent| % U16 && usedMem == completed % U16 && usedLast < U16
      && descIdx == HeadOf(|sent|)
      && BufferHolds(txBuf, sent) == true && AllChained(desc[..], ring[..], sent, completed) == true // taken over whole
    }

    constructor ()
      ensures Valid() && sent == [] && completed == 0 && fresh(desc) && fresh(ring)
    {
      desc := new Desc[QUEUE_SIZE](_ => Desc(0, 0, 0));
      ring := new nat[QUEUE_SIZE](_ => 0);
      txBuf := seq(PKT_BUF_SIZE, _ => 0);
      availMem, usedMem, descIdx, availIdx, usedLast := 0, 0, 0, 0, 0;
      sent, completed := [], 0;
    }

    /** The device puts its oldest send on the wire and finishes it: it follows the chain from the ring and takes as
        much of the buffer as the payload descriptor says.  With no other send behind it that is the frame;
        otherwise exactly if the buffer still begins with it. */
    method DeviceSends() returns (frame: seq<Byte>)
      requires Valid() && completed < |sent|
      modifies `usedMem, `completed
      ensures Valid() && completed == old(completed) + 1
      ensures frame == sent[old(completed)] <==> sent[old(completed)] <= txBuf
      ensures |sent| == old(completed) + 1 ==> frame == sent[old(completed)]
    {
      ghost var k := completed;
      assert ChainFits(desc[..], ring[..], sent, k);
      assert usedMem % QUEUE_SIZE == k % QUEUE_SIZE by { SlotOf(k); }
      var head := ring[usedMem % QUEUE_SIZE];
      assert head == HeadOf(k) && desc[head].next == head + 1 && desc[head + 1].len == |sent[k]| <= |txBuf|;
      frame := txBuf[..desc[desc[head].next].len];
      usedMem := (usedMem + 1) % U16;
      assert usedMem == (k + 1) % U16 by { WrapAdd(k, 1); }
      FewerChained(desc[..], ring[..], sent, k);
      completed := completed + 1;
    }

    /** reclaim_tx. */
    method ReclaimTx()
      requires Valid()
      modifies `usedLast
      ensures Valid() && usedLast == usedMem
    {
      usedLast := usedMem;
    }

    /** send_packet: refused exactly when the frame is too long or 128 sends are in flight. */
    method SendPacket(data: seq<Byte>) returns (ok: bool)
      requires Valid()
      modifies this, desc, ring
      ensures Valid() && completed == old(completed)
      ensures ok <==> |data| <= PKT_BUF_SIZE - NET_HDR_SIZE && |old(sent)| - old(completed) < TX_LIMIT
      ensures !ok ==> sent == old(sent) && txBuf == old(txBuf) && desc[..] == old(desc[..]) && ring[..] == old(ring[..])
      ensures ok ==> sent == old(sent) + [data] && txBuf == data + old(txBuf)[|data|..]
      // the descriptors of every send still in flight are untouched
      ensures forall k: nat {:trigger HeadOf(k)} :: old(completed) <= k < |old(sent)| ==>
        desc[..][HeadOf(k)] == old(desc[..])[HeadOf(k)] && desc[..][HeadOf(k) + 1] == old(desc[..])[HeadOf(k) + 1]
    {
      if |data| > PKT_BUF_SIZE - NET_HDR_SIZE { return false; }
      ReclaimTx();
      WrapDistance(|sent|, completed);
      var inFlight := WrapSub(availIdx, usedLast);
      if inFlight >= QUEUE_SIZE / 2 { return false; }
      Submit(data);
      SameChain(old(desc[..]), old(ring[..]), old(sent), desc[..], ring[..], sent, completed);
      ok := true;
    }

    /** The accepted send: fills the buffer, takes the next descriptor pair and ring slot. */
    method Submit(data: seq<Byte>)
      requires Valid() && |sent| - completed < TX_LIMIT && |data| <= PKT_BUF_SIZE - NET_HDR_SIZE
      modifies this, desc, ring
      ensures Valid() && completed == old(completed) && sent == old(sent) + [data]
      ensures txBuf == data + old(txBuf)[|data|..]
    {
      ghost var s := |sent|;
      var d0 := descIdx % QUEUE_SIZE;
      var d1 := (descIdx + 1) % QUEUE_SIZE;
      var slot := availIdx % QUEUE_SIZE;
      assert d0 == HeadOf(s) && d1 == HeadOf(s) + 1;
      assert slot == s % QUEUE_SIZE by { SlotOf(s); }
      ChainAdded(desc[..], ring[..], sent, completed, data);
      txBuf := data + txBuf[|data|..];
      WriteChain(d0, d1, slot, |data|);
      availIdx := (availIdx + 1) % U16;
      availMem := availIdx;
      descIdx := (descIdx + 2) % QUEUE_SIZE;
      assert availIdx == (s + 1) % U16 && descIdx == HeadOf(s + 1) by { CursorStep(s); }
      sent := sent + [data];
    }

    /** Fills the two descriptors of a chain and announces its head. */
    method WriteChain(d0: nat, d1: nat, slot: nat, len: nat)
      requires desc.Length == QUEUE_SIZE && ring.Length == QUEUE_SIZE
      requires d0 < QUEUE_SIZE && d1 < QUEUE_SIZE && d0 != d1 && slot < QUEUE_SIZE
      modifies desc, ring
      ensures desc[..] == old(desc[..])[d0 := Desc(NET_HDR_SIZE, DESC_F_NEXT, d1)][d1 := Desc(len, 0, 0)]
      ensures ring[..] == old(ring[..])[slot := d0]
    {
      desc[d0] := Desc(NET_HDR_SIZE, DESC_F_NEXT, d1);
      desc[d1] := Desc(len, 0, 0);
      ring[slot] := d0;
    }
  }

  /** So with a second send accepted before the first is on the wire, the first goes out right exactly when the two
      frames agree as far as both go. */
  lemma OverwrittenExactly(buf: seq<Byte>, first: seq<Byte>, second: seq<Byte>)
    requires first <= buf && |second| <= |buf|
    ensures first <= second + buf[|second|..] <==> forall i ::
      0 <= i < |first| && i < |second| ==> first[i] == second[i]
  {
    var now := second + buf[|second|..];
    if forall i :: 0 <= i < |first| && i < |second| ==> first[i] == second[i] {
      forall i | 0 <= i < |first| ensures first[i] == now[i] {
        if i >= |second| { assert now[i] == buf[i]; }
      }
      assert now[..|first|] == first;
    }
    if i :| 0 <= i < |first| && i < |second| && first[i] != second[i] { assert now[i] != first[i]; }
  }

  lemma WrapAdd(c: nat, n: nat)
    ensures (c % U16 + n) % U16 == (c + n) % U16
  {
    var q, r := c / U16, c % U16;
    var p, s := (r + n) / U16, (r + n) % U16;
    Mod65536(c + n, q + p, s);
  }

  lemma Mod65536(n: nat, q: nat, r: nat)
    requires n == U16 * q + r && r < U16
    ensures n % U16 == r
  {
  }

  /** Ring slots agree whether computed from the wrapped index or from the count. */
  lemma SlotOf(k: nat)
    ensures k % U16 % QUEUE_SIZE == k % QUEUE_SIZE
  {
    var q, r := k / U16, k % U16;
    Mod256(k, 256 * q + r / 256, r % 256);
  }

  // ---------------------------------------------------------------- receive

  /** Each of the eight buffers exactly once. */
  ghost predicate IsAllBuffers(all: multiset<nat>) {
    |all| == RX_BUF_COUNT && forall x: nat {:trigger IsBuffer(x)} :: all[x] == if IsBuffer(x) then 1 else 0
  }

  predicate IsBuffer(x: nat) { x < RX_BUF_COUNT }

  /** Every buffer is announced, being filled, or waiting to be read: none lost, none twice. */
  ghost predicate Conserved(pending: seq<nat>, held: multiset<nat>, done: seq<nat>) {
    IsAllBuffers(multiset(pending) + held + multiset(done))
  }

  lemma Placement(pending: seq<nat>, held: multiset<nat>, done: seq<nat>)
    requires Conserved(pending, held, done)
    ensures |pending| + |held| + |done| == RX_BUF_COUNT
    ensures forall x :: x in held ==> x < RX_BUF_COUNT && x !in done
  {
    var all := multiset(pending) + held + multiset(done);
    forall x | x in held ensures x < RX_BUF_COUNT && x !in done {
      assert all[x] == if IsBuffer(x) then 1 else 0;
      assert all[x] == multiset(pending)[x] + held[x] + multiset(done)[x];
      assert x in done ==> x in multiset(done);
    }
  }

  lemma TakeConserves(pending: seq<nat>, held: multiset<nat>, done: seq<nat>)
    requires Conserved(pending, held, done) && pending != []
    ensures Conserved(pending[1..], held + multiset{pending[0]}, done)
  {
    assert pending == [pending[0]] + pending[1..];
    assert multiset(pending[1..]) + (held + multiset{pending[0]}) + multiset(done) == multiset(pending) + held
      + multiset(done);
  }

  lemma DeliverConserves(pending: seq<nat>, held: multiset<nat>, done: seq<nat>, id: nat)
    requires Conserved(pending, held, done) && id in held
    ensures Conserved(pending, held - multiset{id}, done + [id])
  {
    assert multiset(pending) + (held - multiset{id}) + multiset(done + [id]) == multiset(pending) + held
      + multiset(done);
  }

  /** A delivery moves a buffer from the device to the reports. */
  lemma Delivered(posts: seq<nat>, taken: nat, held: multiset<nat>, reports: seq<nat>, reaped: nat, id: nat)
    requires taken <= |posts| && reaped <= |reports| && Conserved(posts[taken..], held, reports[reaped..]) && id in held
    ensures id < RX_BUF_COUNT && |reports| - reaped < RX_BUF_COUNT
    ensures forall k: nat {:trigger reports[k]} :: reaped <= k < |reports| ==> reports[k] != id
    ensures Conserved(posts[taken..], held - multiset{id}, (reports + [id])[reaped..])
  {
    Placement(posts[taken..], held, reports[reaped..]);
    DeliverConserves(posts[taken..], held, reports[reaped..], id);
    assert reports[reaped..] + [id] == (reports + [id])[reaped..];
    assert |held| > 0;
    forall k: nat | reaped <= k < |reports|
      ensures reports[k] != id
    {
      assert reports[reaped..][k - reaped] == reports[k];
    }
  }

  /** A read frame's buffer moves from the reports back to the posts. */
  lemma Recycled(posts: seq<nat>, taken: nat, held: multiset<nat>, reports: seq<nat>, reaped: nat)
    requires taken <= |posts| && reaped < |reports| && Conserved(posts[taken..], held, reports[reaped..])
    ensures |posts| - taken <= RX_BUF_COUNT
      && Conserved((posts + [reports[reaped]])[taken..], held, reports[reaped + 1..])
  {
    Placement(posts[taken..], held, reports[reaped..]);
    RecycleConserves(posts[taken..], held, reports[reaped..]);
    assert posts[taken..] + [reports[reaped]] == (posts + [reports[reaped]])[taken..]
      && reports[reaped..][1..] == reports[reaped + 1..];
  }

  /** Report k stands in its ring slot and its buffer still holds its frame. */
  ghost predicate ReportFits(used: seq<UsedElem>, bufs: seq<seq<Byte>>, reports: seq<nat>, frames: seq<seq<Byte>>,
    k: nat)
    requires |used| == QUEUE_SIZE && k < |reports| == |frames|
  {
    && used[k % QUEUE_SIZE] == UsedElem(reports[k], |frames[k]|)
    && reports[k] < |bufs| && |frames[k]| <= |bufs[reports[k]]| && bufs[reports[k]][..|frames[k]|] == frames[k]
  }

  ghost predicate AllReported(used: seq<UsedElem>, bufs: seq<seq<Byte>>, reports: seq<nat>, frames: seq<seq<Byte>>,
    reaped: nat) {
    && |used| == QUEUE_SIZE && |reports| == |frames|
    && forall k: nat {:trigger ReportFits(used, bufs, reports, frames, k)} ::
      reaped <= k < |reports| ==> ReportFits(used, bufs, reports, frames, k)
  }

  /** A delivery into a buffer nobody waits for leaves the unread reports intact and adds its own. */
  lemma ReportsKept(used: seq<UsedElem>, bufs: seq<seq<Byte>>, reports: seq<nat>, frames: seq<seq<Byte>>, reaped: nat,
    id: nat, frame: seq<Byte>)
    requires AllReported(used, bufs, reports, frames, reaped) && reaped <= |reports| < reaped + RX_BUF_COUNT
    requires id < |bufs| && |frame| <= |bufs[id]| && forall k: nat {:trigger reports[k]} ::
      reaped <= k < |reports| ==> reports[k] != id
    ensures AllReported(used[|reports| % QUEUE_SIZE := UsedElem(id, |frame|)], bufs[id := frame + bufs[id][|frame|..]],
      reports + [id], frames + [frame], reaped)
  {
    var n := |reports|;
    var used', bufs' := used[n % QUEUE_SIZE := UsedElem(id, |frame|)], bufs[id := frame + bufs[id][|frame|..]];
    forall k: nat | reaped <= k <= n ensures ReportFits(used', bufs', reports + [id], frames + [frame], k) {
      if k < n {
        assert ReportFits(used, bufs, reports, frames, k);
        SlotsApart(k, n);
      }
    }
  }

  lemma FewerReported(used: seq<UsedElem>, bufs: seq<seq<Byte>>, reports: seq<nat>, frames: seq<seq<Byte>>, reaped: nat)
    requires AllReported(used, bufs, reports, frames, reaped)
    ensures AllReported(used, bufs, reports, frames, reaped + 1)
  {
  }

  /** Post k is announced in its ring slot. */
  ghost predicate PostFits(ring: seq<nat>, posts: seq<nat>, k: nat)
    requires |ring| == QUEUE_SIZE && k < |posts|
  {
    ring[k % QUEUE_SIZE] == posts[k]
  }

  ghost predicate AllPosted(ring: seq<nat>, posts: seq<nat>, taken: nat) {
    |ring| == QUEUE_SIZE && forall k: nat {:trigger PostFits(ring, posts, k)} ::
      taken <= k < |posts| ==> PostFits(ring, posts, k)
  }

  lemma FewerPosted(ring: seq<nat>, posts: seq<nat>, taken: nat)
    requires AllPosted(ring, posts, taken)
    ensures AllPosted(ring, posts, taken + 1)
  {
  }

  /** Announcing one more buffer overwrites no slot the device has yet to read. */
  lemma PostsKept(ring: seq<nat>, posts: seq<nat>, taken: nat, id: nat)
    requires AllPosted(ring, posts, taken) && taken <= |posts| <= taken + RX_BUF_COUNT
    ensures AllPosted(ring[|posts| % QUEUE_SIZE := id], posts + [id], taken)
  {
    var n, ring', posts' := |posts|, ring[|posts| % QUEUE_SIZE := id], posts + [id];
    forall k: nat | taken <= k <= n ensures PostFits(ring', posts', k) {
      if k < n {
        assert PostFits(ring, posts, k);
        SlotsApart(k, n);
      }
    }
  }

  lemma RecycleConserves(pending: seq<nat>, held: multiset<nat>, done: seq<nat>)
    requires Conserved(pending, held, done) && done != []
    ensures Conserved(pending + [done[0]], held, done[1..])
  {
    assert done == [done[0]] + done[1..];
    assert multiset(pending + [done[0]]) + held + multiset(done[1..]) == multiset(pending) + held + multiset(done);
  }

  /** The numbers below n, each once. */
  lemma {:induction false} CountUp(n: nat) returns (p: seq<nat>)
    ensures |p| == n && (forall i :: 0 <= i < n ==> p[i] == i)
    ensures forall x: nat {:trigger multiset(p)[x]} :: multiset(p)[x] == if x < n then 1 else 0
  {
    if n == 0 {
      p := [];
    } else {
      var q := CountUp(n - 1);
      p := q + [n - 1];
      assert multiset(p) == multiset(q) + multiset{n - 1};
    }
  }

  lemma InitialPosts() returns (p: seq<nat>)
    ensures |p| == RX_BUF_COUNT && (forall i :: 0 <= i < RX_BUF_COUNT ==> p[i] == i) && Conserved(p, multiset{}, [])
  {
    p := CountUp(RX_BUF_COUNT);
    assert multiset(p) + multiset{} + multiset([]) == multiset(p);
  }

  class RxQueue {
    const ring: array<nat>
    const used: array<UsedElem>
    var bufs: seq<seq<Byte>>
    var availMem: nat
    var usedMem: nat
    var availIdx: nat
    var usedLast: nat
    /** Every buffer number ever posted, and every one ever reported used with its bytes. */
    ghost var posts: seq<nat>
    ghost var reports: seq<nat>
    ghost var frames: seq<seq<Byte>>
    /** How many posts the device has picked up, which buffers it holds, how many reports were read. */
    ghost var taken: nat
    ghost var held: multiset<nat>
    ghost var reaped: nat

    ghost predicate Valid()
      reads this, ring, used
    {
      && ring.Length == QUEUE_SIZE && used.Length == QUEUE_SIZE && BufsOk()
      && Counted() && Conserved(posts[taken..], held, reports[reaped..]) == true // taken over whole
      && availIdx == availMem == |posts| % U16 && usedMem == |reports| % U16 && usedLast == reaped % U16
      && AllPosted(ring[..], posts, taken) == true && AllReported(used[..], bufs, reports, frames, reaped) == true
    }

    ghost predicate Counted()
      reads this
    {
      taken <= |posts| && reaped <= |reports| == |frames| && |posts| == reaped + RX_BUF_COUNT
    }

    ghost predicate BufsOk()
      reads this
    {
      |bufs| == RX_BUF_COUNT && forall i :: 0 <= i < RX_BUF_COUNT ==> |bufs[i]| == PKT_BUF_SIZE
    }

    /** The initial posting: all eight buffers announced. */
    constructor ()
      ensures Valid() && |posts| == RX_BUF_COUNT && reaped == 0 && frames == [] && fresh(ring) && fresh(used)
    {
      ring := new nat[QUEUE_SIZE](i => if 0 <= i < RX_BUF_COUNT then i else 0);
      used := new UsedElem[QUEUE_SIZE](_ => UsedElem(0, 0));
      bufs := seq(RX_BUF_COUNT, _ => seq(PKT_BUF_SIZE, _ => 0));
      availMem, usedMem, availIdx, usedLast := RX_BUF_COUNT, 0, RX_BUF_COUNT, 0;
      ghost var p := InitialPosts();
      posts, reports, frames := p, [], [];
      taken, held, reaped := 0, multiset{}, 0;
      new;
      assert posts[0..] == posts && reports[0..] == [];
      forall k: nat | k < |posts| ensures PostFits(ring[..], posts, k) { assert k % QUEUE_SIZE == k; }
      assert AllPosted(ring[..], posts, taken) && AllReported(used[..], bufs, reports, frames, reaped);
    }

    /** The device picks up the oldest announced buffer. */
    method DeviceTakes()
      requires Valid() && taken < |posts|
      modifies `taken, `held
      ensures Valid() && held == old(held) + multiset{posts[old(taken)]}
    {
      TakeConserves(posts[taken..], held, reports[reaped..]);
      assert posts[taken..][1..] == posts[taken + 1..];
      held := held + multiset{posts[taken]};
      FewerPosted(ring[..], posts, taken);
      taken := taken + 1;
    }

    /** The device fills a buffer it holds, in whatever order it likes, and reports it used. */
    method DeviceDelivers(id: nat, frame: seq<Byte>)
      requires Valid() && id in held && |frame| <= PKT_BUF_SIZE
      modifies this, used
      ensures Valid() && frames == old(frames) + [frame] && posts == old(posts) && reaped == old(reaped)
    {
      ghost var n, before, was := |reports|, used[..], bufs;
      Delivered(posts, taken, held, reports, reaped, id);
      assert usedMem % QUEUE_SIZE == n % QUEUE_SIZE by { SlotOf(n); }
      ReportsKept(before, was, reports, frames, reaped, id, frame);
      Fill(id, frame, usedMem % QUEUE_SIZE);
      var next := (usedMem + 1) % U16;
      assert next == (n + 1) % U16 by { WrapAdd(n, 1); }
      Report(next, held - multiset{id}, reports + [id], frames + [frame]);
    }

    /** The device moves used.idx past its report. */
    method Report(next: nat, ghost still: multiset<nat>, ghost more: seq<nat>, ghost all: seq<seq<Byte>>)
      requires ring.Length == QUEUE_SIZE && used.Length == QUEUE_SIZE && BufsOk()
      requires taken <= |posts| && reaped <= |more| == |all| && |posts| == reaped + RX_BUF_COUNT
      requires availIdx == availMem == |posts| % U16 && next == |more| % U16 && usedLast == reaped % U16
      requires AllPosted(ring[..], posts, taken) == true
      requires Conserved(posts[taken..], still, more[reaped..]) == true
      requires AllReported(used[..], bufs, more, all, reaped) == true
      modifies `usedMem, `held, `reports, `frames
      ensures Valid() && frames == all
    {
      usedMem := next;
      held, reports, frames := still, more, all;
    }

    /** The device's writes: the frame into the buffer, the report into a used slot. */
    method Fill(id: nat, frame: seq<Byte>, slot: nat)
      requires BufsOk() && used.Length == QUEUE_SIZE && id < RX_BUF_COUNT && |frame| <= PKT_BUF_SIZE
        && slot < QUEUE_SIZE
      modifies `bufs, used
      ensures BufsOk() && bufs == old(bufs)[id := frame + old(bufs)[id][|frame|..]]
      ensures used[..] == old(used[..])[slot := UsedElem(id, |frame|)]
    {
      bufs := bufs[id := frame + bufs[id][|frame|..]];
      used[slot] := UsedElem(id, |frame|);
    }

    /** recv_packet_into: the oldest unread frame without its 10-byte header, cut to the caller's
        buffer; a frame no longer than the header is dropped.  Its buffer is posted again either way. */
    method RecvPacketInto(out: array<Byte>) returns (n: Option<nat>)
      requires Valid()
      modifies this, ring, out
      ensures Valid() && frames == old(frames)
      ensures old(reaped) == |frames| ==>
        n == None && reaped == old(reaped) && posts == old(posts) && out[..] == old(out[..])
      ensures old(reaped) < |frames| ==>
        && reaped == old(reaped) + 1 && posts == old(posts) + [reports[old(reaped)]]
        && var frame := frames[old(reaped)];
           if |frame| <= NET_HDR_SIZE then n == None && out[..] == old(out[..])
           else
             var len := Min(|frame| - NET_HDR_SIZE, out.Length);
             n == Some(len) && out[..] == frame[NET_HDR_SIZE..NET_HDR_SIZE + len] + old(out[len..])
    {
      Placement(posts[taken..], held, reports[reaped..]);
      WrapDistance(|reports|, reaped);
      if usedMem == usedLast {
        return None;
      }
      SlotOf(reaped);
      assert ReportFits(used[..], bufs, reports, frames, reaped);
      var elem := used[usedLast % QUEUE_SIZE];
      var id, totalLen := elem.id, elem.len;
      ghost var frame := frames[reaped];
      if totalLen <= NET_HDR_SIZE {
        Recycle(id);
        return None;
      }
      var copyLen := Min(totalLen - NET_HDR_SIZE, out.Length);
      var i := 0;
      while i < copyLen
        modifies out
        invariant 0 <= i <= copyLen
        invariant forall k :: 0 <= k < out.Length ==> out[k] == if k < i then frame[NET_HDR_SIZE + k] else old(out[k])
      {
        assert bufs[id][NET_HDR_SIZE + i] == bufs[id][..|frame|][NET_HDR_SIZE + i];
        out[i] := bufs[id][NET_HDR_SIZE + i];
        i := i + 1;
      }
      assert out[..] == frame[NET_HDR_SIZE..NET_HDR_SIZE + copyLen] + old(out[copyLen..]);
      Recycle(id);
      n := Some(copyLen);
    }

    /** Consumes the oldest used entry and re-enqueues its buffer. */
    method Recycle(id: nat)
      requires Valid() && reaped < |reports| && id == reports[reaped]
      modifies `usedLast, `availIdx, `availMem, `posts, `reaped, ring
      ensures Valid() && posts == old(posts) + [id] && reaped == old(reaped) + 1
    {
      ghost var n := |posts|;
      Recycled(posts, taken, held, reports, reaped);
      PostsKept(ring[..], posts, taken, id);
      FewerReported(used[..], bufs, reports, frames, reaped);
      usedLast := (usedLast + 1) % U16;
      assert usedLast == (reaped + 1) % U16 by { WrapAdd(reaped, 1); }
      var slot := availIdx % QUEUE_SIZE;
      assert slot == n % QUEUE_SIZE by { SlotOf(n); }
      ghost var before := ring[..];
      ring[slot] := id;
      assert ring[..] == before[slot := id];
      availIdx := (availIdx + 1) % U16;
      assert availIdx == (n + 1) % U16 by { WrapAdd(n, 1); }
      availMem := availIdx;
      posts := posts + [id];
      reaped := reaped + 1;
    }
  }
}
