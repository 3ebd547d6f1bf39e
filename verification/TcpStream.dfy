/** What the bytes of a TCP segment make the network server do, and what becomes of the stream they carry. */
module TcpStream {
  import opened Bytes
  import opened Checksum
  import opened NetServer
  import Packets

  // ---------------------------------------------------------------- segments, byte by byte

  /** The control bits of RFC 9293, from the lowest. */
  function FlagByte(fin: bool, syn: bool, rst: bool, psh: bool, ack: bool, urg: bool): Byte {
    (if fin then 1 else 0) + (if syn then 2 else 0) + (if rst then 4 else 0) + (if psh then 8 else 0)
    + (if ack then 16 else 0) + (if urg then 32 else 0)
  }

  lemma FlagsRead(fin: bool, syn: bool, rst: bool, psh: bool, ack: bool, urg: bool)
    ensures var f := FlagByte(fin, syn, rst, psh, ack, urg);
      Bit(f, 1) == fin && Bit(f, 2) == syn && Bit(f, 4) == rst && Bit(f, 16) == ack
  {
  }

  /** The first twenty bytes of a segment, each field in its place. */
  lemma HeadFields(h: Packets.TcpHead, rest: seq<Byte>)
    requires h.Fits()
    ensures var b := h.Bytes() + rest;
      && Be16(b[0], b[1]) == h.srcPort && Be16(b[2], b[3]) == h.dstPort
      && Be32(b, 4) == h.seqNum && Be32(b, 8) == h.ackNum && b[12] == h.words * 16 && b[13] == h.flags
  {
    HeadSlices(h, rest);
    Packets.BeRoundTrip(h.srcPort);
    Packets.BeRoundTrip(h.dstPort);
    Packets.Be32RoundTrip(h.seqNum);
    Packets.Be32RoundTrip(h.ackNum);
  }

  /** s stands at `at`. */
  ghost predicate At(b: seq<Byte>, at: nat, s: seq<Byte>) {
    at + |s| <= |b| && forall i: nat {:trigger s[i]} :: i < |s| ==> b[at + i] == s[i]
  }

  lemma AtJoin(a: seq<Byte>, s: seq<Byte>, c: seq<Byte>)
    ensures At(a + s + c, |a|, s)
  {
  }

  lemma AtWithin(b: seq<Byte>, at: nat, s: seq<Byte>, k: nat, t: seq<Byte>)
    requires At(b, at, s) && At(s, k, t)
    ensures At(b, at + k, t)
  {
    forall i: nat | i < |t| ensures b[at + k + i] == t[i] { assert s[k + i] == t[i]; }
  }

  lemma HeadSlices(h: Packets.TcpHead, rest: seq<Byte>)
    requires h.Fits()
    ensures var b := h.Bytes() + rest;
      && b[0] == Packets.BeBytes(h.srcPort)[0] && b[1] == Packets.BeBytes(h.srcPort)[1]
      && b[2] == Packets.BeBytes(h.dstPort)[0] && b[3] == Packets.BeBytes(h.dstPort)[1]
      && At(b, 4, Packets.Be32Bytes(h.seqNum)) && At(b, 8, Packets.Be32Bytes(h.ackNum))
      && b[12] == h.words * 16 && b[13] == h.flags
  {
    var b, tail := h.Bytes() + rest,
      Packets.BeBytes(h.window) + Packets.BeBytes(h.csum) + Packets.BeBytes(h.urgent) + rest;
    var mid: seq<Byte> := [h.words * 16, h.flags];
    assert b == h.Ports() + h.Numbers() + (mid + tail);
    AtJoin(h.Ports(), h.Numbers(), mid + tail);
    AtJoin([], Packets.Be32Bytes(h.seqNum), Packets.Be32Bytes(h.ackNum));
    assert [] + Packets.Be32Bytes(h.seqNum) + Packets.Be32Bytes(h.ackNum) == h.Numbers();
    AtJoin(Packets.Be32Bytes(h.seqNum), Packets.Be32Bytes(h.ackNum), []);
    assert h.Numbers() + [] == h.Numbers();
    AtWithin(b, 4, h.Numbers(), 0, Packets.Be32Bytes(h.seqNum));
    AtWithin(b, 4, h.Numbers(), 4, Packets.Be32Bytes(h.ackNum));
  }

  /** A segment of RFC 9293: the header, options up to the data offset, the data. */
  ghost predicate IsSegment(b: seq<Byte>, h: Packets.TcpHead, options: seq<Byte>, payload: seq<Byte>) {
    h.Fits() && h.words >= 5 && |options| == 4 * h.words - 20 && b == h.Bytes() + (options + payload)
  }

  /** handle_tcp reads every such segment rightly. */
  lemma SegmentRead(b: seq<Byte>, h: Packets.TcpHead, options: seq<Byte>, payload: seq<Byte>)
    requires IsSegment(b, h, options, payload)
    ensures Parse(b) == Some(Segment(h.srcPort, h.dstPort, h.seqNum, h.ackNum, Bit(h.flags, 1), Bit(h.flags, 2),
      Bit(h.flags, 4), Bit(h.flags, 16), payload))
  {
    HeadFields(h, options + payload);
    assert b[12] / 16 * 4 == 4 * h.words;
    assert b[4 * h.words..] == payload;
  }

  /** And those that build_tcp makes are such segments. */
  lemma BuiltIsSegment(srcPort: nat, dstPort: nat, seqNum: nat, ackNum: nat, flags: Byte, window: nat,
    payload: seq<Byte>)
    requires srcPort < U16 && dstPort < U16 && seqNum < U32 && ackNum < U32 && window < U16
    ensures var h := Packets.TcpHead(srcPort, dstPort, seqNum, ackNum, 5, flags, window, 0, 0);
      IsSegment(h.Bytes() + payload, h, [], payload)
  {
    assert [] + payload == payload;
  }

  // ---------------------------------------------------------------- what a segment does

  /** The segment is from the connection's peer and for its port. */
  ghost predicate Ours(c: Conn, srcIp: nat, h: Packets.TcpHead) {
    c.remoteIp == srcIp && c.remotePort == h.srcPort && c.localPort == h.dstPort
  }

  /** While a connect awaits its answer: a SYN-ACK opens the connection, numbers it, and tells the requester so;
      otherwise a reset ends both and tells of the failure; nothing else has any effect. */
  lemma AnswerToSyn(s: State, srcIp: nat, b: seq<Byte>, h: Packets.TcpHead, options: seq<Byte>, payload: seq<Byte>)
    requires Inv(s) && s.conn.state == SynSent && s.sm.stage == WaitAnswer && IsSegment(b, h, options, payload)
    ensures var (s', rs) := Step(s, TcpIn(srcIp, b));
      var opens := Ours(s.conn, srcIp, h) && Bit(h.flags, 2) && Bit(h.flags, 16);
      var resets := Ours(s.conn, srcIp, h) && !opens && Bit(h.flags, 4);
      && (opens ==>
            && s'.conn == s.conn.(state := Established, ack := (h.seqNum + 1) % U32, seq_ := h.ackNum)
            && s'.sm.stage == Idle && rs == [Told(s.sm.sender, OP_CONNECT, 1)])
      && (resets ==> s'.conn == ZEROED && s'.sm.stage == Idle && rs == [Told(s.sm.sender, OP_CONNECT, 0xFF)])
      && (!opens && !resets ==> s' == s && rs == [])
  {
    SegmentRead(b, h, options, payload);
  }

  /** On an open connection: a reset or a FIN from the peer drops it, anything else is data, whatever its
      sequence number. */
  lemma OnOpen(s: State, srcIp: nat, b: seq<Byte>, h: Packets.TcpHead, options: seq<Byte>, payload: seq<Byte>)
    requires Inv(s) && s.conn.state == Established && s.sm.stage == Idle && IsSegment(b, h, options, payload)
    ensures var (s', rs) := Step(s, TcpIn(srcIp, b));
      var drops := Bit(h.flags, 4) || Bit(h.flags, 1);
      && rs == [] && (Ours(s.conn, srcIp, h) && drops ==> s'.conn == ZEROED)
      && (!Ours(s.conn, srcIp, h) ==> s' == s)
      && (Ours(s.conn, srcIp, h) && !drops ==>
            && s'.conn.state == Established && Arrives(s, TcpIn(srcIp, b)) == payload
            && (|s.conn.rx| + |payload| <= 512 ==> s'.conn.rx == s.conn.rx + payload))
  {
    SegmentRead(b, h, options, payload);
  }

  // ---------------------------------------------------------------- the stream

  /** The data an event brings in on an open connection. */
  function Arrives(s: State, e: Event): seq<Byte> {
    if e.TcpIn? && HandleSegment(s.conn, e.srcIp, e.buf).1 == Some(DataReceived) then Parse(e.buf).value.payload else []
  }

  /** The bytes replies hand out. */
  function Handed(rs: seq<Reply>): seq<Byte> {
    if rs == [] then [] else Handed(rs[..|rs| - 1]) + rs[|rs| - 1].bytes
  }

  /** The server's run on from s. */
  function Onward(s: State, events: seq<Event>): (State, seq<Reply>) {
    if events == [] then (s, [])
    else
      var (t, rs) := Onward(s, events[..|events| - 1]);
      var (t', r) := Step(t, events[|events| - 1]);
      (t', rs + r)
  }

  function Arrived(s: State, events: seq<Event>): seq<Byte> {
    if events == [] then []
    else
      var past := events[..|events| - 1];
      Arrived(s, past) + Arrives(Onward(s, past).0, events[|events| - 1])
  }

  /** The connection stays open all the way. */
  ghost predicate StaysOpen(s: State, events: seq<Event>) {
    && Onward(s, events).0.conn.state == Established
    && (events != [] ==> StaysOpen(s, events[..|events| - 1]))
  }

  /** The event loses data: a segment that does not fit the buffer, or a read of more than one message holds. */
  ghost predicate Loses(s: State, e: Event) {
    |s.conn.rx| + |Arrives(s, e)| > 512 || (e.Recv? && |s.conn.rx| > 40)
  }

  ghost predicate Lossless(s: State, events: seq<Event>) {
    events != [] ==>
      var past := events[..|events| - 1];
      Lossless(s, past) && !Loses(Onward(s, past).0, events[|events| - 1])
  }

  lemma {:induction false} HandedJoin(a: seq<Reply>, b: seq<Reply>)
    ensures Handed(a + b) == Handed(a) + Handed(b)
    decreases |b|
  {
    if b == [] {
      assert a + b == a;
    } else {
      var ab := a + b;
      assert ab[..|ab| - 1] == a + b[..|b| - 1];
      HandedJoin(a, b[..|b| - 1]);
    }
  }

  /** Only a read hands anything out. */
  lemma {:induction false} NothingHanded(rs: seq<Reply>)
    requires forall i :: 0 <= i < |rs| ==> rs[i].bytes == []
    ensures Handed(rs) == []
    decreases |rs|
  {
    if rs != [] { NothingHanded(rs[..|rs| - 1]); }
  }

  /** What was handed out and is now buffered, against what was buffered and has arrived: all of it in order
      exactly if nothing was lost, less otherwise, and acknowledged in any case. */
  ghost predicate Accounts(rx: seq<Byte>, ack: nat, arrived: seq<Byte>, handed: seq<Byte>, rx': seq<Byte>, ack': nat,
    kept: bool) {
    && (kept ==> handed + rx' == rx + arrived)
    && (!kept ==> |handed| + |rx'| < |rx| + |arrived|)
    && ack' == (ack + |arrived|) % U32 && |rx'| <= 512
  }

  ghost predicate Balanced(s: State, e: Event) {
    var (s', rs) := Step(s, e);
    Accounts(s.conn.rx, s.conn.ack, Arrives(s, e), Handed(rs), s'.conn.rx, s'.conn.ack, !Loses(s, e))
  }

  lemma StepBalanced(s: State, e: Event)
    requires s.conn.state == Established == Step(s, e).0.conn.state && |s.conn.rx| <= 512 && s.conn.ack < U32
    ensures Balanced(s, e)
  {
    var (s', rs) := Step(s, e);
    if e.Recv? {
      if s.conn.rx != [] {
        assert rs[..0] == [];
        assert Handed(rs) == rs[0].bytes;
      } else {
        NothingHanded(rs);
      }
    } else {
      Quiet(s, e);
      NothingHanded(rs);
      if e.TcpIn? { DataBalanced(s, e); } else { Untouched(s, e); }
    }
  }

  lemma Quiet(s: State, e: Event)
    requires !e.Recv?
    ensures forall i :: 0 <= i < |Step(s, e).1| ==> Step(s, e).1[i].bytes == []
  {
  }

  lemma Untouched(s: State, e: Event)
    requires s.conn.state == Established == Step(s, e).0.conn.state && !e.Recv? && !e.TcpIn?
    ensures Step(s, e).0.conn.rx == s.conn.rx && Step(s, e).0.conn.ack == s.conn.ack
  {
  }

  lemma DataBalanced(s: State, e: Event)
    requires e.TcpIn? && s.conn.state == Established == Step(s, e).0.conn.state && |s.conn.rx| <= 512
    ensures var rx, p := s.conn.rx, Arrives(s, e);
      && Step(s, e).0.conn.rx == Received(rx, p)
      && (Arrives(s, e) != [] ==> Step(s, e).0.conn.ack == After(s.conn.ack, |p|))
      && (Arrives(s, e) == [] ==> Step(s, e).0.conn == s.conn)
      && |Received(rx, p)| <= 512
      && (|rx| + |p| <= 512 ==> Received(rx, p) == rx + p) && (|rx| + |p| > 512 ==> |Received(rx, p)| == 512)
  {
    var rx, p := s.conn.rx, Arrives(s, e);
    if |rx| + |p| <= 512 { assert p[..|p|] == p; }
    if p == [] { assert rx + [] == rx; }
  }

  /** The whole stretch: everything that came in while the connection stayed open is handed out or still
      buffered, in order and once, exactly when no segment overran the buffer and no read found more than forty
      bytes; and either way all of it has been acknowledged, so that the peer sends none of it again. */
  lemma {:induction false} StreamExactly(s: State, events: seq<Event>)
    requires StaysOpen(s, events) && |s.conn.rx| <= 512 && s.conn.ack < U32
    ensures var (t, rs) := Onward(s, events);
      && Accounts(s.conn.rx, s.conn.ack, Arrived(s, events), Handed(rs), t.conn.rx, t.conn.ack, Lossless(s, events))
      && (Handed(rs) + t.conn.rx == s.conn.rx + Arrived(s, events) <==> Lossless(s, events))
    decreases |events|
  {
    if events == [] {
      assert Handed([]) + s.conn.rx == s.conn.rx + [];
    } else {
      var past, e := events[..|events| - 1], events[|events| - 1];
      StreamExactly(s, past);
      var (t, rs) := Onward(s, past);
      OpenBefore(s, past);
      StepBalanced(t, e);
      HandedJoin(rs, Step(t, e).1);
      AccountsJoin(s.conn.rx, s.conn.ack, Arrived(s, past), Handed(rs), t.conn.rx, t.conn.ack, Lossless(s, past),
        Arrives(t, e), Handed(Step(t, e).1), Step(t, e).0.conn.rx, Step(t, e).0.conn.ack, !Loses(t, e));
    }
  }

  lemma OpenBefore(s: State, past: seq<Event>)
    requires StaysOpen(s, past)
    ensures Onward(s, past).0.conn.state == Established
  {
  }

  /** Two stretches end to end. */
  lemma AccountsJoin(rx: seq<Byte>, ack: nat, a1: seq<Byte>, h1: seq<Byte>, rx1: seq<Byte>, ack1: nat, kept1: bool,
    a2: seq<Byte>, h2: seq<Byte>, rx2: seq<Byte>, ack2: nat, kept2: bool)
    requires Accounts(rx, ack, a1, h1, rx1, ack1, kept1) && Accounts(rx1, ack1, a2, h2, rx2, ack2, kept2)
    ensures Accounts(rx, ack, a1 + a2, h1 + h2, rx2, ack2, kept1 && kept2)
  {
    AckChained(ack, |a1|, |a2|);
    assert |h1| + |rx1| <= |rx| + |a1| by { if kept1 { assert |h1 + rx1| == |rx + a1|; } }
    assert |h2| + |rx2| <= |rx1| + |a2| by { if kept2 { assert |h2 + rx2| == |rx1 + a2|; } }
    if kept1 && kept2 {
      assert h1 + h2 + rx2 == h1 + (h2 + rx2);
      assert h1 + (rx1 + a2) == (h1 + rx1) + a2;
      assert rx + a1 + a2 == rx + (a1 + a2);
    }
  }

  lemma AckChained(ack: nat, m: nat, n: nat)
    ensures ((ack + m) % U32 + n) % U32 == (ack + (m + n)) % U32
  {
    var q := (ack + m) / U32;
    assert ack + m == U32 * q + (ack + m) % U32;
    assert ack + m + n == U32 * q + ((ack + m) % U32 + n);
    ModShift((ack + m) % U32 + n, q);
  }

  lemma ModShift(x: nat, q: nat)
    ensures (U32 * q + x) % U32 == x % U32
  {
    assert U32 * q + x == U32 * (q + x / U32) + x % U32;
  }

  /** A segment that arrives twice, as a retransmission does, is in the stream twice. */
  lemma RetransmitDoubles(s: State, srcIp: nat, b: seq<Byte>, h: Packets.TcpHead, options: seq<Byte>,
    payload: seq<Byte>)
    requires Inv(s) && s.conn.state == Established && s.sm.stage == Idle && IsSegment(b, h, options, payload)
    requires Ours(s.conn, srcIp, h) && !Bit(h.flags, 4) && !Bit(h.flags, 1) && |s.conn.rx| + 2 * |payload| <= 512
    ensures var e := TcpIn(srcIp, b);
      Step(Step(s, e).0, e).0.conn.rx == s.conn.rx + payload + payload
  {
    var s1 := Step(s, TcpIn(srcIp, b)).0;
    OnOpen(s, srcIp, b, h, options, payload);
    SegmentRead(b, h, options, payload);
    StepKeepsInv(s, TcpIn(srcIp, b));
    OnOpen(s1, srcIp, b, h, options, payload);
  }

  /** A read of a fuller buffer: forty bytes are handed out and the rest is gone. */
  lemma LongReadDrops(s: State, sender: nat)
    requires |s.conn.rx| > 40
    ensures var (s', rs) := Step(s, Recv(sender));
      s'.conn.rx == [] && rs == [Reply(sender, OP_RECV, 40, s.conn.rx[..40])] && Loses(s, Recv(sender))
  {
  }
}
