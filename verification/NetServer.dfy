/** The network server's asynchronous requests: one pending ping, one pending TCP connect, one TCP
    connection, stepped by requests, frames and the clock. */
module NetServer {
  import opened Bytes
  import opened Checksum

  const OP_PING: nat := 0x100
  const OP_CONNECT: nat := 0x104
  const OP_RECV: nat := 0x106
  const OP_CLOSE: nat := 0x107

  const PING_BUSY: nat := 0xFFFE
  const PING_FAILED: nat := 0xFFFF
  const CONNECT_FAILED: nat := 0xFF
  const CONN_ID: nat := 1
  const NO_DATA: nat := 0xFFFF

  const PING_TIMEOUT: nat := 2_000_000_000
  const CONNECT_TIMEOUT: nat := 5_000_000_000
  const LOCAL_PORT: nat := 49152
  const INITIAL_SEQ: nat := 0x1234_5678
  const RX_MAX: nat := 512
  /** Most bytes one OP_NET_TCP_RECV hands out. */
  const RECV_MAX: nat := 40

  datatype TcpState = Closed | SynSent | Established | FinWait1 | CloseWait
  datatype TcpEvent = Opened | DataReceived | PeerClosed | Reset

  datatype Conn = Conn(state: TcpState, localPort: nat, remotePort: nat, remoteIp: nat, seq_: nat, ack: nat,
    connId: nat, owner: nat, rx: seq<Byte>)

  const ZEROED := Conn(Closed, 0, 0, 0, 0, 0, 0, 0, [])

  /** The stages of both machines: idle, waiting for the target's hardware address, waiting for its answer. */
  datatype Stage = Idle | WaitArp | WaitAnswer

  datatype Pinging = Pinging(stage: Stage, sender: nat, target: nat, deadline: nat, id: nat, seq_: nat, sentNs: nat)
  datatype Connecting = Connecting(stage: Stage, sender: nat, dstIp: nat, dstPort: nat, connId: nat, deadline: nat)

  datatype State = State(ping: Pinging, sm: Connecting, conn: Conn)

  /** A reply message: opcode and result sent to a process. */
  datatype Reply = Reply(dest: nat, op: nat, result: nat, bytes: seq<Byte>)

  /** One without data. */
  function Told(dest: nat, op: nat, result: nat): Reply { Reply(dest, op, result, []) }

  /** What the main loop reacts to.  Whether an address is in the ARP cache, whether a packet could be
      sent, and what the clock says come from outside. */
  datatype Event =
    | Ping(sender: nat, ip: nat, now: nat, cached: bool, sent: bool)
    | Connect(sender: nat, ip: nat, port: nat, now: nat, cached: bool, sent: bool)
    | Close(sender: nat)
    | Recv(sender: nat)
    | ArpIn(pingCached: bool, pingSent: bool, smCached: bool, smSent: bool, now: nat)
    | IcmpIn(payload: seq<Byte>, now: nat)
    | TcpIn(srcIp: nat, buf: seq<Byte>)
    | Tick(now: nat)

  function Initial(): State {
    State(Pinging(Idle, 0, 0, 0, 0xBEEF, 0, 0), Connecting(Idle, 0, 0, 0, 0, 0), ZEROED)
  }

  // ---------------------------------------------------------------- the TCP connection

  /** tcp_connect: the connection, and whether it was free. */
  function OpenConn(c: Conn, ip: nat, port: nat, owner: nat): (Conn, bool) {
    if c.state != Closed then (c, false)
    else (Conn(SynSent, LOCAL_PORT, port, ip, INITIAL_SEQ, 0, CONN_ID, owner, []), true)
  }

  predicate Bit(flags: Byte, mask: nat)
    requires mask > 0
  {
    flags / mask % 2 == 1
  }

  function Be32(buf: seq<Byte>, at: nat): nat
    requires at + 4 <= |buf|
  {
    Be16(buf[at], buf[at + 1]) * U16 + Be16(buf[at + 2], buf[at + 3])
  }

  /** What handle_tcp reads out of a segment. */
  datatype Segment = Segment(srcPort: nat, dstPort: nat, seqNum: nat, ackNum: nat, fin: bool, syn: bool, rst: bool,
    ack: bool, payload: seq<Byte>)

  function Parse(buf: seq<Byte>): Option<Segment> {
    if |buf| < 20 then None
    else
      var dataOff, flags := buf[12] / 16 * 4, buf[13];
      Some(Segment(Be16(buf[0], buf[1]), Be16(buf[2], buf[3]), Be32(buf, 4), Be32(buf, 8),
                   Bit(flags, 1), Bit(flags, 2), Bit(flags, 4), Bit(flags, 16), if dataOff <= |buf| then buf[dataOff..]
                     else []))
  }

  /** The next sequence number. */
  function After(n: nat, k: nat): nat { (n + k) % U32 }

  /** handle_tcp once the segment is parsed. */
  function OnSegment(c: Conn, srcIp: nat, g: Segment): (Conn, Option<TcpEvent>) {
    if c.state == Closed || c.remoteIp != srcIp || c.remotePort != g.srcPort || c.localPort != g.dstPort then (c, None)
    else
      match c.state
      case SynSent =>
        if g.syn && g.ack then (c.(ack := After(g.seqNum, 1), seq_ := g.ackNum, state := Established), Some(Opened))
        else if g.rst then (c.(state := Closed), Some(Reset))
        else (c, None)
      case Established =>
        if g.rst then (c.(state := Closed), Some(Reset))
        else if g.fin then (c.(ack := After(g.seqNum, 1), state := CloseWait), Some(PeerClosed))
        else if g.payload != []
          then (c.(rx := Received(c.rx, g.payload), ack := After(c.ack, |g.payload|)), Some(DataReceived))
        else (c, None)
      case FinWait1 =>
        if g.fin then (c.(ack := After(g.seqNum, 1), state := Closed), Some(PeerClosed)) else (c, None)
      case _ => (c, None)
  }

  /** What fits of a payload is appended. */
  function Received(rx: seq<Byte>, payload: seq<Byte>): (r: seq<Byte>)
    ensures |rx| <= RX_MAX ==> |r| <= RX_MAX
  {
    rx + payload[..Min(|payload|, if |rx| <= RX_MAX then RX_MAX - |rx| else 0)]
  }

  /** handle_tcp. */
  function HandleSegment(c: Conn, srcIp: nat, buf: seq<Byte>): (Conn, Option<TcpEvent>) {
    if Parse(buf).None? then (c, None) else OnSegment(c, srcIp, Parse(buf).value)
  }

  /** tcp_sm_send_syn's effect on the connection. */
  function SynOut(c: Conn): Conn { c.(seq_ := (c.seq_ + 1) % U32) }

  // ---------------------------------------------------------------- the machines

  function OnPing(s: State, e: Event): (State, seq<Reply>)
    requires e.Ping?
  {
    var p := s.ping;
    if p.stage != Idle then (s, [Told(e.sender, OP_PING, PING_BUSY)])
    else if e.cached then
      var seq_ := (p.seq_ + 1) % U16;
      if !e.sent then (s.(ping := p.(seq_ := seq_)), [Told(e.sender, OP_PING, PING_FAILED)])
      else (s.(ping := Pinging(WaitAnswer, e.sender, e.ip, e.now + PING_TIMEOUT, p.id, seq_, e.now)), [])
    else (s.(ping := p.(stage := WaitArp, sender := e.sender, target := e.ip, deadline := e.now + PING_TIMEOUT)), [])
  }

  function OnConnect(s: State, e: Event): (State, seq<Reply>)
    requires e.Connect?
  {
    if s.sm.stage != Idle then (s, [Told(e.sender, OP_CONNECT, CONNECT_FAILED)])
    else
      var (c, ok) := OpenConn(s.conn, e.ip, e.port, e.sender);
      var machine := Connecting(if e.cached then WaitAnswer
        else WaitArp, e.sender, e.ip, e.port, CONN_ID, e.now + CONNECT_TIMEOUT);
      if !ok then (s, [Told(e.sender, OP_CONNECT, CONNECT_FAILED)])
      else if e.cached && !e.sent then (s.(conn := ZEROED), [Told(e.sender, OP_CONNECT, CONNECT_FAILED)])
      else (s.(sm := machine, conn := if e.cached then SynOut(c) else c), [])
  }

  /** The ping half of handle_arp_packet. */
  function PingArp(s: State, e: Event): (State, seq<Reply>)
    requires e.ArpIn?
  {
    if s.ping.stage == WaitArp && e.pingCached then
      var p := s.ping.(seq_ := (s.ping.seq_ + 1) % U16);
      if e.pingSent then (s.(ping := p.(stage := WaitAnswer, sentNs := e.now)), [])
      else (s.(ping := p.(stage := Idle)), [Told(p.sender, OP_PING, PING_FAILED)])
    else (s, [])
  }

  /** Its TCP half. */
  function ConnectArp(s: State, e: Event): (State, seq<Reply>)
    requires e.ArpIn?
  {
    if s.sm.stage == WaitArp && e.smCached then
      if e.smSent then (s.(sm := s.sm.(stage := WaitAnswer), conn := SynOut(s.conn)), [])
      else (s.(sm := s.sm.(stage := Idle), conn := ZEROED), [Told(s.sm.sender, OP_CONNECT, CONNECT_FAILED)])
    else (s, [])
  }

  function EchoId(payload: seq<Byte>): nat { if |payload| >= 6 then Be16(payload[4], payload[5]) else 0 }
  function EchoSeq(payload: seq<Byte>): nat { if |payload| >= 8 then Be16(payload[6], payload[7]) else 0 }

  /** The echo-reply arm of handle_icmp_packet. */
  function OnIcmp(s: State, e: Event): (State, seq<Reply>)
    requires e.IcmpIn?
  {
    var p := s.ping;
    if |e.payload| > 0 && e.payload[0] == 0 && p.stage == WaitAnswer && EchoId(e.payload) == p.id
      && EchoSeq(e.payload) == p.seq_ then
      (s.(ping := p.(stage := Idle)),
        [Told(p.sender, OP_PING, (if e.now >= p.sentNs then e.now - p.sentNs else 0) / 1_000_000)])
    else (s, [])
  }

  /** handle_tcp_incoming. */
  function OnTcp(s: State, e: Event): (State, seq<Reply>)
    requires e.TcpIn?
  {
    var (c, event) := HandleSegment(s.conn, e.srcIp, e.buf);
    var idle := s.sm.(stage := Idle);
    match event
    case None => (s.(conn := c), [])
    case Some(Opened) =>
      if s.sm.stage == WaitAnswer then (s.(conn := c, sm := idle), [Told(s.sm.sender, OP_CONNECT, s.sm.connId)])
      else (s.(conn := c), [])
    case Some(DataReceived) => (s.(conn := c), [])
    case Some(Reset) =>
      if s.sm.stage == WaitAnswer
        then (s.(conn := ZEROED, sm := idle), [Told(s.sm.sender, OP_CONNECT, CONNECT_FAILED)])
      else (s.(conn := ZEROED), [])
    case Some(PeerClosed) => (s.(conn := ZEROED), [])
  }

  /** check_pending_deadlines, first half. */
  function PingTick(s: State, now: nat): (State, seq<Reply>) {
    if s.ping.stage != Idle && now >= s.ping.deadline then
      (s.(ping := s.ping.(stage := Idle)), [Told(s.ping.sender, OP_PING, PING_FAILED)])
    else (s, [])
  }

  /** Its second half. */
  function ConnectTick(s: State, now: nat): (State, seq<Reply>) {
    if s.sm.stage != Idle && now >= s.sm.deadline then
      (s.(sm := s.sm.(stage := Idle), conn := ZEROED), [Told(s.sm.sender, OP_CONNECT, CONNECT_FAILED)])
    else (s, [])
  }

  function OnTick(s: State, now: nat): (State, seq<Reply>) {
    var (s1, r1) := PingTick(s, now);
    var (s2, r2) := ConnectTick(s1, now);
    (s2, r1 + r2)
  }

  /** OP_NET_TCP_RECV: the first bytes received, and the buffer is empty. */
  function OnRecv(s: State, sender: nat): (State, seq<Reply>) {
    var n := Min(|s.conn.rx|, RECV_MAX);
    if s.conn.rx == [] then (s, [Told(sender, OP_RECV, NO_DATA)])
    else (s.(conn := s.conn.(rx := [])), [Reply(sender, OP_RECV, n, s.conn.rx[..n])])
  }

  function Step(s: State, e: Event): (State, seq<Reply>) {
    match e
    case Ping(_, _, _, _, _) => OnPing(s, e)
    case Connect(_, _, _, _, _, _) => OnConnect(s, e)
    case Close(sender) => (s.(conn := ZEROED), [Told(sender, OP_CLOSE, 0)])
    case Recv(sender) => OnRecv(s, sender)
    case ArpIn(_, _, _, _, _) =>
      var (s1, r1) := PingArp(s, e);
      var (s2, r2) := ConnectArp(s1, e);
      (s2, r1 + r2)
    case IcmpIn(_, _) => OnIcmp(s, e)
    case TcpIn(_, _) => OnTcp(s, e)
    case Tick(now) => OnTick(s, now)
  }

  /** A run from start-up: the state reached and every reply sent. */
  function Run(events: seq<Event>): (State, seq<Reply>) {
    if events == [] then (Initial(), [])
    else
      var (s, rs) := Run(events[..|events| - 1]);
      var (s', r) := Step(s, events[|events| - 1]);
      (s', rs + r)
  }

  // ---------------------------------------------------------------- every request, exactly one reply

  /** 1 if the event is a request for `op` by process p. */
  function Asking(e: Event, op: nat, p: nat): nat {
    if ((e.Ping? && op == OP_PING) || (e.Connect? && op == OP_CONNECT)) && e.sender == p then 1 else 0
  }

  function Asked(events: seq<Event>, op: nat, p: nat): nat {
    if events == [] then 0 else Asked(events[..|events| - 1], op, p) + Asking(events[|events| - 1], op, p)
  }

  function Answers(r: Reply, op: nat, p: nat): nat { if r.op == op && r.dest == p then 1 else 0 }

  /** How many replies to `op` process p was sent. */
  function Answered(rs: seq<Reply>, op: nat, p: nat): nat {
    if rs == [] then 0 else Answered(rs[..|rs| - 1], op, p) + Answers(rs[|rs| - 1], op, p)
  }

  /** Who has the one request of a kind that is still waiting. */
  function Waiter(s: State, op: nat): Option<nat> {
    if op == OP_PING && s.ping.stage != Idle then Some(s.ping.sender)
    else if op == OP_CONNECT && s.sm.stage != Idle then Some(s.sm.sender)
    else None
  }

  function Waiting(s: State, op: nat, p: nat): nat { if Waiter(s, op) == Some(p) then 1 else 0 }

  lemma {:induction false} AnsweredJoin(a: seq<Reply>, b: seq<Reply>, op: nat, p: nat)
    ensures Answered(a + b, op, p) == Answered(a, op, p) + Answered(b, op, p)
    decreases |b|
  {
    if b == [] {
      assert a + b == a;
    } else {
      var ab := a + b;
      assert ab[..|ab| - 1] == a + b[..|b| - 1];
      AnsweredJoin(a, b[..|b| - 1], op, p);
    }
  }

  /** One handler answers or keeps waiting exactly what was waiting or is newly asked. */
  ghost predicate Conserves(s: State, r: (State, seq<Reply>), op: nat, p: nat, asking: nat) {
    Answered(r.1, op, p) + Waiting(r.0, op, p) == Waiting(s, op, p) + asking
  }

  lemma AnsweredFew(rs: seq<Reply>, op: nat, p: nat)
    requires |rs| <= 1
    ensures Answered(rs, op, p) == if |rs| == 1 then Answers(rs[0], op, p) else 0
  {
    if |rs| == 1 { assert rs[..0] == []; }
  }

  lemma BothConserve(s: State, mid: (State, seq<Reply>), end: (State, seq<Reply>), op: nat, p: nat)
    requires Conserves(s, mid, op, p, 0) && Conserves(mid.0, end, op, p, 0)
    ensures Conserves(s, (end.0, mid.1 + end.1), op, p, 0)
  {
    AnsweredJoin(mid.1, end.1, op, p);
  }

  lemma PingArpConserves(s: State, e: Event, op: nat, p: nat)
    requires (op == OP_PING || op == OP_CONNECT) && e.ArpIn?
    ensures Conserves(s, PingArp(s, e), op, p, 0)
  {
    AnsweredFew(PingArp(s, e).1, op, p);
  }

  lemma ConnectArpConserves(s: State, e: Event, op: nat, p: nat)
    requires (op == OP_PING || op == OP_CONNECT) && e.ArpIn?
    ensures Conserves(s, ConnectArp(s, e), op, p, 0)
  {
    AnsweredFew(ConnectArp(s, e).1, op, p);
  }

  lemma TickConserves(s: State, now: nat, op: nat, p: nat)
    requires op == OP_PING || op == OP_CONNECT
    ensures Conserves(s, PingTick(s, now), op, p, 0) && Conserves(s, ConnectTick(s, now), op, p, 0)
  {
    AnsweredFew(PingTick(s, now).1, op, p);
    AnsweredFew(ConnectTick(s, now).1, op, p);
  }

  lemma StepConserves(s: State, e: Event, op: nat, p: nat)
    requires op == OP_PING || op == OP_CONNECT
    ensures Conserves(s, Step(s, e), op, p, Asking(e, op, p))
  {
    match e
    case Tick(now) =>
      TickConserves(s, now, op, p);
      TickConserves(PingTick(s, now).0, now, op, p);
      BothConserve(s, PingTick(s, now), ConnectTick(PingTick(s, now).0, now), op, p);
    case ArpIn(_, _, _, _, _) =>
      PingArpConserves(s, e, op, p);
      ConnectArpConserves(PingArp(s, e).0, e, op, p);
      BothConserve(s, PingArp(s, e), ConnectArp(PingArp(s, e).0, e), op, p);
    case _ => AnsweredFew(Step(s, e).1, op, p);
  }

  /** Over every run, each ping and each connect request has had exactly one reply, to the process that
      sent it, except the single one still waiting. */
  lemma {:induction false} EveryRequestAnsweredOnce(events: seq<Event>, op: nat, p: nat)
    requires op == OP_PING || op == OP_CONNECT
    ensures Asked(events, op, p) == Answered(Run(events).1, op, p) + if Waiter(Run(events).0, op) == Some(p) then 1
      else 0
    decreases |events|
  {
    if events != [] {
      var past, e := events[..|events| - 1], events[|events| - 1];
      EveryRequestAnsweredOnce(past, op, p);
      StepConserves(Run(past).0, e, op, p);
      AnsweredJoin(Run(past).1, Step(Run(past).0, e).1, op, p);
    }
  }

  // ---------------------------------------------------------------- what every reachable state satisfies

  /** The connection is never seen half closed; a SYN on its way has a machine waiting for it; and while
      the machine waits, an open connection is the one it asked for. */
  ghost predicate Inv(s: State) {
    && (s.conn.state == Closed || s.conn.state == SynSent || s.conn.state == Established)
    && (s.conn.state == SynSent ==> s.sm.stage != Idle)
    && (s.sm.stage != Idle ==> s.sm.connId == CONN_ID)
    && (s.sm.stage != Idle && s.conn.state != Closed ==>
          s.conn.owner == s.sm.sender && s.conn.remoteIp == s.sm.dstIp && s.conn.remotePort == s.sm.dstPort
            && s.conn.connId == CONN_ID)
    && |s.conn.rx| <= RX_MAX
  }

  lemma StepKeepsInv(s: State, e: Event)
    requires Inv(s)
    ensures Inv(Step(s, e).0)
  {
    if e.TcpIn? {
      var (c, event) := HandleSegment(s.conn, e.srcIp, e.buf);
      assert c.owner == s.conn.owner && c.remoteIp == s.conn.remoteIp && c.remotePort == s.conn.remotePort
        && c.connId == s.conn.connId;
    }
  }

  lemma {:induction false} RunKeepsInv(events: seq<Event>)
    ensures Inv(Run(events).0)
    decreases |events|
  {
    if events != [] {
      RunKeepsInv(events[..|events| - 1]);
      StepKeepsInv(Run(events[..|events| - 1]).0, events[|events| - 1]);
    }
  }

  /** A connect reply tells the truth: success goes out as the connection opens, to its owner; failure of
      the waiting request leaves no connection behind. */
  lemma ConnectReplies(s: State, e: Event, i: nat)
    requires Inv(s) && i < |Step(s, e).1| && Step(s, e).1[i].op == OP_CONNECT
    ensures var (s', rs) := Step(s, e);
      && (rs[i].result == CONN_ID || rs[i].result == CONNECT_FAILED)
      && (rs[i].result == CONN_ID ==>
            s.conn.state == SynSent && s'.conn.state == Established && s'.conn.owner == rs[i].dest == s.sm.sender
              && s'.sm.stage == Idle)
      && (rs[i].result == CONNECT_FAILED && !e.Connect? ==>
        rs[i].dest == s.sm.sender && s'.conn.state == Closed && s'.sm.stage == Idle)
      && (e.Connect? ==> rs[i].dest == e.sender)
  {
  }

  /** An open connection can only have come from a SYN-ACK or have been open before. */
  lemma OnlySynAckOpens(s: State, e: Event)
    requires Inv(s) && Step(s, e).0.conn.state == Established && s.conn.state != Established
    ensures e.TcpIn? && s.conn.state == SynSent && |e.buf| >= 20 && e.srcIp == s.conn.remoteIp
    ensures Bit(e.buf[13], 2) && Bit(e.buf[13], 16)
  {
  }

  /** A ping answered with a round-trip time had its echo reply arrive, with the awaited id and sequence. */
  lemma PingTimesAreReal(s: State, e: Event, i: nat)
    requires i < |Step(s, e).1| && Step(s, e).1[i].op == OP_PING
    requires Step(s, e).1[i].result != PING_BUSY && Step(s, e).1[i].result != PING_FAILED
    ensures e.IcmpIn? && s.ping.stage == WaitAnswer && EchoId(e.payload) == s.ping.id
      && EchoSeq(e.payload) == s.ping.seq_
    ensures Step(s, e).1[i].dest == s.ping.sender && Step(s, e).0.ping.stage == Idle
  {
  }

  // ---------------------------------------------------------------- deadlines

  /** The latest moment the clock has shown. */
  function Clock(e: Event): Option<nat> {
    match e
    case Ping(_, _, now, _, _) => Some(now)
    case Connect(_, _, _, now, _, _) => Some(now)
    case ArpIn(_, _, _, _, now) => Some(now)
    case IcmpIn(_, now) => Some(now)
    case Tick(now) => Some(now)
    case _ => None
  }

  /** Nothing waits past the deadline set when it was accepted: two seconds for a ping, five for a connect. */
  ghost predicate Timely(s: State, now: nat) {
    && (s.ping.stage != Idle ==> s.ping.deadline <= now + PING_TIMEOUT)
    && (s.sm.stage != Idle ==> s.sm.deadline <= now + CONNECT_TIMEOUT)
  }

  lemma StepTimely(s: State, e: Event, now: nat)
    requires Timely(s, now) && (Clock(e).Some? ==> now <= Clock(e).value)
    ensures Timely(Step(s, e).0, if Clock(e).Some? then Clock(e).value else now)
  {
  }

  /** Whatever happened in between, a deadline check five seconds after any timely moment finds both
      machines of that moment done: each either was answered before or is answered now. */
  lemma TickFrees(s: State, t: nat, now: nat)
    requires Timely(s, t)
    ensures now >= t + PING_TIMEOUT ==> Step(s, Tick(now)).0.ping.stage == Idle
    ensures now >= t + CONNECT_TIMEOUT ==> Step(s, Tick(now)).0.sm.stage == Idle
  {
  }

  /** The last moment the clock has shown, 0 before the first. */
  function Latest(events: seq<Event>): nat {
    if events == [] then 0
    else
      var c := Clock(events[|events| - 1]);
      if c.Some? then c.value else Latest(events[..|events| - 1])
  }

  /** The clock never runs backwards. */
  ghost predicate Forward(events: seq<Event>) {
    events != [] ==>
      && Forward(events[..|events| - 1])
      && (Clock(events[|events| - 1]).Some? ==> Latest(events[..|events| - 1]) <= Clock(events[|events| - 1]).value)
  }

  lemma {:induction false} RunTimely(events: seq<Event>)
    requires Forward(events)
    ensures Timely(Run(events).0, Latest(events))
    decreases |events|
  {
    if events != [] {
      var past := events[..|events| - 1];
      RunTimely(past);
      StepTimely(Run(past).0, events[|events| - 1], Latest(past));
    }
  }

  /** A deadline check five seconds after the last event leaves no request unanswered. */
  lemma AllAnsweredInTime(events: seq<Event>, now: nat, op: nat, p: nat)
    requires Forward(events) && now >= Latest(events) + CONNECT_TIMEOUT && (op == OP_PING || op == OP_CONNECT)
    ensures var all := events + [Tick(now)];
      Asked(all, op, p) == Answered(Run(all).1, op, p)
  {
    var all := events + [Tick(now)];
    assert all[..|all| - 1] == events && all[|all| - 1] == Tick(now);
    RunTimely(events);
    TickFrees(Run(events).0, Latest(events), now);
    EveryRequestAnsweredOnce(all, op, p);
  }

  // ---------------------------------------------------------------- what waits, and since when

  /** The echo request of a ping leaves: at once, or when the address is resolved. */
  ghost predicate EchoLeaves(e: Event) {
    (e.Ping? && e.cached && e.sent) || (e.ArpIn? && e.pingCached && e.pingSent)
  }

  ghost predicate EchoLeft(e: Event, t: nat) { EchoLeaves(e) && e.now == t }

  /** The clock has not struck t in events i + 1, i + 2, ... */
  ghost predicate NoTickPast(events: seq<Event>, i: nat, t: nat) {
    forall j {:trigger events[j]} :: i < j < |events| && events[j].Tick? ==> events[j].now < t
  }

  /** Event i is the ping that p waits for: two seconds from then have not been struck, and the echo has left
      exactly when the address was known. */
  ghost predicate PingSince(events: seq<Event>, i: nat, p: Pinging) {
    && i < |events| && events[i].Ping? && p.sender == events[i].sender && p.target == events[i].ip
    && p.deadline == events[i].now + 2_000_000_000 && NoTickPast(events, i, p.deadline)
    && (p.stage == WaitArp ==>
          !events[i].cached && forall j {:trigger events[j]} :: i < j < |events| && events[j].ArpIn? ==>
            !events[j].pingCached)
    && (p.stage == WaitAnswer ==> exists k :: i <= k < |events| && EchoLeft(events[k], p.sentNs))
  }

  /** Event i is the connect that m waits for, with five seconds. */
  ghost predicate ConnectSince(events: seq<Event>, i: nat, m: Connecting) {
    && i < |events| && events[i].Connect? && m.sender == events[i].sender
    && m.dstIp == events[i].ip && m.dstPort == events[i].port
    && m.deadline == events[i].now + 5_000_000_000 && NoTickPast(events, i, m.deadline)
    && (m.stage == WaitArp ==>
          !events[i].cached && forall j {:trigger events[j]} :: i < j < |events| && events[j].ArpIn? ==>
            !events[j].smCached)
  }

  /** In every run, whatever the ping machine waits for was asked for, and its deadline is two seconds after
      that request. */
  lemma {:induction false} PingHistory(events: seq<Event>) returns (i: nat)
    requires Run(events).0.ping.stage != Idle
    ensures PingSince(events, i, Run(events).0.ping)
    decreases |events|
  {
    var past, e := events[..|events| - 1], events[|events| - 1];
    var s := Run(past).0;
    if s.ping.stage == Idle {
      i := |past|;
      assert events[i] == e && (e.cached ==> EchoLeft(events[i], e.now));
    } else {
      i := PingHistory(past);
      PingWaitsOn(past, e, i, s);
      assert past + [e] == events;
    }
  }

  lemma PingWaitsOn(past: seq<Event>, e: Event, i: nat, s: State)
    requires PingSince(past, i, s.ping) && s.ping.stage != Idle && Step(s, e).0.ping.stage != Idle
    ensures PingSince(past + [e], i, Step(s, e).0.ping)
  {
    var events, p := past + [e], Step(s, e).0.ping;
    assert forall j :: 0 <= j < |past| ==> events[j] == past[j];
    assert events[|past|] == e;
    if s.ping.stage == WaitAnswer {
      var k :| i <= k < |past| && EchoLeft(past[k], s.ping.sentNs);
      assert EchoLeft(events[k], p.sentNs);
    } else if p.stage == WaitAnswer {
      assert EchoLeft(events[|past|], p.sentNs);
    }
  }

  /** Likewise the connect machine, with five seconds. */
  lemma {:induction false} ConnectHistory(events: seq<Event>) returns (i: nat)
    requires Run(events).0.sm.stage != Idle
    ensures ConnectSince(events, i, Run(events).0.sm)
    decreases |events|
  {
    var past, e := events[..|events| - 1], events[|events| - 1];
    var s := Run(past).0;
    if s.sm.stage == Idle {
      i := |past|;
      assert events[i] == e;
    } else {
      i := ConnectHistory(past);
      ConnectWaitsOn(past, e, i, s);
      assert past + [e] == events;
    }
  }

  lemma ConnectWaitsOn(past: seq<Event>, e: Event, i: nat, s: State)
    requires ConnectSince(past, i, s.sm) && s.sm.stage != Idle && Step(s, e).0.sm.stage != Idle
    ensures ConnectSince(past + [e], i, Step(s, e).0.sm)
  {
    var events := past + [e];
    assert forall j :: 0 <= j < |past| ==> events[j] == past[j];
    assert events[|past|] == e;
  }

  /** So the clock fails no request early: the one it fails was made two seconds before, five for a connect. */
  lemma NoEarlyFailure(events: seq<Event>, now: nat, r: Reply)
    requires r in Step(Run(events).0, Tick(now)).1
    ensures r.op == OP_PING || r.op == OP_CONNECT
    ensures r.op == OP_PING ==>
      exists i :: 0 <= i < |events| && events[i].Ping? && events[i].sender == r.dest
        && now >= events[i].now + 2_000_000_000
    ensures r.op == OP_CONNECT ==>
      exists i :: 0 <= i < |events| && events[i].Connect? && events[i].sender == r.dest
        && now >= events[i].now + 5_000_000_000
  {
    var s := Run(events).0;
    var s1 := PingTick(s, now).0;
    assert r in PingTick(s, now).1 || r in ConnectTick(s1, now).1;
    if r in PingTick(s, now).1 {
      var i := PingHistory(events);
    } else {
      var i := ConnectHistory(events);
    }
  }

  /** And fails every one that is late: exactly the waiting requests whose time is up are answered, each with
      its failure code. */
  lemma LateExactly(s: State, now: nat, r: Reply)
    ensures r in Step(s, Tick(now)).1 <==>
      || (s.ping.stage != Idle && now >= s.ping.deadline && r == Told(s.ping.sender, OP_PING, 0xFFFF))
      || (s.sm.stage != Idle && now >= s.sm.deadline && r == Told(s.sm.sender, OP_CONNECT, 0xFF))
  {
    var r1, r2 := PingTick(s, now).1, ConnectTick(PingTick(s, now).0, now).1;
    assert Step(s, Tick(now)).1 == r1 + r2;
  }

  // ---------------------------------------------------------------- what is taken on, and what answers it

  /** A ping is taken on exactly when none waits and its packet, if it is due at once, could be sent;
      otherwise the sender is told which of the two it was. */
  lemma PingTakenOn(s: State, e: Event)
    requires e.Ping?
    ensures var (s', rs) := Step(s, e);
      && (rs == [] <==> s.ping.stage == Idle && (e.cached ==> e.sent))
      && (rs == [] ==> s'.ping.stage == if e.cached then WaitAnswer else WaitArp)
      && (rs != [] ==>
            && s'.ping.stage == s.ping.stage
            && rs == [Told(e.sender, OP_PING, if s.ping.stage == Idle then 0xFFFF else 0xFFFE)])
      && s'.sm == s.sm && s'.conn == s.conn
  {
  }

  /** A connect is taken on exactly when none waits, no connection is in use and its SYN, if it is due at once,
      could be sent; a refusal leaves a connection in use as it is. */
  lemma ConnectTakenOn(s: State, e: Event)
    requires Inv(s) && e.Connect?
    ensures var (s', rs) := Step(s, e);
      && (rs == [] <==> s.sm.stage == Idle && s.conn.state == Closed && (e.cached ==> e.sent))
      && (rs == [] ==>
            && s'.sm.stage == (if e.cached then WaitAnswer else WaitArp) && s'.conn.state == SynSent
            && s'.conn.seq_ == if e.cached then INITIAL_SEQ + 1 else INITIAL_SEQ)
      && (rs != [] ==>
            && rs == [Told(e.sender, OP_CONNECT, 0xFF)] && s'.sm == s.sm
            && (s.conn.state != Closed ==> s'.conn == s.conn) && (s.sm.stage == Idle ==> s'.conn.state == s.conn.state))
      && s'.ping == s.ping
  {
  }

  /** Once the address of a waiting request is known its packet goes out, and the machine waits for the answer
      or, if the packet could not be sent, says so. */
  lemma ArpExactly(s: State, e: Event)
    requires e.ArpIn?
    ensures var (s', rs) := Step(s, e);
      var ping, connect := s.ping.stage == WaitArp && e.pingCached, s.sm.stage == WaitArp && e.smCached;
      && s'.ping.stage == (if !ping then s.ping.stage else if e.pingSent then WaitAnswer else Idle)
      && s'.sm.stage == (if !connect then s.sm.stage else if e.smSent then WaitAnswer else Idle)
      && (Told(s.ping.sender, OP_PING, 0xFFFF) in rs <==> ping && !e.pingSent)
      && (Told(s.sm.sender, OP_CONNECT, 0xFF) in rs <==> connect && !e.smSent)
      && |rs| == (if ping && !e.pingSent then 1 else 0) + (if connect && !e.smSent then 1 else 0)
  {
    var r1, r2 := PingArp(s, e).1, ConnectArp(PingArp(s, e).0, e).1;
    assert Step(s, e).1 == r1 + r2;
  }

  /** An echo reply is the answer exactly when one is awaited and it carries the awaited identifier and
      sequence number; the requester is told the milliseconds since the request left. */
  lemma EchoAnswersExactly(s: State, payload: seq<Byte>, now: nat)
    requires |payload| >= 8
    ensures var (s', rs) := Step(s, IcmpIn(payload, now));
      var match_ := payload[0] == 0 && s.ping.stage == WaitAnswer
        && Be16(payload[4], payload[5]) == s.ping.id && Be16(payload[6], payload[7]) == s.ping.seq_;
      && (match_ ==> s'.ping.stage == Idle && |rs| == 1 && rs[0].dest == s.ping.sender && rs[0].op == OP_PING)
      && (match_ && now >= s.ping.sentNs ==>
            rs[0].result * 1_000_000 <= now - s.ping.sentNs < (rs[0].result + 1) * 1_000_000)
      && (!match_ ==> s' == s && rs == [])
  {
  }

  /** r's time counts from event k, when the echo of ping i left. */
  ghost predicate Timed(events: seq<Event>, r: Reply, now: nat, i: nat, k: nat) {
    && i <= k < |events| && events[i].Ping? && events[i].sender == r.dest
    && EchoLeaves(events[k])
    && (now >= events[k].now ==>
          r.result * 1_000_000 <= now - events[k].now < (r.result + 1) * 1_000_000)
  }

  /** So in every run an answered ping was asked for, and the time told is that since its echo left. */
  lemma PingTimed(events: seq<Event>, payload: seq<Byte>, now: nat)
    requires |payload| >= 8 && Step(Run(events).0, IcmpIn(payload, now)).1 != []
    ensures exists i: nat, k: nat :: Timed(events, Step(Run(events).0, IcmpIn(payload, now)).1[0], now, i, k)
  {
    var s := Run(events).0;
    EchoAnswersExactly(s, payload, now);
    var i := PingHistory(events);
    var k :| i <= k < |events| && EchoLeft(events[k], s.ping.sentNs);
    assert Timed(events, Step(s, IcmpIn(payload, now)).1[0], now, i, k);
  }

  /** 1 if the event makes the server build an echo request. */
  function Attempt(s: State, e: Event): nat {
    if (e.Ping? && s.ping.stage == Idle && e.cached) || (e.ArpIn? && s.ping.stage == WaitArp && e.pingCached) then 1
    else 0
  }

  function Attempts(events: seq<Event>): nat {
    if events == [] then 0
    else
      var past := events[..|events| - 1];
      Attempts(past) + Attempt(Run(past).0, events[|events| - 1])
  }

  /** The sequence number counts the echo requests built, in 16 bits, and the identifier never changes. */
  lemma {:induction false} SeqCounts(events: seq<Event>)
    ensures Run(events).0.ping.seq_ == Attempts(events) % U16 && Run(events).0.ping.id == 0xBEEF
    decreases |events|
  {
    if events != [] {
      var past := events[..|events| - 1];
      SeqCounts(past);
      SeqSteps(Run(past).0, events[|events| - 1]);
      Advanced(Run(past).0.ping.seq_, Attempts(past), Attempt(Run(past).0, events[|events| - 1]));
    }
  }

  lemma SeqSteps(s: State, e: Event)
    requires s.ping.seq_ < U16
    ensures Step(s, e).0.ping.id == s.ping.id
    ensures Step(s, e).0.ping.seq_ == if Attempt(s, e) == 1 then (s.ping.seq_ + 1) % U16 else s.ping.seq_
  {
  }

  lemma Advanced(q: nat, n: nat, k: nat)
    requires q == n % U16 && k <= 1
    ensures (if k == 1 then (q + 1) % U16 else q) == (n + k) % U16
  {
  }

  /** So the answer to one echo is not taken for that to another built up to 65535 echoes later. */
  lemma StaleEchoIgnored(events: seq<Event>, more: seq<Event>, payload: seq<Byte>, now: nat)
    requires |payload| >= 8 && Be16(payload[6], payload[7]) == Run(events).0.ping.seq_
    requires Attempts(events) < Attempts(events + more) < Attempts(events) + U16
    ensures Step(Run(events + more).0, IcmpIn(payload, now)) == (Run(events + more).0, [])
  {
    SeqCounts(events);
    SeqCounts(events + more);
    Apart(Attempts(events), Attempts(events + more));
    EchoAnswersExactly(Run(events + more).0, payload, now);
  }

  lemma Apart(a: nat, b: nat)
    requires a < b < a + U16
    ensures a % U16 != b % U16
  {
    var q := a / U16;
    assert q <= b / U16 <= q + 1;
  }

  // ---------------------------------------------------------------- two things a reader might not expect

  /** Closing drops the connection but not the machine: the next connect is taken on exactly when none was
      waiting (and its own packet, if any is due, could be sent). */
  lemma CloseLeavesMachine(s: State, closer: nat, e: Event)
    requires e.Connect?
    ensures var s' := Step(s, Close(closer)).0;
      && s'.conn.state == Closed && s'.sm == s.sm
      && (Step(s', e).1 == [] <==> s.sm.stage == Idle && (e.cached ==> e.sent))
      && (s.sm.stage != Idle ==> Step(s', e) == (s', [Told(e.sender, OP_CONNECT, CONNECT_FAILED)]))
  {
  }

  /** A machine waits for a connection that was closed. */
  predicate Orphaned(s: State) { s.conn.state == Closed && s.sm.stage != Idle }

  /** From then on its requester can only be told that the connect failed, by its deadline or for want of a
      packet buffer, and never by the peer's answer. */
  lemma OrphanFails(s: State, e: Event)
    requires Orphaned(s)
    ensures var (s', rs) := Step(s, e);
      && s'.conn.state == Closed && Told(s.sm.sender, OP_CONNECT, CONN_ID) !in rs
      && (if s'.sm.stage == Idle then Told(s.sm.sender, OP_CONNECT, CONNECT_FAILED) in rs && (e.Tick? || e.ArpIn?)
          else s'.sm.sender == s.sm.sender && Orphaned(s'))
  {
    if e.Tick? { assert OnTick(s, e.now).1 == PingTick(s, e.now).1 + ConnectTick(PingTick(s, e.now).0, e.now).1; }
  }

  /** The answer to a SYN-ACK that no machine awaits, marked as impossible in the source, is sent exactly
      when the SYN-ACK comes before the address is resolved. */
  lemma FallbackReached(s: State, e: Event)
    requires Inv(s) && e.TcpIn? && HandleSegment(s.conn, e.srcIp, e.buf).1 == Some(Opened)
    ensures s.sm.stage != WaitAnswer <==> s.sm.stage == WaitArp
    ensures s.sm.stage == WaitArp ==>
      Step(s, e).1 == [] && Step(s, e).0.conn.state == Established && Step(s, e).0.sm == s.sm
  {
  }

  /** A SYN-ACK from port 80 to the local port. */
  function SynAck(): (buf: seq<Byte>)
    ensures |buf| == 20
  {
    [0, 80, 0xC0, 0, 0, 0, 0, 9, 0, 0, 0, 7, 0x50, 0x12, 0xFF, 0xFF, 0, 0, 0, 0]
  }

  /** It does happen: a SYN-ACK before the address is resolved opens the connection without telling the
      requester, who is told at the deadline that the connect failed, and the connection is dropped. */
  lemma FallbackHappens(sender: nat, ip: nat, now: nat)
    requires now >= CONNECT_TIMEOUT
    ensures var early := [Connect(sender, ip, 80, 0, false, false)] + [TcpIn(ip, SynAck())];
      && Run(early).0.conn.state == Established && Run(early).0.sm.stage == WaitArp && Run(early).1 == []
      && Run(early + [Tick(now)]).1 == [Told(sender, OP_CONNECT, CONNECT_FAILED)]
        && Run(early + [Tick(now)]).0.conn == ZEROED
  {
    var e1, e2 := Connect(sender, ip, 80, 0, false, false), TcpIn(ip, SynAck());
    assert Run([]) == (Initial(), []) && [] + [e1] == [e1];
    RunNext([], e1);
    RunNext([e1], e2);
    RunNext([e1] + [e2], Tick(now));
    FallbackSteps(sender, ip, now);
  }

  lemma FallbackSteps(sender: nat, ip: nat, now: nat)
    requires now >= CONNECT_TIMEOUT
    ensures var (s1, r1) := Step(Initial(), Connect(sender, ip, 80, 0, false, false));
      var (s2, r2) := Step(s1, TcpIn(ip, SynAck()));
      var (s3, r3) := Step(s2, Tick(now));
      && r1 == [] && r2 == [] && s2.conn.state == Established && s2.sm.stage == WaitArp
      && r3 == [Told(sender, OP_CONNECT, CONNECT_FAILED)] && s3.conn == ZEROED
  {
    var s1 := Step(Initial(), Connect(sender, ip, 80, 0, false, false)).0;
    assert s1.conn == Conn(SynSent, LOCAL_PORT, 80, ip, INITIAL_SEQ, 0, CONN_ID, sender, []);
    SynAckParses();
    var g := Parse(SynAck()).value;
    assert OnSegment(s1.conn, ip, g) ==
      (s1.conn.(ack := After(g.seqNum, 1), seq_ := g.ackNum, state := Established), Some(Opened));
  }

  lemma SynAckParses()
    ensures var g := Parse(SynAck());
      g.Some? && g.value.srcPort == 80 && g.value.dstPort == LOCAL_PORT && g.value.syn && g.value.ack
  {
    assert Be16(0, 80) == 80 && Be16(0xC0, 0) == LOCAL_PORT;
  }

  lemma RunNext(past: seq<Event>, e: Event)
    ensures Run(past + [e]) == (Step(Run(past).0, e).0, Run(past).1 + Step(Run(past).0, e).1)
  {
    var all := past + [e];
    assert all[..|all| - 1] == past;
  }

  // ---------------------------------------------------------------- the server in place

  class Server {
    var pending: Pinging
    var tcpSm: Connecting
    var tcpConn: Conn
    /** Replies sent so far. */
    ghost var sent: seq<Reply>

    ghost function Now(): State
      reads this
    {
      State(pending, tcpSm, tcpConn)
    }

    /** What a handler owes: the state and the replies of its step. */
    twostate predicate Did(r: (State, seq<Reply>))
      reads this
    {
      Now() == r.0 && sent == old(sent) + r.1
    }

    constructor ()
      ensures Now() == Initial() && sent == []
    {
      pending := Pinging(Idle, 0, 0, 0, 0xBEEF, 0, 0);
      tcpSm := Connecting(Idle, 0, 0, 0, 0, 0);
      tcpConn := ZEROED;
      sent := [];
    }

    method ReplyData(dest: nat, op: nat, result: nat)
      modifies `sent
      ensures sent == old(sent) + [Told(dest, op, result)]
    {
      sent := sent + [Told(dest, op, result)];
    }

    /** handle_ping. */
    method HandlePing(sender: nat, ip: nat, now: nat, cached: bool, packetSent: bool)
      modifies this
      ensures Did(OnPing(old(Now()), Ping(sender, ip, now, cached, packetSent)))
    {
      if pending.stage != Idle {
        ReplyData(sender, OP_PING, PING_BUSY);
        return;
      }
      var deadline := now + PING_TIMEOUT;
      if cached {
        pending := pending.(seq_ := (pending.seq_ + 1) % U16);
        if !packetSent {
          ReplyData(sender, OP_PING, PING_FAILED);
          return;
        }
        pending := pending.(stage := WaitAnswer, sender := sender, target := ip, deadline := deadline, sentNs := now);
        return;
      }
      pending := pending.(stage := WaitArp, sender := sender, target := ip, deadline := deadline);
    }

    /** tcp_connect. */
    method TcpConnect(ip: nat, port: nat, owner: nat) returns (connId: nat)
      modifies `tcpConn
      ensures connId == if OpenConn(old(tcpConn), ip, port, owner).1 then CONN_ID else CONNECT_FAILED
      ensures tcpConn == OpenConn(old(tcpConn), ip, port, owner).0
    {
      if tcpConn.state != Closed { return CONNECT_FAILED; }
      tcpConn := tcpConn.(state := SynSent, remoteIp := ip, remotePort := port, localPort := LOCAL_PORT);
      tcpConn := tcpConn.(seq_ := INITIAL_SEQ, ack := 0, connId := CONN_ID, owner := owner, rx := []);
      connId := CONN_ID;
    }

    /** handle_tcp_connect. */
    method HandleTcpConnect(sender: nat, ip: nat, port: nat, now: nat, cached: bool, packetSent: bool)
      modifies this
      ensures Did(OnConnect(old(Now()), Connect(sender, ip, port, now, cached, packetSent)))
    {
      if tcpSm.stage != Idle {
        ReplyData(sender, OP_CONNECT, CONNECT_FAILED);
        return;
      }
      var connId := TcpConnect(ip, port, sender);
      if connId == CONNECT_FAILED {
        ReplyData(sender, OP_CONNECT, CONNECT_FAILED);
        return;
      }
      var deadline := now + CONNECT_TIMEOUT;
      if cached {
        tcpConn := SynOut(tcpConn);
        if packetSent {
          tcpSm := Connecting(WaitAnswer, sender, ip, port, connId, deadline);
        } else {
          tcpConn := ZEROED;
          ReplyData(sender, OP_CONNECT, CONNECT_FAILED);
        }
        return;
      }
      tcpSm := Connecting(WaitArp, sender, ip, port, connId, deadline);
    }

    /** handle_tcp_close and its reply. */
    method HandleTcpClose(sender: nat)
      modifies this
      ensures Did(Step(old(Now()), Close(sender)))
    {
      if tcpConn.state == Established {
        tcpConn := tcpConn.(seq_ := (tcpConn.seq_ + 1) % U32, state := FinWait1);
      }
      tcpConn := ZEROED;
      ReplyData(sender, OP_CLOSE, 0);
    }

    /** The OP_NET_TCP_RECV arm of handle_ipc. */
    method HandleTcpRecv(sender: nat)
      modifies this
      ensures Did(OnRecv(old(Now()), sender))
    {
      if |tcpConn.rx| > 0 {
        var copyLen := Min(|tcpConn.rx|, RECV_MAX);
        sent := sent + [Reply(sender, OP_RECV, copyLen, tcpConn.rx[..copyLen])];
        tcpConn := tcpConn.(rx := []);
      } else {
        ReplyData(sender, OP_RECV, NO_DATA);
      }
    }

    /** handle_arp_packet, after the cache has taken the sender in. */
    method HandleArp(pingCached: bool, pingSent: bool, smCached: bool, smSent: bool, now: nat)
      modifies this
      ensures Did(Step(old(Now()), ArpIn(pingCached, pingSent, smCached, smSent, now)))
    {
      if pending.stage == WaitArp && pingCached {
        pending := pending.(seq_ := (pending.seq_ + 1) % U16);
        if pingSent {
          pending := pending.(stage := WaitAnswer, sentNs := now);
        } else {
          pending := pending.(stage := Idle);
          ReplyData(pending.sender, OP_PING, PING_FAILED);
        }
      }
      if tcpSm.stage == WaitArp && smCached { TcpSmOnArpResolved(smSent); }
    }

    /** tcp_sm_on_arp_resolved. */
    method TcpSmOnArpResolved(smSent: bool)
      requires tcpSm.stage == WaitArp
      modifies this
      ensures Did(ConnectArp(old(Now()), ArpIn(false, false, true, smSent, 0)))
    {
      tcpConn := SynOut(tcpConn);
      if smSent {
        tcpSm := tcpSm.(stage := WaitAnswer);
      } else {
        tcpSm := tcpSm.(stage := Idle);
        tcpConn := ZEROED;
        ReplyData(tcpSm.sender, OP_CONNECT, CONNECT_FAILED);
      }
    }

    /** The echo-reply arm of handle_icmp_packet. */
    method HandleIcmp(payload: seq<Byte>, now: nat)
      modifies this
      ensures Did(OnIcmp(old(Now()), IcmpIn(payload, now)))
    {
      if |payload| == 0 || payload[0] != 0 || pending.stage != WaitAnswer { return; }
      var id := if |payload| >= 6 then Be16(payload[4], payload[5]) else 0;
      var seq_ := if |payload| >= 8 then Be16(payload[6], payload[7]) else 0;
      if id == pending.id && seq_ == pending.seq_ {
        var rtt := (if now >= pending.sentNs then now - pending.sentNs else 0) / 1_000_000;
        pending := pending.(stage := Idle);
        ReplyData(pending.sender, OP_PING, rtt);
      }
    }

    /** handle_tcp: updates the connection in place. */
    method HandleTcp(srcIp: nat, buf: seq<Byte>) returns (event: Option<TcpEvent>)
      modifies `tcpConn
      ensures (tcpConn, event) == HandleSegment(old(tcpConn), srcIp, buf)
    {
      var parsed := Parse(buf);
      if parsed.None? { return None; }
      event := ApplySegment(srcIp, parsed.value);
    }

    method ApplySegment(srcIp: nat, g: Segment) returns (event: Option<TcpEvent>)
      modifies `tcpConn
      ensures (tcpConn, event) == OnSegment(old(tcpConn), srcIp, g)
    {
      if tcpConn.state == Closed || tcpConn.remoteIp != srcIp { return None; }
      if tcpConn.remotePort != g.srcPort || tcpConn.localPort != g.dstPort { return None; }
      match tcpConn.state {
      case SynSent =>
        if g.syn && g.ack {
          tcpConn := tcpConn.(ack := After(g.seqNum, 1));
          tcpConn := tcpConn.(seq_ := g.ackNum);
          tcpConn := tcpConn.(state := Established);
          return Some(Opened);
        }
        if g.rst {
          tcpConn := tcpConn.(state := Closed);
          return Some(Reset);
        }
      case Established =>
        if g.rst {
          tcpConn := tcpConn.(state := Closed);
          return Some(Reset);
        }
        if g.fin {
          tcpConn := tcpConn.(ack := After(g.seqNum, 1), state := CloseWait);
          return Some(PeerClosed);
        }
        if g.payload != [] {
          tcpConn := tcpConn.(rx := Received(tcpConn.rx, g.payload));
          tcpConn := tcpConn.(ack := After(tcpConn.ack, |g.payload|));
          return Some(DataReceived);
        }
      case FinWait1 =>
        if (g.ack && g.fin) || g.fin {
          tcpConn := tcpConn.(ack := After(g.seqNum, 1), state := Closed);
          return Some(PeerClosed);
        }
      case _ =>
      }
      event := None;
    }

    /** handle_tcp_incoming with tcp_sm_on_established and tcp_sm_on_reset. */
    method HandleTcpIncoming(srcIp: nat, buf: seq<Byte>)
      modifies this
      ensures Did(OnTcp(old(Now()), TcpIn(srcIp, buf)))
    {
      var event := HandleTcp(srcIp, buf);
      match event
      case Some(Opened) =>
        if tcpSm.stage == WaitAnswer {
          tcpSm := tcpSm.(stage := Idle);
          ReplyData(tcpSm.sender, OP_CONNECT, tcpSm.connId);
        }
      case Some(Reset) =>
        tcpConn := ZEROED;
        if tcpSm.stage == WaitAnswer {
          tcpSm := tcpSm.(stage := Idle);
          ReplyData(tcpSm.sender, OP_CONNECT, CONNECT_FAILED);
        }
      case Some(PeerClosed) => tcpConn := ZEROED;
      case Some(DataReceived) =>
      case None =>
    }

    /** check_pending_deadlines. */
    method CheckPendingDeadlines(now: nat)
      modifies this
      ensures Did(OnTick(old(Now()), now))
    {
      if pending.stage != Idle && now >= pending.deadline {
        pending := pending.(stage := Idle);
        ReplyData(pending.sender, OP_PING, PING_FAILED);
      }
      if tcpSm.stage != Idle && now >= tcpSm.deadline {
        tcpSm := tcpSm.(stage := Idle);
        tcpConn := ZEROED;
        ReplyData(tcpSm.sender, OP_CONNECT, CONNECT_FAILED);
      }
    }

    /** One turn of the main loop. */
    method Dispatch(e: Event)
      modifies this
      ensures Did(Step(old(Now()), e))
    {
      match e
      case Ping(sender, ip, now, cached, packetSent) => HandlePing(sender, ip, now, cached, packetSent);
      case Connect(sender, ip, port, now, cached, packetSent) =>
        HandleTcpConnect(sender, ip, port, now, cached, packetSent);
      case Close(sender) => HandleTcpClose(sender);
      case Recv(sender) => HandleTcpRecv(sender);
      case ArpIn(pingCached, pingSent, smCached, smSent, now) => HandleArp(pingCached, pingSent, smCached, smSent, now);
      case IcmpIn(payload, now) => HandleIcmp(payload, now);
      case TcpIn(srcIp, buf) => HandleTcpIncoming(srcIp, buf);
      case Tick(now) => CheckPendingDeadlines(now);
    }
  }

  /** The server, driven by any events at all, keeps the invariant and owes no reply but the waiting ones. */
  method Serve(events: seq<Event>) returns (srv: Server)
    ensures Inv(srv.Now()) && (srv.Now(), srv.sent) == Run(events)
  {
    srv := new Server();
    for i := 0 to |events|
      invariant fresh(srv) && (srv.Now(), srv.sent) == Run(events[..i])
    {
      srv.Dispatch(events[i]);
      assert events[..i + 1][..i] == events[..i];
    }
    assert events[..|events|] == events;
    RunKeepsInv(events);
  }
}
