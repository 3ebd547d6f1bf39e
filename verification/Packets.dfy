/** The packets the network server builds: IPv4 headers, ICMP echoes and TCP segments. */
module Packets {
  import opened Bytes
  import opened Checksum

  type Ip = ip: seq<Byte> | |ip| == 4 witness [0, 0, 0, 0]

  function BeBytes(v: nat): (s: seq<Byte>)
    requires v < U16
    ensures |s| == 2
  {
    [v / 256, v % 256]
  }

  lemma BeRoundTrip(v: nat)
    requires v < U16
    ensures Be16(BeBytes(v)[0], BeBytes(v)[1]) == v
  {
  }

  /** s with `bytes` written over it from `at` on. */
  function Patched(s: seq<Byte>, at: nat, bytes: seq<Byte>): (r: seq<Byte>)
    requires at + |bytes| <= |s|
    ensures |r| == |s|
  {
    s[..at] + bytes + s[at + |bytes|..]
  }

  method Put(out: array<Byte>, at: nat, bytes: seq<Byte>)
    requires at + |bytes| <= out.Length
    modifies out
    ensures out[..] == Patched(old(out[..]), at, bytes)
  {
    for i := 0 to |bytes|
      invariant forall k :: 0 <= k < out.Length ==> out[k] == if at <= k < at + i then bytes[k - at] else old(out[k])
    {
      out[at + i] := bytes[i];
    }
    assert out[..] == Patched(old(out[..]), at, bytes);
  }

  lemma PatchStart(s: seq<Byte>, bytes: seq<Byte>)
    requires |bytes| <= |s|
    ensures Patched(s, 0, bytes) == bytes + s[|bytes|..]
  {
  }

  lemma PatchWithin(head: seq<Byte>, rest: seq<Byte>, at: nat, v: nat)
    requires at + 2 <= |head| && v < U16
    ensures Patched(head + rest, at, BeBytes(v)) == PutU16(head, at, v) + rest
  {
    var r := Patched(head + rest, at, BeBytes(v));
    var q := PutU16(head, at, v) + rest;
    assert |r| == |q| && forall i :: 0 <= i < |q| ==> r[i] == q[i];
  }

  lemma PatchAfter(head: seq<Byte>, rest: seq<Byte>, bytes: seq<Byte>)
    requires |bytes| <= |rest|
    ensures Patched(head + rest, |head|, bytes) == head + bytes + rest[|bytes|..]
  {
    assert (head + rest)[..|head|] == head;
    assert (head + rest)[|head| + |bytes|..] == rest[|bytes|..];
  }

  // ---------------------------------------------------------------- IPv4

  datatype Ipv4Hdr = Ipv4Hdr(ihl: nat, tos: Byte, totLen: nat, id: nat, fragOff: nat, ttl: Byte, proto: Byte,
    checksum: nat, src: seq<Byte>, dst: seq<Byte>)

  /** parse_ipv4. */
  function ParseIpv4(buf: seq<Byte>): Option<(Ipv4Hdr, seq<Byte>)> {
    if |buf| < 20 then None
    else
      var version, ihl: nat := buf[0] / 16, buf[0] % 16;
      var headerLen := ihl * 4;
      var totLen := Be16(buf[2], buf[3]);
      var end := Min(totLen, |buf|);
      if version != 4 || |buf| < headerLen || end < headerLen then None
      else Some((Ipv4Hdr(ihl, buf[1], totLen, Be16(buf[4], buf[5]), Be16(buf[6], buf[7]), buf[8], buf[9],
                         Be16(buf[10], buf[11]), buf[12..16], buf[16..20]),
                 buf[headerLen..end]))
  }

  /** The 20 header bytes with a given checksum field; the length field keeps 16 bits. */
  function Header(proto: Byte, src: Ip, dst: Ip, total: nat, id: nat, csum: nat): (h: seq<Byte>)
    requires id < U16 && csum < U16
    ensures |h| == 20
  {
    HeaderHead(proto, total, id) + BeBytes(csum) + (src + dst)
  }

  function HeaderHead(proto: Byte, total: nat, id: nat): (h: seq<Byte>)
    requires id < U16
    ensures |h| == 10
  {
    [0x45, 0] + BeBytes(total % U16) + BeBytes(id) + [0x40, 0, 64, proto]
  }

  lemma PutMiddle(a: seq<Byte>, b: seq<Byte>, v: nat)
    requires v < U16
    ensures PutU16(a + BeBytes(0) + b, |a|, v) == a + BeBytes(v) + b
    ensures (a + BeBytes(0) + b)[|a|] == 0 && (a + BeBytes(0) + b)[|a| + 1] == 0
  {
    var s, d, e := a + BeBytes(0) + b, PutU16(a + BeBytes(0) + b, |a|, v), a + BeBytes(v) + b;
    assert BeBytes(0) == [0, 0] && BeBytes(v) == [v / 256, v % 256];
    assert forall i :: 0 <= i < |a| ==> d[i] == a[i] && e[i] == a[i];
    assert forall i :: |a| + 2 <= i < |s| ==> d[i] == b[i - |a| - 2] && e[i] == b[i - |a| - 2];
    assert d[|a|] == e[|a|] && d[|a| + 1] == e[|a| + 1];
    assert |d| == |e| && forall i :: 0 <= i < |e| ==> d[i] == e[i];
  }

  function HeaderSum(proto: Byte, src: Ip, dst: Ip, total: nat, id: nat): (c: nat)
    requires id < U16
    ensures c < U16
  {
    ChecksumOf(Header(proto, src, dst, total, id, 0))
  }

  lemma HeaderFilled(proto: Byte, src: Ip, dst: Ip, total: nat, id: nat, csum: nat)
    requires id < U16 && csum < U16
    ensures PutU16(Header(proto, src, dst, total, id, 0), 10, csum) == Header(proto, src, dst, total, id, csum)
    ensures Header(proto, src, dst, total, id, 0)[10] == 0 && Header(proto, src, dst, total, id, 0)[11] == 0
  {
    var a := HeaderHead(proto, total, id);
    PutMiddle(a, src + dst, csum);
    assert Header(proto, src, dst, total, id, 0) == a + BeBytes(0) + (src + dst);
  }

  /** A header with its checksum filled in sums to zero. */
  lemma HeaderVerifies(proto: Byte, src: Ip, dst: Ip, total: nat, id: nat)
    requires id < U16
    ensures ChecksumOf(Header(proto, src, dst, total, id, HeaderSum(proto, src, dst, total, id))) == 0
  {
    var c := HeaderSum(proto, src, dst, total, id);
    HeaderFilled(proto, src, dst, total, id, c);
    FilledVerifies(Header(proto, src, dst, total, id, 0), 10);
  }

  /** Parsing a built packet gives back its fields and payload exactly when the total length fits
      the 16-bit length field; a longer packet loses payload. */
  lemma ParseBuilt(proto: Byte, src: Ip, dst: Ip, payload: seq<Byte>, id: nat, csum: nat)
    requires id < U16 && csum < U16
    ensures RoundTrips(Header(proto, src, dst, 20 + |payload|, id, csum), payload,
                       Ipv4Hdr(5, 0, 20 + |payload|, id, 0x4000, 64, proto, csum, src, dst))
  {
    HeaderFields(proto, src, dst, 20 + |payload|, id, csum);
    ParseFields(Header(proto, src, dst, 20 + |payload|, id, csum), payload,
      Ipv4Hdr(5, 0, 20 + |payload|, id, 0x4000, 64, proto, csum, src, dst));
  }

  ghost predicate RoundTrips(h: seq<Byte>, payload: seq<Byte>, hdr: Ipv4Hdr) {
    var parsed := ParseIpv4(h + payload);
    && (20 + |payload| < U16 ==> parsed == Some((hdr, payload)))
    && (20 + |payload| >= U16 ==> parsed.None? || |parsed.value.1| < |payload|)
  }

  lemma ParseFields(h: seq<Byte>, payload: seq<Byte>, hdr: Ipv4Hdr)
    requires |h| == 20 && h[0] == 0x45 && Be16(h[2], h[3]) == (20 + |payload|) % U16
    requires hdr == Ipv4Hdr(5, h[1], 20 + |payload|, Be16(h[4], h[5]), Be16(h[6], h[7]), h[8], h[9],
      Be16(h[10], h[11]), h[12..16], h[16..20])
    ensures RoundTrips(h, payload, hdr)
  {
    ParseShort(h, payload);
    if 20 + |payload| < U16 {
      assert (20 + |payload|) % U16 == 20 + |payload|;
      assert payload[..|payload|] == payload;
    }
  }

  /** What parsing makes of a 20-byte header and the bytes after it. */
  lemma ParseShort(h: seq<Byte>, payload: seq<Byte>)
    requires |h| == 20 && h[0] == 0x45
    ensures var end := Min(Be16(h[2], h[3]), 20 + |payload|);
      ParseIpv4(h + payload) == if end < 20 then None else
        Some((Ipv4Hdr(5, h[1], Be16(h[2], h[3]), Be16(h[4], h[5]), Be16(h[6], h[7]), h[8], h[9], Be16(h[10], h[11]),
          h[12..16], h[16..20]),
              payload[..end - 20]))
  {
    var buf := h + payload;
    assert buf[12..16] == h[12..16] && buf[16..20] == h[16..20];
    var end := Min(Be16(h[2], h[3]), 20 + |payload|);
    if end >= 20 { assert buf[20..end] == payload[..end - 20]; }
  }

  lemma HeaderFields(proto: Byte, src: Ip, dst: Ip, total: nat, id: nat, csum: nat)
    requires id < U16 && csum < U16
    ensures var h := Header(proto, src, dst, total, id, csum);
      && h[0] == 0x45 && h[1] == 0 && Be16(h[2], h[3]) == total % U16 && Be16(h[4], h[5]) == id
      && Be16(h[6], h[7]) == 0x4000 && h[8] == 64 && h[9] == proto && Be16(h[10], h[11]) == csum
      && h[12..16] == src && h[16..20] == dst
  {
    BeRoundTrip(total % U16);
    BeRoundTrip(id);
    BeRoundTrip(csum);
    var h, head := Header(proto, src, dst, total, id, csum), HeaderHead(proto, total, id);
    assert h[..10] == head && forall i :: 0 <= i < 10 ==> h[i] == head[i];
    assert head[2..4] == BeBytes(total % U16) && head[4..6] == BeBytes(id) && h[10..12] == BeBytes(csum);
    assert h[2..4] == head[2..4] && h[4..6] == head[4..6];
    assert h[2] == h[2..4][0] && h[3] == h[2..4][1] && h[4] == h[4..6][0] && h[5] == h[4..6][1];
    assert h[10] == h[10..12][0] && h[11] == h[10..12][1];
  }

  class Ipv4 {
    var pktId: nat

    /** build_ipv4. */
    method Build(proto: Byte, src: Ip, dst: Ip, payload: seq<Byte>, out: array<Byte>) returns (n: nat)
      requires pktId < U16
      modifies this, out
      ensures pktId < U16
      ensures out.Length < 20 + |payload| ==> n == 0 && pktId == old(pktId) && out[..] == old(out[..])
      ensures out.Length >= 20 + |payload| ==>
        && n == 20 + |payload| && pktId == (old(pktId) + 1) % U16
        && out[..] == Header(proto, src, dst, n, pktId, HeaderSum(proto, src, dst, n, pktId)) + payload + old(out[n..])
        && ChecksumOf(out[..20]) == 0
    {
      var total := 20 + |payload|;
      if out.Length < total { return 0; }
      pktId := (pktId + 1) % U16;
      ghost var rest := out[20..];
      var raw := Header(proto, src, dst, total, pktId, 0);
      PatchStart(out[..], raw);
      Put(out, 0, raw);
      assert out[..] == raw + rest;
      assert out[..20] == raw;
      var csum := IpChecksum(out[..20]);
      PatchWithin(raw, rest, 10, csum);
      HeaderFilled(proto, src, dst, total, pktId, csum);
      Put(out, 10, BeBytes(csum));
      ghost var h := Header(proto, src, dst, total, pktId, csum);
      assert out[..] == h + rest;
      PatchAfter(h, rest, payload);
      Put(out, 20, payload);
      n := total;
      assert rest[|payload|..] == old(out[n..]);
      assert out[..20] == h;
      HeaderVerifies(proto, src, dst, total, pktId);
    }
  }

  // ---------------------------------------------------------------- ICMP

  function RawEcho(kind: Byte, id: nat, sequence: nat, payload: seq<Byte>): (m: seq<Byte>)
    requires id < U16 && sequence < U16
    ensures |m| == 8 + |payload| && m[2] == 0 && m[3] == 0
  {
    [kind, 0, 0, 0] + BeBytes(id) + BeBytes(sequence) + payload
  }

  /** build_icmp_echo. */
  method BuildIcmpEcho(kind: Byte, id: nat, sequence: nat, payload: seq<Byte>, out: array<Byte>) returns (n: nat)
    requires id < U16 && sequence < U16 && 8 + |payload| <= MAX_SUMMED
    modifies out
    ensures out.Length < 8 + |payload| ==> n == 0 && out[..] == old(out[..])
    ensures out.Length >= 8 + |payload| ==>
      && n == 8 + |payload| && ChecksumOf(out[..n]) == 0
      && out[..] == PutU16(RawEcho(kind, id, sequence, payload), 2, ChecksumOf(RawEcho(kind, id, sequence, payload)))
        + old(out[n..])
  {
    var total := 8 + |payload|;
    if out.Length < total { return 0; }
    ghost var rest := out[total..];
    var raw := RawEcho(kind, id, sequence, payload);
    PatchStart(out[..], raw);
    Put(out, 0, raw);
    assert out[..] == raw + rest;
    assert out[..total] == raw;
    var csum := IpChecksum(out[..total]);
    PatchWithin(raw, rest, 2, csum);
    Put(out, 2, BeBytes(csum));
    n := total;
    assert out[..n] == PutU16(raw, 2, csum);
    FilledVerifies(raw, 2);
  }

  /** A built echo read byte by byte (RFC 792): type, code, checksum, identifier, sequence number, data. */
  lemma EchoFields(kind: Byte, id: nat, sequence: nat, payload: seq<Byte>, csum: nat)
    requires id < U16 && sequence < U16 && csum < U16
    ensures var m := PutU16(RawEcho(kind, id, sequence, payload), 2, csum);
      && |m| == 8 + |payload| && m[0] == kind && m[1] == 0 && Be16(m[2], m[3]) == csum
      && Be16(m[4], m[5]) == id && Be16(m[6], m[7]) == sequence && m[8..] == payload
  {
    var raw := RawEcho(kind, id, sequence, payload);
    BeRoundTrip(id);
    BeRoundTrip(sequence);
    BeRoundTrip(csum);
    assert raw[4..6] == BeBytes(id) && raw[6..8] == BeBytes(sequence) && raw[8..] == payload;
    assert raw[4] == raw[4..6][0] && raw[5] == raw[4..6][1] && raw[6] == raw[6..8][0] && raw[7] == raw[6..8][1];
    var m := PutU16(raw, 2, csum);
    assert m[8..] == raw[8..] && forall i :: 4 <= i < 8 ==> m[i] == raw[i];
  }

  // ---------------------------------------------------------------- TCP

  function Be32Bytes(v: nat): (s: seq<Byte>)
    requires v < U32
    ensures |s| == 4
  {
    BeBytes(v / U16) + BeBytes(v % U16)
  }

  lemma Be32RoundTrip(v: nat)
    requires v < U32
    ensures var s := Be32Bytes(v); Be16(s[0], s[1]) * U16 + Be16(s[2], s[3]) == v
  {
    BeRoundTrip(v / U16);
    BeRoundTrip(v % U16);
  }

  /** The 20 bytes every TCP segment begins with (section 3.1 of RFC 9293). */
  datatype TcpHead = TcpHead(srcPort: nat, dstPort: nat, seqNum: nat, ackNum: nat, words: nat, flags: Byte,
    window: nat, csum: nat, urgent: nat)
  {
    predicate Fits() {
      && srcPort < U16 && dstPort < U16 && seqNum < U32 && ackNum < U32 && words < 16
      && window < U16 && csum < U16 && urgent < U16
    }

    function Bytes(): (h: seq<Byte>)
      requires Fits()
      ensures |h| == 20
    {
      Ports() + Numbers() + [words * 16, flags] + BeBytes(window) + BeBytes(csum) + BeBytes(urgent)
    }

    function Ports(): (h: seq<Byte>)
      requires Fits()
      ensures |h| == 4
    {
      BeBytes(srcPort) + BeBytes(dstPort)
    }

    function Numbers(): (h: seq<Byte>)
      requires Fits()
      ensures |h| == 8
    {
      Be32Bytes(seqNum) + Be32Bytes(ackNum)
    }
  }

  /** build_tcp: no options, checksum and urgent pointer zero. */
  method BuildTcp(srcPort: nat, dstPort: nat, seqNum: nat, ackNum: nat, flags: Byte, window: nat, payload: seq<Byte>,
    out: array<Byte>)
    returns (n: nat)
    requires srcPort < U16 && dstPort < U16 && seqNum < U32 && ackNum < U32 && window < U16
    modifies out
    ensures out.Length < 20 + |payload| ==> n == 0 && out[..] == old(out[..])
    ensures out.Length >= 20 + |payload| ==>
      && n == 20 + |payload|
      && out[..] == TcpHead(srcPort, dstPort, seqNum, ackNum, 5, flags, window, 0, 0).Bytes() + payload + old(out[n..])
  {
    var total := 20 + |payload|;
    if out.Length < total { return 0; }
    ghost var h := TcpHead(srcPort, dstPort, seqNum, ackNum, 5, flags, window, 0, 0);
    ghost var rest := out[20..];
    var head := BeBytes(srcPort) + BeBytes(dstPort) + (Be32Bytes(seqNum) + Be32Bytes(ackNum)) + [0x50, flags]
      + BeBytes(window) + [0, 0] + [0, 0];
    assert BeBytes(0) == [0, 0] && head == h.Bytes();
    PatchStart(out[..], head);
    Put(out, 0, head);
    assert out[..] == head + rest;
    PatchAfter(head, rest, payload);
    Put(out, 20, payload);
    n := total;
    assert rest[|payload|..] == old(out[n..]);
  }

  const MAX_PSEUDO: nat := 564

  /** The pseudo-header that the TCP checksum also covers (section 3.1 of RFC 9293). */
  function Pseudo(src: Ip, dst: Ip, len: nat): (p: seq<Byte>)
    ensures |p| == 12
  {
    src + dst + [0, 6] + BeBytes(len % U16)
  }

  /** Byte by byte: both addresses, a zero, the protocol number 6, and the segment's length. */
  lemma PseudoIs(src: Ip, dst: Ip, len: nat)
    requires len < U16
    ensures var p := Pseudo(src, dst, len);
      p[..4] == src && p[4..8] == dst && p[8] == 0 && p[9] == 6 && Be16(p[10], p[11]) == len
  {
    BeRoundTrip(len);
    assert len % U16 == len;
    FourParts(src, dst, [0, 6], BeBytes(len % U16));
  }

  lemma FourParts(a: Ip, b: Ip, c: seq<Byte>, d: seq<Byte>)
    requires |c| == |d| == 2
    ensures var p := a + b + c + d;
      p[..4] == a && p[4..8] == b && p[8] == c[0] && p[9] == c[1] && p[10] == d[0] && p[11] == d[1]
  {
  }

  /** tcp_checksum: segments too long for the scratch buffer get 0. */
  method TcpChecksum(src: Ip, dst: Ip, segment: seq<Byte>) returns (c: nat)
    ensures c < U16
    ensures c == if 12 + |segment| > MAX_PSEUDO then 0 else ChecksumOf(Pseudo(src, dst, |segment|) + segment)
  {
    var total := 12 + |segment|;
    if total > MAX_PSEUDO { return 0; }
    var buf := new Byte[MAX_PSEUDO](_ => 0);
    PatchStart(buf[..], Pseudo(src, dst, |segment|));
    ghost var rest := buf[12..];
    Put(buf, 0, Pseudo(src, dst, |segment|));
    assert buf[..] == Pseudo(src, dst, |segment|) + rest;
    PatchAfter(Pseudo(src, dst, |segment|), rest, segment);
    Put(buf, 12, segment);
    assert buf[..total] == Pseudo(src, dst, |segment|) + segment;
    c := IpChecksum(buf[..total]);
  }

  /** fill_tcp_checksum: the filled segment and its pseudo-header sum to zero. */
  method FillTcpChecksum(src: Ip, dst: Ip, segment: array<Byte>)
    modifies segment
    ensures segment.Length < 20 ==> segment[..] == old(segment[..])
    ensures segment.Length >= 20 ==>
      && segment[..16] == old(segment[..16]) && segment[18..] == old(segment[18..])
      && (12 + segment.Length <= MAX_PSEUDO ==> ChecksumOf(Pseudo(src, dst, segment.Length) + segment[..]) == 0)
      && (12 + segment.Length > MAX_PSEUDO ==> segment[16] == 0 && segment[17] == 0)
  {
    if segment.Length < 20 { return; }
    segment[16] := 0;
    segment[17] := 0;
    ghost var cleared := segment[..];
    assert cleared[..16] == old(segment[..16]) && cleared[18..] == old(segment[18..]);
    var csum := TcpChecksum(src, dst, segment[..]);
    assert cleared + [] == cleared;
    PatchWithin(cleared, [], 16, csum);
    Put(segment, 16, BeBytes(csum));
    PutParts(cleared, 16, csum);
    ghost var filled := segment[..];
    assert filled == PutU16(cleared, 16, csum);
    assert segment[..16] == filled[..16] && segment[18..] == filled[18..] && segment[16] == filled[16]
      && segment[17] == filled[17];
    if 12 + segment.Length <= MAX_PSEUDO {
      SegmentVerifies(src, dst, cleared);
    }
  }

  lemma PutParts(data: seq<Byte>, at: nat, v: nat)
    requires at + 2 <= |data| && v < U16
    ensures var d := PutU16(data, at, v);
      d[..at] == data[..at] && d[at + 2..] == data[at + 2..] && (v == 0 ==> d[at] == 0 && d[at + 1] == 0)
  {
  }

  lemma SegmentVerifies(src: Ip, dst: Ip, cleared: seq<Byte>)
    requires |cleared| >= 20 && cleared[16] == 0 && cleared[17] == 0
    ensures var p := Pseudo(src, dst, |cleared|);
      ChecksumOf(p + PutU16(cleared, 16, ChecksumOf(p + cleared))) == 0
  {
    var p := Pseudo(src, dst, |cleared|);
    var whole, c := p + cleared, ChecksumOf(p + cleared);
    FilledVerifies(whole, 28);
    assert PutU16(whole, 28, c) == p + PutU16(cleared, 16, c);
  }
}
