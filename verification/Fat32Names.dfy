/** FAT32 directory slots: scanning them, and the long-name slots (the FAT Long Directory Entries
    section of Microsoft's FAT32 specification 1.03) that the scan must put together again. */
module Fat32Names {
  import opened Bytes

  const SLOT: nat := 32
  const ATTR_LFN: Byte := 0x0F
  const CHARS: nat := 13
  const MAX_NAME: nat := 255

  datatype DirEnt = DirEnt(name: seq<Byte>, isDir: bool, size: nat, firstCluster: nat)

  /** The accumulator of a scan: the long-name buffer, whether one is being collected, whether the end
      marker was seen, and the entries reported so far. */
  datatype Scan = Scan(lfnBuf: seq<Byte>, lfnHave: bool, stopped: bool, out: seq<DirEnt>)

  type Slot = e: seq<Byte> | |e| == SLOT witness seq(SLOT, _ => 0)

  function Zeros(): (z: seq<Byte>)
    ensures |z| == 256 && forall i :: 0 <= i < 256 ==> z[i] == 0
  {
    seq(256, _ => 0)
  }

  function Start(): Scan { Scan(Zeros(), false, false, []) }

  ghost predicate ScanOk(s: Scan) { |s.lfnBuf| == 256 }

  // ---------------------------------------------------------------- one slot

  predicate Bit(b: Byte, mask: nat)
    requires mask > 0
  {
    b / mask % 2 == 1
  }

  /** Where the c-th UTF-16 character of a long-name slot sits. */
  function CharPos(c: nat): (p: nat)
    requires c < CHARS
    ensures 1 <= p <= 30 && p != 11 && p + 1 != 11
  {
    if c < 5 then 1 + 2 * c else if c < 11 then 14 + 2 * (c - 5) else 28 + 2 * (c - 11)
  }

  /** The ASCII rendering the scan stores: decided by the low byte alone. */
  function Ascii(lo: Byte): Byte { if 0x20 <= lo < 0x80 then lo else 0x5F }

  /** The characters of a slot from the c-th on, up to a terminator or padding. */
  function ReadChars(e: Slot, c: nat): (s: seq<Byte>)
    requires c <= CHARS
    ensures |s| <= CHARS - c
    decreases CHARS - c, e
  {
    if c == CHARS then []
    else
      var lo, hi := e[CharPos(c)], e[CharPos(c) + 1];
      if (lo == 0 && hi == 0) || (lo == 0xFF && hi == 0xFF) then [] else [Ascii(lo)] + ReadChars(e, c + 1)
  }

  function WriteChars(buf: seq<Byte>, base: nat, chars: seq<Byte>): (r: seq<Byte>)
    requires |buf| == 256
    ensures |r| == 256
    ensures forall d ::
      0 <= d < 256 ==> r[d] == if base <= d < base + |chars| && d < MAX_NAME then chars[d - base] else buf[d]
  {
    seq(256, d requires 0 <= d < 256 => if base <= d < base + |chars| && d < MAX_NAME then chars[d - base] else buf[d])
  }

  function LfnSlot(s: Scan, e: Slot): (r: Scan)
    requires ScanOk(s)
    ensures ScanOk(r)
  {
    var sequence, isLast := e[0] % 32, Bit(e[0], 0x40);
    if !isLast && !s.lfnHave then s
    else
      var s1 := if isLast then s.(lfnBuf := Zeros(), lfnHave := true) else s;
      if 1 <= sequence <= 20 then s1.(lfnBuf := WriteChars(s1.lfnBuf, (sequence - 1) * CHARS, ReadChars(e, 0))) else s1
  }

  /** Length of the collected name: up to the first zero, at most 255. */
  function NameLen(buf: seq<Byte>, from: nat): (n: nat)
    requires |buf| == 256 && from <= MAX_NAME
    ensures from <= n <= MAX_NAME && (forall i :: from <= i < n ==> buf[i] != 0) && (n < MAX_NAME ==> buf[n] == 0)
    decreases MAX_NAME - from, buf
  {
    if from < MAX_NAME && buf[from] != 0 then NameLen(buf, from + 1) else from
  }

  function Lower(b: Byte): Byte { if 0x41 <= b <= 0x5A then b + 32 else b }

  function LowerAll(s: seq<Byte>): (r: seq<Byte>)
    ensures |r| == |s|
  {
    if s == [] then [] else [Lower(s[0])] + LowerAll(s[1..])
  }

  function TrimSpaces(s: seq<Byte>): (r: seq<Byte>)
    ensures r <= s
  {
    if s != [] && s[|s| - 1] == 0x20 then TrimSpaces(s[..|s| - 1]) else s
  }

  /** The 8.3 name in lower case, "." only before an extension. */
  function ShortName(e: Slot): seq<Byte> {
    var name, ext := TrimSpaces(e[..8]), TrimSpaces(e[8..11]);
    LowerAll(name) + (if ext == [] then [] else [0x2E] + LowerAll(ext))
  }

  function EntryOf(name: seq<Byte>, e: Slot): DirEnt {
    DirEnt(name, Bit(e[11], 0x10), LeValue(e[28..32]), LeValue(e[20..22]) * 0x1_0000 + LeValue(e[26..28]))
  }

  /** Slots that name a file or directory. */
  predicate Regular(e: Slot) {
    && e[0] !in {0, 0xE5, 0x2E} && e[11] != ATTR_LFN
    && !(Bit(e[11], 0x08) && !Bit(e[11], 0x10))
  }

  /** One slot of the scan. */
  function ScanSlot(s: Scan, e: Slot): (r: Scan)
    requires ScanOk(s)
    ensures ScanOk(r)
  {
    if s.stopped then s
    else if e[0] == 0 then s.(stopped := true)
    else if e[0] == 0xE5 then s.(lfnHave := false)
    else if e[11] == ATTR_LFN then LfnSlot(s, e)
    else if !Regular(e) then s.(lfnHave := false)
    else
      var len := if s.lfnHave then NameLen(s.lfnBuf, 0) else 0;
      var name := if len > 0 then s.lfnBuf[..len] else ShortName(e);
      s.(lfnHave := false, out := if name == [] then s.out else s.out + [EntryOf(name, e)])
  }

  function ScanAll(s: Scan, slots: seq<Slot>): (r: Scan)
    requires ScanOk(s)
    ensures ScanOk(r)
    decreases |slots|
  {
    if slots == [] then s else ScanAll(ScanSlot(s, slots[0]), slots[1..])
  }

  lemma {:induction false} ScanAppend(s: Scan, a: seq<Slot>, b: seq<Slot>)
    requires ScanOk(s)
    ensures ScanAll(s, a + b) == ScanAll(ScanAll(s, a), b)
    decreases |a|
  {
    if a == [] {
      assert a + b == b;
    } else {
      assert (a + b)[0] == a[0] && (a + b)[1..] == a[1..] + b;
      ScanAppend(ScanSlot(s, a[0]), a[1..], b);
    }
  }

  /** Once stopped, nothing more is reported. */
  lemma {:induction false} ScanStopped(s: Scan, slots: seq<Slot>)
    requires ScanOk(s) && s.stopped
    ensures ScanAll(s, slots) == s
    decreases |slots|
  {
    if slots != [] { ScanStopped(s, slots[1..]); }
  }

  // ---------------------------------------------------------------- writing a long name

  /** Byte i of the slot that holds characters base .. base + 12 of the name. */
  function SlotByte(name: seq<Byte>, base: nat, first: Byte, i: nat): Byte {
    if i == 0 then first
    else if i == 11 then ATTR_LFN
    else if 1 <= i <= 10 then CharHalf(name, base + (i - 1) / 2, (i - 1) % 2)
    else if 14 <= i <= 25 then CharHalf(name, base + 5 + (i - 14) / 2, (i - 14) % 2)
    else if 28 <= i <= 31 then CharHalf(name, base + 11 + (i - 28) / 2, (i - 28) % 2)
    else 0
  }

  /** Low (0) or high (1) byte of character d: the name, then one terminator, then padding. */
  function CharHalf(name: seq<Byte>, d: nat, half: nat): Byte {
    if d < |name| then (if half == 0 then name[d] else 0)
    else if d == |name| then 0
    else 0xFF
  }

  /** The k-th long-name slot (k from 1), flagged when it is the last one. */
  function NameSlot(name: seq<Byte>, k: nat, isLast: bool): (e: Slot)
    requires 1 <= k <= 20
  {
    seq(SLOT, i requires 0 <= i < SLOT => SlotByte(name, (k - 1) * CHARS, if isLast then k + 0x40 else k, i))
  }

  function SlotsNeeded(name: seq<Byte>): nat { (|name| + CHARS - 1) / CHARS }

  /** The slots of a name from number k down to 1. */
  function NameSlots(name: seq<Byte>, k: nat, isLast: bool): (slots: seq<Slot>)
    requires k <= 20
  {
    if k == 0 then [] else [NameSlot(name, k, isLast)] + NameSlots(name, k - 1, false)
  }

  ghost predicate Printable(name: seq<Byte>) {
    1 <= |name| <= MAX_NAME && forall i :: 0 <= i < |name| ==> 0x20 <= name[i] < 0x7F
  }

  lemma NameSlotAt(name: seq<Byte>, k: nat, isLast: bool, i: nat)
    requires 1 <= k <= 20 && i < SLOT
    ensures NameSlot(name, k, isLast)[i] == SlotByte(name, (k - 1) * CHARS, if isLast then k + 0x40 else k, i)
  {
    var e := NameSlot(name, k, isLast);
    assert e[i] == SlotByte(name, (k - 1) * CHARS, if isLast then k + 0x40 else k, i);
  }

  lemma SlotChar(name: seq<Byte>, k: nat, isLast: bool, c: nat)
    requires 1 <= k <= 20 && c < CHARS
    ensures var e := NameSlot(name, k, isLast);
      && e[CharPos(c)] == CharHalf(name, (k - 1) * CHARS + c, 0)
      && e[CharPos(c) + 1] == CharHalf(name, (k - 1) * CHARS + c, 1)
  {
    NameSlotAt(name, k, isLast, CharPos(c));
    NameSlotAt(name, k, isLast, CharPos(c) + 1);
  }

  /** Reading a written slot gives the piece of the name it holds. */
  lemma {:induction false} ReadWritten(name: seq<Byte>, k: nat, isLast: bool, c: nat)
    requires Printable(name) && 1 <= k <= SlotsNeeded(name) <= 20 && c <= CHARS
    ensures var base := (k - 1) * CHARS; var end := Min(base + CHARS, |name|);
      base + c <= end ==> ReadChars(NameSlot(name, k, isLast), c) == name[base + c..end]
    decreases CHARS - c
  {
    var base := (k - 1) * CHARS;
    var end := Min(base + CHARS, |name|);
    if c < CHARS && base + c <= end {
      SlotChar(name, k, isLast, c);
      if base + c < end {
        ReadWritten(name, k, isLast, c + 1);
        assert name[base + c..end] == [name[base + c]] + name[base + c + 1..end];
      }
    }
  }

  /** The buffer holds exactly the characters of the name from position `from` on. */
  ghost predicate Collected(buf: seq<Byte>, name: seq<Byte>, from: nat) {
    |buf| == 256 && forall d :: 0 <= d < 256 ==> buf[d] == if from <= d < |name| then name[d] else 0
  }

  lemma NameSlotShape(name: seq<Byte>, k: nat, isLast: bool)
    requires 1 <= k <= 20
    ensures var e := NameSlot(name, k, isLast);
      e[0] != 0 && e[0] != 0xE5 && e[11] == ATTR_LFN && e[0] % 32 == k && Bit(e[0], 0x40) == isLast
  {
    NameSlotAt(name, k, isLast, 0);
    NameSlotAt(name, k, isLast, 11);
  }

  lemma ScanNameSlot(s: Scan, name: seq<Byte>, k: nat, isLast: bool)
    requires ScanOk(s) && !s.stopped && Printable(name) && 1 <= k <= SlotsNeeded(name) <= 20
    requires isLast ==> k == SlotsNeeded(name)
    requires !isLast ==> s.lfnHave && Collected(s.lfnBuf, name, k * CHARS)
    ensures var s' := ScanSlot(s, NameSlot(name, k, isLast));
      && s'.lfnHave && !s'.stopped && s'.out == s.out
      && Collected(s'.lfnBuf, name, (k - 1) * CHARS)
  {
    NameSlotShape(name, k, isLast);
    ReadWritten(name, k, isLast, 0);
    var base := (k - 1) * CHARS;
    var end := Min(base + CHARS, |name|);
    assert base < |name|;
    var buf := if isLast then Zeros() else s.lfnBuf;
    assert Collected(buf, name, k * CHARS);
    assert ReadChars(NameSlot(name, k, isLast), 0) == name[base..end];
  }

  lemma {:induction false} ScanNameSlots(s: Scan, name: seq<Byte>, k: nat, isLast: bool)
    requires ScanOk(s) && !s.stopped && Printable(name) && k <= SlotsNeeded(name) <= 20
    requires isLast ==> k == SlotsNeeded(name)
    requires !isLast ==> s.lfnHave && Collected(s.lfnBuf, name, k * CHARS)
    ensures var s' := ScanAll(s, NameSlots(name, k, isLast));
      s'.lfnHave && !s'.stopped && s'.out == s.out && Collected(s'.lfnBuf, name, 0)
    decreases k
  {
    if k > 0 {
      ScanNameSlot(s, name, k, isLast);
      ScanNameSlots(ScanSlot(s, NameSlot(name, k, isLast)), name, k - 1, false);
      assert NameSlots(name, k, isLast)[1..] == NameSlots(name, k - 1, false);
    } else {
      assert SlotsNeeded(name) > 0;
    }
  }

  lemma CollectedLen(buf: seq<Byte>, name: seq<Byte>)
    requires Collected(buf, name, 0) && Printable(name)
    ensures NameLen(buf, 0) == |name| && buf[..|name|] == name
  {
    assert forall d :: 0 <= d < |name| ==> buf[d] != 0;
    assert buf[|name|] == 0;
  }

  /** A file written with its long name and any regular short entry is reported under exactly that
      name, whatever the scan had met before. */
  lemma LongNameReported(s: Scan, name: seq<Byte>, short: Slot)
    requires ScanOk(s) && !s.stopped && Printable(name) && Regular(short)
    ensures SlotsNeeded(name) <= 20
    ensures var s' := ScanAll(s, NameSlots(name, SlotsNeeded(name), true) + [short]);
      s'.out == s.out + [EntryOf(name, short)] && !s'.lfnHave && !s'.stopped
  {
    var slots := NameSlots(name, SlotsNeeded(name), true);
    ScanNameSlots(s, name, SlotsNeeded(name), true);
    ScanAppend(s, slots, [short]);
    var s1 := ScanAll(s, slots);
    CollectedLen(s1.lfnBuf, name);
    assert ScanAll(s1, [short]) == ScanSlot(s1, short) by { assert [short][1..] == []; }
  }

  /** Sizes are 32-bit fields. */
  ghost predicate SizesFit(entries: seq<DirEnt>) {
    forall i :: 0 <= i < |entries| ==> entries[i].size < 0x1_0000_0000
  }

  lemma {:induction false} ScannedSizes(s: Scan, slots: seq<Slot>)
    requires ScanOk(s) && SizesFit(s.out)
    ensures SizesFit(ScanAll(s, slots).out)
    decreases |slots|
  {
    if slots != [] {
      SlotSize(slots[0]);
      ScannedSizes(ScanSlot(s, slots[0]), slots[1..]);
    }
  }

  lemma SlotSize(e: Slot)
    ensures LeValue(e[28..32]) < 0x1_0000_0000
  {
    LeBytesOfValue(e[28..32]);
    LeRoundTrip(LeValue(e[28..32]), 4);
    PowConstants();
  }

  lemma {:induction false} CharsAre(e: Slot, c: nat, d: nat)
    requires c <= CHARS && d < |ReadChars(e, c)|
    ensures c + d < CHARS && ReadChars(e, c)[d] == Ascii(e[CharPos(c + d)])
    decreases d
  {
    if d > 0 { CharsAre(e, c + 1, d - 1); }
  }

  /** What a character should come out as: itself if it is printable ASCII, an underscore otherwise. */
  function Rendered(lo: Byte, hi: Byte): Byte { if hi == 0 && 0x20 <= lo < 0x80 then lo else 0x5F }

  /** Only the low byte of a character is looked at, so a character comes out as it should exactly when its
      high byte is zero or its low byte alone already makes it an underscore. */
  lemma HighByteIgnored(e: Slot, c: nat)
    requires c < |ReadChars(e, 0)|
    ensures var lo, hi := e[CharPos(c)], e[CharPos(c) + 1];
      && (ReadChars(e, 0)[c] == 0x5F <==> !(0x20 <= lo < 0x80) || lo == 0x5F)
      && (ReadChars(e, 0)[c] == Rendered(lo, hi) <==> hi == 0 || !(0x20 <= lo < 0x80) || lo == 0x5F)
  {
    CharsAre(e, 0, c);
  }
}
