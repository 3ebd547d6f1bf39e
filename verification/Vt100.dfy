/** The VT100 / ANSI escape-sequence parser of the framebuffer terminal, and the printer it inverts. */
module Vt100 {
  import opened Bytes

  const U32_MAX: nat := 0xFFFF_FFFF
  const MAX_PARAMS: nat := 8
  const DEFAULT_FG: nat := 7
  const DEFAULT_BG: nat := 0

  const PALETTE: seq<nat> := [
    0xFF00_0000, 0xFF80_0000, 0xFF00_8000, 0xFF80_8000, 0xFF00_0080, 0xFF80_0080, 0xFF00_8080, 0xFFC0_C0C0,
    0xFF80_8080, 0xFFFF_5555, 0xFF55_FF55, 0xFFFF_FF55, 0xFF55_55FF, 0xFFFF_55FF, 0xFF55_FFFF, 0xFFFF_FFFF]

  datatype Event =
    | Char(b: Byte) | CarriageReturn | LineFeed | Tab | Backspace
    | CursorUp(n: nat) | CursorDown(n: nat) | CursorRight(n: nat) | CursorLeft(n: nat)
    | CursorNextLine(n: nat) | CursorPrevLine(n: nat) | CursorColumn(n: nat) | CursorPosition(row: nat, col: nat)
    | SaveCursor | RestoreCursor
    | EraseDisplay(n: nat) | EraseLine(n: nat) | DeleteChars(n: nat) | ScrollUp(n: nat) | ScrollDown(n: nat)
    | SetFg(argb: nat) | SetBg(argb: nat) | Reset

  datatype Mode = Normal | Esc | Csi

  /** Current text attributes. */
  datatype Attr = Attr(fg: nat, bg: nat, bold: bool, rev: bool)

  datatype State = State(mode: Mode, params: seq<nat>, nparam: nat, flag: Byte, attr: Attr)

  ghost predicate AttrOk(a: Attr) { a.fg <= 15 && a.bg <= 15 }

  /** What holds after any bytes whatever. */
  ghost predicate Inv(s: State) {
    && |s.params| == MAX_PARAMS && s.nparam <= MAX_PARAMS && AttrOk(s.attr)
    && (forall i :: 0 <= i < MAX_PARAMS ==> s.params[i] <= U32_MAX)
    && (s.mode.Csi? && s.nparam == 0 ==> s.params[0] == 0)
  }

  // ---------------------------------------------------------------- one byte

  predicate IsDigit(b: Byte) { 0x30 <= b <= 0x39 }

  predicate IsFinal(b: Byte) { 0x41 <= b <= 0x5A || 0x61 <= b <= 0x7A || b == 0x40 || b == 0x60 }

  /** p * 10 + d, saturating at each step. */
  function Accumulate(p: nat, d: nat): nat {
    Min(Min(p * 10, U32_MAX) + d, U32_MAX)
  }

  function NormalEvents(b: Byte): seq<Event> {
    if b == 0x0D then [CarriageReturn]
    else if b == 0x0A then [LineFeed]
    else if b == 0x09 then [Tab]
    else if b == 0x08 then [Backspace]
    else if b == 0x07 then []
    else [Char(b)]
  }

  /** The i-th parameter; absent or zero means the default. */
  function Param(ps: seq<nat>, i: nat, default: nat): nat {
    if i < |ps| && ps[i] != 0 then ps[i] else default
  }

  function Less1(n: nat): nat { if n == 0 then 0 else n - 1 }

  /** One SGR code. */
  function Sgr(a: Attr, code: nat): (r: (Attr, seq<Event>))
    requires AttrOk(a)
    ensures AttrOk(r.0)
  {
    if code == 0 then (Attr(DEFAULT_FG, DEFAULT_BG, false, false),
      [SetFg(PALETTE[DEFAULT_FG]), SetBg(PALETTE[DEFAULT_BG])])
    else if code == 1 then (a.(bold := true), [SetFg(PALETTE[if a.fg < 8 then a.fg + 8 else a.fg])])
    else if code == 2 || code == 22 then (a.(bold := false), [])
    else if code == 7 then (a.(rev := true), [SetFg(PALETTE[a.bg]), SetBg(PALETTE[a.fg])])
    else if code == 27 then (a.(rev := false), [SetFg(PALETTE[a.fg]), SetBg(PALETTE[a.bg])])
    else if 30 <= code <= 37 then
      var fg := Min(code - 30 + (if a.bold then 8 else 0), 15); (a.(fg := fg), [SetFg(PALETTE[fg])])
    else if code == 39 then (a.(fg := DEFAULT_FG, bold := false), [SetFg(PALETTE[DEFAULT_FG])])
    else if 40 <= code <= 47 then (a.(bg := code - 40), [SetBg(PALETTE[code - 40])])
    else if code == 49 then (a.(bg := DEFAULT_BG), [SetBg(PALETTE[DEFAULT_BG])])
    else if 90 <= code <= 97 then (a.(fg := code - 90 + 8), [SetFg(PALETTE[code - 90 + 8])])
    else if 100 <= code <= 107 then (a.(bg := code - 100 + 8), [SetBg(PALETTE[code - 100 + 8])])
    else (a, [])
  }

  function SgrAll(a: Attr, codes: seq<nat>): (r: (Attr, seq<Event>))
    requires AttrOk(a)
    ensures AttrOk(r.0)
  {
    if codes == [] then (a, [])
    else
      var (a1, e1) := SgrAll(a, codes[..|codes| - 1]);
      var (a2, e2) := Sgr(a1, codes[|codes| - 1]);
      (a2, e1 + e2)
  }

  /** The meaning of a complete CSI command with parameters ps. */
  function Dispatch(a: Attr, ps: seq<nat>, final: Byte): (r: (Attr, seq<Event>))
    requires AttrOk(a)
    ensures AttrOk(r.0)
  {
    var n := Param(ps, 0, 1);
    if final == 0x41 then (a, [CursorUp(n)])
    else if final == 0x42 then (a, [CursorDown(n)])
    else if final == 0x43 then (a, [CursorRight(n)])
    else if final == 0x44 then (a, [CursorLeft(n)])
    else if final == 0x45 then (a, [CursorNextLine(n)])
    else if final == 0x46 then (a, [CursorPrevLine(n)])
    else if final == 0x47 then (a, [CursorColumn(Less1(n))])
    else if final == 0x48 || final == 0x66 then (a, [CursorPosition(Less1(n), Less1(Param(ps, 1, 1)))])
    else if final == 0x73 then (a, [SaveCursor])
    else if final == 0x75 then (a, [RestoreCursor])
    else if final == 0x4A then (a, [EraseDisplay(Param(ps, 0, 0))])
    else if final == 0x4B then (a, [EraseLine(Param(ps, 0, 0))])
    else if final == 0x50 then (a, [DeleteChars(n)])
    else if final == 0x53 then (a, [ScrollUp(n)])
    else if final == 0x54 then (a, [ScrollDown(n)])
    else if final == 0x6D then SgrAll(a, if ps == [] then [0] else ps)
    else (a, [])
  }

  function Cleared(): seq<nat> { [0, 0, 0, 0, 0, 0, 0, 0] }

  function FeedCsi(s: State, b: Byte): (r: (State, seq<Event>))
    requires Inv(s) && s.mode.Csi?
    ensures Inv(r.0)
  {
    if IsDigit(b) then
      var n := if s.nparam == 0 then 1 else s.nparam;
      (s.(nparam := n, params := s.params[n - 1 := Accumulate(s.params[n - 1], b - 0x30)]), [])
    else if b == 0x3B then
      var n := if s.nparam < 8 then s.nparam + 1 else s.nparam;
      (s.(nparam := n, params := if n < 8 then s.params[n := 0] else s.params), [])
    else if b == 0x3F || b == 0x3E || b == 0x21 then (s.(flag := b), [])
    else if IsFinal(b) then
      var (a, es) := Dispatch(s.attr, s.params[..s.nparam], b);
      (s.(mode := Normal, attr := a), es)
    else (s, [])
  }

  function Feed(s: State, b: Byte): (r: (State, seq<Event>))
    requires Inv(s)
    ensures Inv(r.0)
  {
    match s.mode
    case Normal => if b == 0x1B then (s.(mode := Esc), []) else (s, NormalEvents(b))
    case Esc =>
      if b == 0x5B then (s.(mode := Csi, params := Cleared(), nparam := 0, flag := 0), [])
      else (s.(mode := Normal),
            if b == 0x37 then [SaveCursor] else if b == 0x38 then [RestoreCursor] else if b == 0x63 then [Reset]
              else [])
    case Csi => FeedCsi(s, b)
  }

  /** Any stream of bytes: the bounds hold at the end of every stream. */
  function FeedAll(s: State, bytes: seq<Byte>): (r: (State, seq<Event>))
    requires Inv(s)
    ensures Inv(r.0)
    decreases |bytes|
  {
    if bytes == [] then (s, [])
    else
      var (s1, e1) := Feed(s, bytes[0]);
      var (s2, e2) := FeedAll(s1, bytes[1..]);
      (s2, e1 + e2)
  }

  lemma {:induction false} FeedAppend(s: State, a: seq<Byte>, b: seq<Byte>)
    requires Inv(s)
    ensures var (s1, e1) := FeedAll(s, a); var (s2, e2) := FeedAll(s1, b);
      FeedAll(s, a + b) == (s2, e1 + e2)
    decreases |a|
  {
    if a == [] {
      assert a + b == b;
      assert [] + FeedAll(s, b).1 == FeedAll(s, b).1;
    } else {
      assert (a + b)[1..] == a[1..] + b;
      var (s0, e0) := Feed(s, a[0]);
      FeedAppend(s0, a[1..], b);
      var (s1, e1) := FeedAll(s0, a[1..]);
      var (s2, e2) := FeedAll(s1, b);
      assert e0 + (e1 + e2) == (e0 + e1) + e2;
    }
  }

  /** Bytes that only move the parser on. */
  lemma FeedQuiet(s: State, a: seq<Byte>, s1: State, b: seq<Byte>)
    requires Inv(s) && FeedAll(s, a) == (s1, [])
    ensures Inv(s1) && FeedAll(s, a + b) == FeedAll(s1, b)
  {
    FeedAppend(s, a, b);
    assert [] + FeedAll(s1, b).1 == FeedAll(s1, b).1;
  }

  // ---------------------------------------------------------------- the printer

  function Decimal(n: nat): (d: seq<Byte>)
    ensures |d| > 0
  {
    if n < 10 then [0x30 + n] else Decimal(n / 10) + [0x30 + n % 10]
  }

  function PrintParams(ps: seq<nat>): seq<Byte> {
    if |ps| == 0 then [] else if |ps| == 1 then Decimal(ps[0])
    else PrintParams(ps[..|ps| - 1]) + [0x3B] + Decimal(ps[|ps| - 1])
  }

  datatype Token = Text(b: Byte) | Command(ps: seq<nat>, final: Byte)

  /** Text is any byte but ESC; commands carry any number of explicit parameters of any size. */
  ghost predicate TokenOk(t: Token) {
    match t
    case Text(b) => b != 0x1B
    case Command(_, final) => IsFinal(final)
  }

  /** What a parameter v becomes when the digits of n are read onto it. */
  function Typed(v: nat, n: nat): (r: nat)
    ensures r <= U32_MAX
  {
    if n < 10 then Accumulate(v, n) else Accumulate(Typed(v, n / 10), n % 10)
  }

  /** What a list of parameters is read as: from the ninth on, their digits end up on the eighth. */
  function Kept(ps: seq<nat>): (ks: seq<nat>)
    ensures |ks| == Min(|ps|, MAX_PARAMS)
  {
    if ps == [] then []
    else
      var n := |ps| - 1;
      var ks := Kept(ps[..n]);
      if n < MAX_PARAMS then ks + [Typed(0, ps[n])] else ks[..MAX_PARAMS - 1] + [Typed(ks[MAX_PARAMS - 1], ps[n])]
  }

  function PrintToken(t: Token): seq<Byte> {
    match t
    case Text(b) => [b]
    case Command(ps, final) => [0x1B, 0x5B] + PrintParams(ps) + [final]
  }

  /** What a token means for a terminal with attributes a. */
  function Meaning(a: Attr, t: Token): (r: (Attr, seq<Event>))
    requires AttrOk(a)
    ensures AttrOk(r.0)
  {
    match t
    case Text(b) => (a, NormalEvents(b))
    case Command(ps, final) => Dispatch(a, Kept(ps), final)
  }

  /** The parser in the middle of a CSI sequence, having read ps and standing on the k-th parameter. */
  ghost predicate Reading(s: State, base: State, ps: seq<nat>) {
    && s.mode.Csi? && |s.params| == MAX_PARAMS && |ps| <= MAX_PARAMS && s.nparam == |ps|
    && s.params[..|ps|] == ps && (forall i :: |ps| <= i < MAX_PARAMS ==> s.params[i] == 0)
    && s.attr == base.attr
  }

  /** Reading the digits of n onto the last parameter (or onto the first one of an empty list). */
  lemma {:induction false} FeedDecimal(s: State, base: State, ps: seq<nat>, v: nat, n: nat)
    requires Inv(s) && (Reading(s, base, ps + [v]) || (ps == [] && v == 0 && Reading(s, base, [])))
    ensures Reading(FeedAll(s, Decimal(n)).0, base, ps + [Typed(v, n)]) && FeedAll(s, Decimal(n)).1 == []
    decreases n
  {
    if n < 10 {
      FeedDigit(s, base, ps, v, n);
      FeedOne(s, 0x30 + n);
    } else {
      FeedDecimal(s, base, ps, v, n / 10);
      FeedDigitMore(s, base, ps, Typed(v, n / 10), n % 10, Decimal(n / 10));
    }
  }

  lemma FeedDigitMore(s: State, base: State, ps: seq<nat>, v: nat, d: nat, front: seq<Byte>)
    requires Inv(s) && d < 10
    requires FeedAll(s, front).1 == [] && Reading(FeedAll(s, front).0, base, ps + [v])
    ensures Reading(FeedAll(s, front + [0x30 + d]).0, base, ps + [Accumulate(v, d)])
      && FeedAll(s, front + [0x30 + d]).1 == []
  {
    var s1 := FeedAll(s, front).0;
    FeedQuiet(s, front, s1, [0x30 + d]);
    FeedDigit(s1, base, ps, v, d);
    FeedOne(s1, 0x30 + d);
  }

  lemma FeedOne(s: State, b: Byte)
    requires Inv(s)
    ensures FeedAll(s, [b]) == Feed(s, b)
  {
    var (s1, e1) := Feed(s, b);
    assert [b][1..] == [] && e1 + [] == e1;
  }

  lemma FeedDigit(s: State, base: State, ps: seq<nat>, v: nat, d: nat)
    requires Inv(s) && d < 10
    requires Reading(s, base, ps + [v]) || (ps == [] && v == 0 && Reading(s, base, []))
    ensures Reading(Feed(s, 0x30 + d).0, base, ps + [Accumulate(v, d)]) && Feed(s, 0x30 + d).1 == []
  {
    var n := if s.nparam == 0 then 1 else s.nparam;
    assert n == |ps| + 1;
    if s.nparam > 0 { assert s.params[n - 1] == (s.params[..n])[n - 1] == v; }
    var s' := Feed(s, 0x30 + d).0;
    assert s'.params == s.params[n - 1 := Accumulate(v, d)];
    assert s'.params[..n] == ps + [Accumulate(v, d)] by {
      assert s.params[..|ps|] == ps by { if s.nparam > 0 { assert s.params[..|ps|] == (s.params[..n])[..|ps|]; } }
    }
  }

  /** Reading printed parameters, however many, from an empty list or from one that has only been given an
      empty first parameter. */
  lemma {:induction false} FeedParams(s: State, base: State, ps: seq<nat>)
    requires Inv(s) && (Reading(s, base, []) || (ps != [] && Reading(s, base, [0])))
    ensures Reading(FeedAll(s, PrintParams(ps)).0, base, Kept(ps)) && FeedAll(s, PrintParams(ps)).1 == []
    decreases |ps|
  {
    var n := |ps| - 1;
    if n == 0 {
      assert [] + [0] == [0];
      FeedDecimal(s, base, [], 0, ps[0]);
      assert Kept(ps) == [] + [Typed(0, ps[0])] by { assert Kept(ps[..0]) == []; }
    } else if n > 0 {
      FeedParams(s, base, ps[..n]);
      FeedParamMore(s, base, Kept(ps[..n]), Kept(ps), ps[n], PrintParams(ps[..n]));
    }
  }

  /** A separator starts a new parameter, except behind the eighth. */
  lemma Separator(s: State, base: State, ps: seq<nat>)
    requires Inv(s) && Reading(s, base, ps) && 1 <= |ps|
    ensures Reading(Feed(s, 0x3B).0, base, if |ps| < MAX_PARAMS then ps + [0] else ps) && Feed(s, 0x3B).1 == []
  {
    if |ps| < MAX_PARAMS { assert s.params[..|ps| + 1] == ps + [0]; }
  }

  lemma FeedParamMore(s: State, base: State, ks: seq<nat>, ks': seq<nat>, n: nat, bytes: seq<Byte>)
    requires Inv(s) && 1 <= |ks| <= MAX_PARAMS
    requires FeedAll(s, bytes).1 == [] && Reading(FeedAll(s, bytes).0, base, ks)
    requires ks' == if |ks| < MAX_PARAMS then ks + [Typed(0, n)]
      else ks[..MAX_PARAMS - 1] + [Typed(ks[MAX_PARAMS - 1], n)]
    ensures var (s', es) := FeedAll(s, bytes + [0x3B] + Decimal(n)); Reading(s', base, ks') && es == []
  {
    var s1 := FeedAll(s, bytes).0;
    Separator(s1, base, ks);
    var s2 := Feed(s1, 0x3B).0;
    if |ks| < MAX_PARAMS {
      FeedDecimal(s2, base, ks, 0, n);
    } else {
      assert ks[..MAX_PARAMS - 1] + [ks[MAX_PARAMS - 1]] == ks;
      FeedDecimal(s2, base, ks[..MAX_PARAMS - 1], ks[MAX_PARAMS - 1], n);
    }
    FeedBoth(s, bytes, s1, s2, Decimal(n));
  }

  lemma FeedBoth(s: State, bytes: seq<Byte>, s1: State, s2: State, digits: seq<Byte>)
    requires Inv(s) && Inv(s1) && FeedAll(s, bytes) == (s1, []) && Feed(s1, 0x3B) == (s2, [])
    ensures FeedAll(s, bytes + [0x3B] + digits) == FeedAll(s2, digits)
  {
    FeedOne(s1, 0x3B);
    FeedQuiet(s, bytes, s1, [0x3B]);
    FeedQuiet(s, bytes + [0x3B], s2, digits);
  }

  /** One printed token is read back, a command with its parameters as they are kept. */
  lemma FeedToken(s: State, t: Token)
    requires Inv(s) && s.mode.Normal? && TokenOk(t)
    ensures var (s', es) := FeedAll(s, PrintToken(t));
      s'.mode.Normal? && (s'.attr, es) == Meaning(s.attr, t)
  {
    match t
    case Text(b) => FeedOne(s, b);
    case Command(ps, final) =>
      var s0 := FeedIntroducer(s);
      FeedParams(s0, s, ps);
      var s1 := FeedAll(s0, PrintParams(ps)).0;
      FeedQuiet(s, [0x1B, 0x5B], s0, PrintParams(ps));
      FeedQuiet(s, [0x1B, 0x5B] + PrintParams(ps), s1, [final]);
      FeedOne(s1, final);
      FeedFinal(s1, s, Kept(ps), final);
  }

  lemma FeedFinal(s1: State, s: State, ps: seq<nat>, final: Byte)
    requires Inv(s1) && Inv(s) && Reading(s1, s, ps) && IsFinal(final)
    ensures var (s', es) := Feed(s1, final); s'.mode.Normal? && (s'.attr, es) == Dispatch(s.attr, ps, final)
  {
    assert s1.params[..s1.nparam] == ps;
  }

  /** ESC [ starts an empty parameter list. */
  lemma FeedIntroducer(s: State) returns (s0: State)
    requires Inv(s) && s.mode.Normal?
    ensures Inv(s0) && Reading(s0, s, []) && s0.attr == s.attr && FeedAll(s, [0x1B, 0x5B]) == (s0, [])
  {
    var s1 := Feed(s, 0x1B).0;
    s0 := Feed(s1, 0x5B).0;
    FeedOne(s, 0x1B);
    FeedOne(s1, 0x5B);
    FeedAppend(s, [0x1B], [0x5B]);
    assert [0x1B] + [0x5B] == [0x1B, 0x5B];
  }

  // ---------------------------------------------------------------- what becomes of parameters

  /** Ten to the number of n's digits. */
  function Tens(n: nat): (t: nat)
    ensures t >= 10
  {
    if n < 10 then 10 else 10 * Tens(n / 10)
  }

  /** Digits are read as decimal digits, up to 32 bits. */
  lemma {:induction false} TypedIs(v: nat, n: nat)
    ensures Typed(v, n) == Min(v * Tens(n) + n, U32_MAX)
    decreases n
  {
    if n >= 10 {
      TypedIs(v, n / 10);
      AccumulateIs(v * Tens(n / 10) + n / 10, n % 10);
      TenTimes(v, Tens(n / 10));
    }
  }

  lemma AccumulateIs(x: nat, d: nat)
    requires d < 10
    ensures Accumulate(Min(x, U32_MAX), d) == Min(10 * x + d, U32_MAX)
  {
  }

  lemma TenTimes(v: nat, t: nat)
    ensures v * (10 * t) == 10 * (v * t) && (t >= 10 ==> v * t >= 10 * v)
  {
    if t >= 10 { assert v * t == v * 10 + v * (t - 10); }
  }

  /** Read onto a parameter, they leave it as it is only if all are 0 or it is at its limit. */
  lemma TypedStays(v: nat, n: nat)
    requires v <= U32_MAX
    ensures Typed(v, n) >= v && (Typed(v, n) == v <==> v == U32_MAX || (v == 0 && n == 0))
  {
    TypedIs(v, n);
    TenTimes(v, Tens(n));
    BeyondIs(v, v * Tens(n), n);
  }

  lemma BeyondIs(v: nat, x: nat, n: nat)
    requires v <= U32_MAX && x >= 10 * v && (v == 0 ==> x == 0)
    ensures Min(x + n, U32_MAX) >= v && (Min(x + n, U32_MAX) == v <==> v == U32_MAX || (v == 0 && n == 0))
  {
  }

  /** Parameters up to 32 bits. */
  function Capped(ps: seq<nat>): (cs: seq<nat>)
    ensures |cs| == |ps| && forall i :: 0 <= i < |ps| ==> cs[i] == Min(ps[i], U32_MAX)
  {
    seq(|ps|, i requires 0 <= i < |ps| => Min(ps[i], U32_MAX))
  }

  /** The eighth parameter with the digits of all later ones behind it. */
  function Glued(ps: seq<nat>): (g: nat)
    requires |ps| >= MAX_PARAMS
    ensures g <= U32_MAX
  {
    if |ps| == MAX_PARAMS then Min(ps[MAX_PARAMS - 1], U32_MAX) else Typed(Glued(ps[..|ps| - 1]), ps[|ps| - 1])
  }

  /** What any number of parameters is read as. */
  lemma {:induction false} KeptIs(ps: seq<nat>)
    ensures Kept(ps) == if |ps| < MAX_PARAMS then Capped(ps) else Capped(ps[..MAX_PARAMS - 1]) + [Glued(ps)]
    decreases |ps|
  {
    if ps != [] {
      var n := |ps| - 1;
      var front := ps[..n];
      KeptIs(front);
      TypedIs(0, ps[n]);
      if n < MAX_PARAMS {
        assert Kept(ps) == Capped(ps);
        assert n == MAX_PARAMS - 1 ==> Capped(ps) == Capped(ps[..n]) + [Glued(ps)];
      } else {
        assert front[..MAX_PARAMS - 1] == ps[..MAX_PARAMS - 1];
      }
    }
  }

  /** They are read as they are exactly when there are at most eight, of 32 bits each. */
  lemma KeptExactly(ps: seq<nat>)
    ensures Kept(ps) == ps <==> |ps| <= MAX_PARAMS && forall i :: 0 <= i < |ps| ==> ps[i] <= U32_MAX
  {
    if |ps| <= MAX_PARAMS {
      KeptShort(ps);
      CappedExactly(ps);
    }
  }

  lemma KeptShort(ps: seq<nat>)
    requires |ps| <= MAX_PARAMS
    ensures Kept(ps) == Capped(ps)
  {
    KeptIs(ps);
    if |ps| == MAX_PARAMS {
      CappedEight(ps);
      assert ps[..MAX_PARAMS] == ps;
    }
  }

  lemma CappedExactly(ps: seq<nat>)
    ensures Capped(ps) == ps <==> forall i :: 0 <= i < |ps| ==> ps[i] <= U32_MAX
  {
    if i :| 0 <= i < |ps| && ps[i] > U32_MAX { assert Capped(ps)[i] != ps[i]; }
  }

  /** There are no more than eight, or the eighth is at its limit, or it and everything behind it is 0. */
  predicate Harmless(ps: seq<nat>)
    requires |ps| >= MAX_PARAMS
  {
    || |ps| == MAX_PARAMS || ps[MAX_PARAMS - 1] >= U32_MAX
    || forall i :: MAX_PARAMS - 1 <= i < |ps| ==> ps[i] == 0
  }

  /** And with the excess ignored, as the first eight, exactly when that is harmless. */
  lemma ExcessIgnored(ps: seq<nat>)
    requires |ps| >= MAX_PARAMS
    ensures Kept(ps) == Capped(ps[..MAX_PARAMS]) <==> Harmless(ps)
  {
    KeptIs(ps);
    GluedStays(ps);
    var front, eighth := Capped(ps[..MAX_PARAMS - 1]), Min(ps[MAX_PARAMS - 1], U32_MAX);
    CappedEight(ps);
    SameLast(front, Glued(ps), eighth);
  }

  lemma CappedEight(ps: seq<nat>)
    requires |ps| >= MAX_PARAMS
    ensures Capped(ps[..MAX_PARAMS]) == Capped(ps[..MAX_PARAMS - 1]) + [Min(ps[MAX_PARAMS - 1], U32_MAX)]
  {
  }

  lemma SameLast(front: seq<nat>, x: nat, y: nat)
    ensures front + [x] == front + [y] <==> x == y
  {
    assert (front + [x])[|front|] == x && (front + [y])[|front|] == y;
  }

  lemma {:induction false} GluedStays(ps: seq<nat>)
    requires |ps| >= MAX_PARAMS
    ensures Glued(ps) >= Min(ps[MAX_PARAMS - 1], U32_MAX)
    ensures Glued(ps) == Min(ps[MAX_PARAMS - 1], U32_MAX) <==> Harmless(ps)
    decreases |ps|
  {
    if |ps| > MAX_PARAMS {
      var n := |ps| - 1;
      var front := ps[..n];
      GluedStays(front);
      TypedStays(Glued(front), ps[n]);
      assert (forall i :: MAX_PARAMS - 1 <= i < |ps| ==> ps[i] == 0) <==>
        ps[n] == 0 && forall i :: MAX_PARAMS - 1 <= i < |front| ==> front[i] == 0;
    }
  }

  /** So a ninth parameter spoils the eighth: 8 and 9 are read as 89. */
  lemma NinthSpoilsEighth()
    ensures Kept([1, 2, 3, 4, 5, 6, 7, 8, 9]) == [1, 2, 3, 4, 5, 6, 7, 89]
  {
    var ps := [1, 2, 3, 4, 5, 6, 7, 8, 9];
    assert ps[..8] == [1, 2, 3, 4, 5, 6, 7, 8];
    KeptExactly(ps[..8]);
  }

  function PrintAll(ts: seq<Token>): seq<Byte> {
    if ts == [] then [] else PrintToken(ts[0]) + PrintAll(ts[1..])
  }

  function MeaningAll(a: Attr, ts: seq<Token>): (r: (Attr, seq<Event>))
    requires AttrOk(a)
    ensures AttrOk(r.0)
    decreases |ts|
  {
    if ts == [] then (a, [])
    else
      var (a1, e1) := Meaning(a, ts[0]);
      var (a2, e2) := MeaningAll(a1, ts[1..]);
      (a2, e1 + e2)
  }

  /** Any printed list of characters and commands yields exactly its events, and leaves the parser
      ready for more. */
  lemma {:induction false} FeedInvertsPrint(s: State, ts: seq<Token>)
    requires Inv(s) && s.mode.Normal? && forall i :: 0 <= i < |ts| ==> TokenOk(ts[i])
    ensures var (s', es) := FeedAll(s, PrintAll(ts));
      s'.mode.Normal? && (s'.attr, es) == MeaningAll(s.attr, ts)
    decreases |ts|
  {
    if ts != [] {
      FeedToken(s, ts[0]);
      FeedAppend(s, PrintToken(ts[0]), PrintAll(ts[1..]));
      FeedInvertsPrint(FeedAll(s, PrintToken(ts[0])).0, ts[1..]);
    }
  }

  // ---------------------------------------------------------------- events as text

  /** Events that a terminal program can ask for by a command with explicit parameters. */
  ghost predicate Printable(e: Event) {
    match e
    case Char(b) => b !in {0x1B, 0x0D, 0x0A, 0x09, 0x08, 0x07}
    case CursorUp(n) => 1 <= n <= U32_MAX
    case CursorDown(n) => 1 <= n <= U32_MAX
    case CursorRight(n) => 1 <= n <= U32_MAX
    case CursorLeft(n) => 1 <= n <= U32_MAX
    case CursorNextLine(n) => 1 <= n <= U32_MAX
    case CursorPrevLine(n) => 1 <= n <= U32_MAX
    case CursorColumn(n) => n < U32_MAX
    case CursorPosition(row, col) => row < U32_MAX && col < U32_MAX
    case EraseDisplay(n) => n <= U32_MAX
    case EraseLine(n) => n <= U32_MAX
    case DeleteChars(n) => 1 <= n <= U32_MAX
    case ScrollUp(n) => 1 <= n <= U32_MAX
    case ScrollDown(n) => 1 <= n <= U32_MAX
    case SetFg(_) => false
    case SetBg(_) => false
    case Reset => false
    case _ => true
  }

  function TokenFor(e: Event): Token {
    match e
    case Char(b) => Text(b)
    case CarriageReturn => Text(0x0D)
    case LineFeed => Text(0x0A)
    case Tab => Text(0x09)
    case Backspace => Text(0x08)
    case CursorUp(n) => Command([n], 0x41)
    case CursorDown(n) => Command([n], 0x42)
    case CursorRight(n) => Command([n], 0x43)
    case CursorLeft(n) => Command([n], 0x44)
    case CursorNextLine(n) => Command([n], 0x45)
    case CursorPrevLine(n) => Command([n], 0x46)
    case CursorColumn(n) => Command([n + 1], 0x47)
    case CursorPosition(row, col) => Command([row + 1, col + 1], 0x48)
    case SaveCursor => Command([0], 0x73)
    case RestoreCursor => Command([0], 0x75)
    case EraseDisplay(n) => Command([n], 0x4A)
    case EraseLine(n) => Command([n], 0x4B)
    case DeleteChars(n) => Command([n], 0x50)
    case ScrollUp(n) => Command([n], 0x53)
    case ScrollDown(n) => Command([n], 0x54)
    case _ => Text(0x07)
  }

  function TokensFor(es: seq<Event>): (ts: seq<Token>)
    ensures |ts| == |es| && forall i :: 0 <= i < |es| ==> ts[i] == TokenFor(es[i])
  {
    if es == [] then [] else [TokenFor(es[0])] + TokensFor(es[1..])
  }

  lemma MeaningOfEvent(a: Attr, e: Event)
    requires AttrOk(a) && Printable(e)
    ensures TokenOk(TokenFor(e)) && Meaning(a, TokenFor(e)) == (a, [e])
  {
    DispatchOfEvent(a, e);
    if TokenFor(e).Command? { KeptExactly(TokenFor(e).ps); }
  }

  lemma DispatchOfEvent(a: Attr, e: Event)
    requires AttrOk(a) && Printable(e)
    ensures match TokenFor(e)
      case Text(b) => b != 0x1B && NormalEvents(b) == [e]
      case Command(ps, final) =>
        && IsFinal(final) && Dispatch(a, ps, final) == (a, [e])
        && |ps| <= 2 && forall i :: 0 <= i < |ps| ==> ps[i] <= U32_MAX
  {
  }

  lemma MeaningCons(a: Attr, t: Token, ts: seq<Token>, e: Event, es: seq<Event>)
    requires AttrOk(a) && Meaning(a, t) == (a, [e]) && MeaningAll(a, ts) == (a, es)
    ensures MeaningAll(a, [t] + ts) == (a, [e] + es)
  {
    assert ([t] + ts)[1..] == ts;
  }

  lemma {:induction false} MeaningOfEvents(a: Attr, es: seq<Event>)
    requires AttrOk(a) && forall i {:trigger Printable(es[i])} :: 0 <= i < |es| ==> Printable(es[i])
    ensures MeaningAll(a, TokensFor(es)) == (a, es)
    decreases |es|
  {
    if es != [] {
      assert Printable(es[0]);
      MeaningOfEvent(a, es[0]);
      var rest := es[1..];
      forall i | 0 <= i < |rest| ensures Printable(rest[i]) { assert Printable(es[i + 1]); }
      MeaningOfEvents(a, rest);
      assert TokensFor(es) == [TokenFor(es[0])] + TokensFor(rest) && es == [es[0]] + rest;
      MeaningCons(a, TokenFor(es[0]), TokensFor(rest), es[0], rest);
    }
  }

  lemma TokensOk(a: Attr, es: seq<Event>)
    requires AttrOk(a) && forall i {:trigger Printable(es[i])} :: 0 <= i < |es| ==> Printable(es[i])
    ensures forall i :: 0 <= i < |es| ==> TokenOk(TokensFor(es)[i])
  {
    forall i | 0 <= i < |es| ensures TokenOk(TokensFor(es)[i]) {
      assert Printable(es[i]);
      MeaningOfEvent(a, es[i]);
    }
  }

  /** Printing any list of such events and feeding the bytes gives the same events back. */
  lemma EventsRoundTrip(s: State, es: seq<Event>)
    requires Inv(s) && s.mode.Normal? && forall i {:trigger Printable(es[i])} :: 0 <= i < |es| ==> Printable(es[i])
    ensures var (s', es') := FeedAll(s, PrintAll(TokensFor(es)));
      es' == es && s'.mode.Normal? && s'.attr == s.attr
  {
    MeaningOfEvents(s.attr, es);
    TokensOk(s.attr, es);
    FeedInvertsPrint(s, TokensFor(es));
  }

  /** An empty first parameter is not kept: with `;` in front of them parameters mean what they mean without it,
      so the value meant for the second parameter becomes the first. */
  lemma LeadingEmptyDropped(s: State, ps: seq<nat>, final: Byte)
    requires Inv(s) && s.mode.Normal? && IsFinal(final) && ps != []
    ensures var (s', es) := FeedAll(s, [0x1B, 0x5B, 0x3B] + PrintParams(ps) + [final]);
      s'.mode.Normal? && (s'.attr, es) == Meaning(s.attr, Command(ps, final))
  {
    var s1 := FeedLeadingEmpty(s);
    FeedParams(s1, s, ps);
    var s2 := FeedAll(s1, PrintParams(ps)).0;
    FeedQuiet(s, [0x1B, 0x5B, 0x3B], s1, PrintParams(ps));
    FeedQuiet(s, [0x1B, 0x5B, 0x3B] + PrintParams(ps), s2, [final]);
    FeedOne(s2, final);
    FeedFinal(s2, s, Kept(ps), final);
  }

  lemma FeedLeadingEmpty(s: State) returns (s1: State)
    requires Inv(s) && s.mode.Normal?
    ensures Inv(s1) && Reading(s1, s, [0]) && FeedAll(s, [0x1B, 0x5B, 0x3B]) == (s1, [])
  {
    var s0 := FeedIntroducer(s);
    FeedOne(s0, 0x3B);
    s1 := Feed(s0, 0x3B).0;
    FeedQuiet(s, [0x1B, 0x5B], s0, [0x3B]);
    assert [0x1B, 0x5B] + [0x3B] == [0x1B, 0x5B, 0x3B];
  }

  /** A parameter left out means 0, and 0 means 1 except for erasing and SGR. */
  lemma DefaultsApply(a: Attr, n: nat, ps: seq<nat>, final: Byte)
    requires AttrOk(a)
    ensures Dispatch(a, [], final) == Dispatch(a, [0], final)
    ensures final !in {0x4A, 0x4B, 0x6D} ==> Dispatch(a, [0] + ps, final) == Dispatch(a, [1] + ps, final)
    ensures final != 0x6D ==> Dispatch(a, [n], final) == Dispatch(a, [n, 1], final) == Dispatch(a, [n, 0], final)
  {
  }

  // ---------------------------------------------------------------- colours

  /** What each SGR code sets: its colours by number, its attributes by switching them on or off. */
  lemma SgrSets(a: Attr, code: nat)
    requires AttrOk(a)
    ensures var r := Sgr(a, code).0;
      && r.fg == (if 30 <= code <= 37 then code - 30 + (if a.bold then 8 else 0)
                  else if 90 <= code <= 97 then code - 82 else if code == 0 || code == 39 then 7 else a.fg)
      && r.bg == (if 40 <= code <= 47 then code - 40 else if 100 <= code <= 107 then code - 92
                  else if code == 0 || code == 49 then 0 else a.bg)
      && r.bold == (code == 1 || (a.bold && code != 0 && code != 2 && code != 22 && code != 39))
      && r.rev == (code == 7 || (a.rev && code != 0 && code != 27))
  {
  }

  /** The palette is the colours' own bits: red, green, blue from the lowest, dark below 8 and bright from 8 on,
      with the greys between. */
  lemma PaletteIs(i: nat)
    requires i < 16
    ensures var on, off := if i < 8 then 0x80 else 0xFF, if i < 8 then 0 else 0x55;
      var red, green, blue := if i % 2 == 1 then on else off, if i / 2 % 2 == 1 then on else off,
        if i / 4 % 2 == 1 then on else off;
      PALETTE[i] == 0xFF00_0000 + (if i == 7 then 0xC0_C0C0 else if i == 8 then 0x80_8080
                                   else red * 0x1_0000 + green * 0x100 + blue)
  {
  }

  lemma PaletteDistinct(i: nat, j: nat)
    requires i < 16 && j < 16
    ensures PALETTE[i] == PALETTE[j] <==> i == j
  {
    PaletteIs(i);
    PaletteIs(j);
  }

  /** The two colours the terminal draws with after some events. */
  function Painted(shown: (nat, nat), es: seq<Event>): (nat, nat) {
    if es == [] then shown
    else
      var (fg, bg) := Painted(shown, es[..|es| - 1]);
      match es[|es| - 1]
      case SetFg(argb) => (argb, bg)
      case SetBg(argb) => (fg, argb)
      case _ => (fg, bg)
  }

  /** Bold makes a dark foreground bright. */
  function Weight(a: Attr): nat { if a.bold && a.fg < 8 then a.fg + 8 else a.fg }

  /** The colours the attributes call for; reversed, they change places. */
  function Wanted(a: Attr): (nat, nat)
    requires AttrOk(a)
  {
    var fg, bg := PALETTE[Weight(a)], PALETTE[a.bg];
    if a.rev then (bg, fg) else (fg, bg)
  }

  /** The colour a code sets, of the foreground or the background. */
  function Chosen(a: Attr, code: nat): Option<nat>
    requires AttrOk(a)
  {
    var r := Sgr(a, code).0;
    if code == 1 || code == 39 || 30 <= code <= 37 || 90 <= code <= 97 then Some(Weight(r))
    else if code == 49 || 40 <= code <= 47 || 100 <= code <= 107 then Some(r.bg)
    else None
  }

  /** The code is drawn as it should be: a colour, unless the screen is reversed (or shows only that colour
      anyway); leaving bold or changing reversal, unless bold has made the foreground bright. */
  predicate DrawnRight(a: Attr, code: nat)
    requires AttrOk(a)
  {
    var n := Chosen(a, code);
    if n.Some? then a.rev ==> a.bg == n.value && Weight(a) == n.value
    else code in {2, 22, 7, 27} ==> Weight(a) == a.fg
  }

  lemma PaintedFew(shown: (nat, nat), es: seq<Event>)
    requires |es| <= 2
    ensures |es| == 0 ==> Painted(shown, es) == shown
    ensures |es| == 1 && es[0].SetFg? ==> Painted(shown, es) == (es[0].argb, shown.1)
    ensures |es| == 1 && es[0].SetBg? ==> Painted(shown, es) == (shown.0, es[0].argb)
    ensures |es| == 2 && es[0].SetFg? && es[1].SetBg? ==> Painted(shown, es) == (es[0].argb, es[1].argb)
  {
    if |es| > 0 { assert es[..|es| - 1] == if |es| == 1 then [] else [es[0]]; }
    if |es| == 2 { assert [es[0]][..0] == []; }
  }

  /** What a code draws on a screen showing `shown`. */
  lemma CodePaints(a: Attr, code: nat, shown: (nat, nat))
    requires AttrOk(a)
    ensures var n := Chosen(a, code);
      Painted(shown, Sgr(a, code).1) ==
        if n.Some? && (code == 1 || code == 39 || 30 <= code <= 37 || 90 <= code <= 97)
          then (PALETTE[n.value], shown.1)
        else if n.Some? then (shown.0, PALETTE[n.value])
        else if code == 0 then (PALETTE[7], PALETTE[0])
        else if code == 7 then (PALETTE[a.bg], PALETTE[a.fg])
        else if code == 27 then (PALETTE[a.fg], PALETTE[a.bg])
        else shown
  {
    PaintedFew(shown, Sgr(a, code).1);
  }

  /** So while the screen shows what the attributes call for, a code keeps it so exactly in those cases. */
  lemma DrawnExactly(a: Attr, code: nat)
    requires AttrOk(a)
    ensures var (r, es) := Sgr(a, code);
      Painted(Wanted(a), es) == Wanted(r) <==> DrawnRight(a, code)
  {
    CodePaints(a, code, Wanted(a));
    SgrSets(a, code);
    if Chosen(a, code).Some? { ColourExactly(a, code); } else { PaletteDistinct(Weight(a), a.fg); }
  }

  lemma ColourExactly(a: Attr, code: nat)
    requires AttrOk(a) && Chosen(a, code).Some?
    ensures var (r, es) := Sgr(a, code);
      Painted(Wanted(a), es) == Wanted(r) <==> DrawnRight(a, code)
  {
    var n := Chosen(a, code).value;
    CodePaints(a, code, Wanted(a));
    SgrSets(a, code);
    PaletteDistinct(a.bg, n);
    PaletteDistinct(Weight(a), n);
  }

  lemma {:induction false} PaintedJoin(shown: (nat, nat), a: seq<Event>, b: seq<Event>)
    ensures Painted(shown, a + b) == Painted(Painted(shown, a), b)
    decreases |b|
  {
    if b == [] {
      assert a + b == a;
    } else {
      var ab := a + b;
      assert ab[..|ab| - 1] == a + b[..|b| - 1];
      PaintedJoin(shown, a, b[..|b| - 1]);
    }
  }

  /** Colours alone, without bold and reversal, are always drawn right, however many and in whatever order. */
  lemma {:induction false} ColoursDrawn(a: Attr, codes: seq<nat>)
    requires AttrOk(a) && !a.bold && !a.rev && 1 !in codes && 7 !in codes
    ensures var (r, es) := SgrAll(a, codes);
      Painted(Wanted(a), es) == Wanted(r) && !r.bold && !r.rev
    decreases |codes|
  {
    if codes != [] {
      var front, code := codes[..|codes| - 1], codes[|codes| - 1];
      ColoursDrawn(a, front);
      var (r, es) := SgrAll(a, front);
      SgrSets(r, code);
      DrawnExactly(r, code);
      PaintedJoin(Wanted(a), es, Sgr(r, code).1);
    }
  }

  function FgCode(i: nat): nat { if i < 8 then 30 + i else 82 + i }

  function BgCode(i: nat): nat { if i < 8 then 40 + i else 92 + i }

  /** Every pair of palette colours can be had, from whatever came before, by one command: reset, foreground,
      background. */
  lemma ColoursShown(s: State, fg: nat, bg: nat, shown: (nat, nat))
    requires Inv(s) && s.mode.Normal? && fg < 16 && bg < 16
    ensures var (s', es) := FeedAll(s, PrintToken(Command([0, FgCode(fg), BgCode(bg)], 0x6D)));
      && s'.mode.Normal? && s'.attr == Attr(fg, bg, false, false)
      && Painted(shown, es) == (PALETTE[fg], PALETTE[bg])
  {
    var codes := [0, FgCode(fg), BgCode(bg)];
    FeedToken(s, Command(codes, 0x6D));
    KeptExactly(codes);
    ResetThenColours(s.attr, fg, bg, shown);
  }

  lemma ResetThenColours(a: Attr, fg: nat, bg: nat, shown: (nat, nat))
    requires AttrOk(a) && fg < 16 && bg < 16
    ensures var (r, es) := SgrAll(a, [0, FgCode(fg), BgCode(bg)]);
      r == Attr(fg, bg, false, false) && Painted(shown, es) == (PALETTE[fg], PALETTE[bg])
  {
    ThreeCodes(a, [0, FgCode(fg), BgCode(bg)]);
    var (a1, e1) := Sgr(a, 0);
    var (a2, e2) := Sgr(a1, FgCode(fg));
    var (a3, e3) := Sgr(a2, BgCode(bg));
    SgrSets(a, 0);
    SgrSets(a1, FgCode(fg));
    SgrSets(a2, BgCode(bg));
    PaintedJoin(shown, e1 + e2, e3);
    PaintedJoin(shown, e1, e2);
    CodePaints(a1, FgCode(fg), Painted(shown, e1));
    CodePaints(a2, BgCode(bg), Painted(Painted(shown, e1), e2));
  }

  lemma ThreeCodes(a: Attr, codes: seq<nat>)
    requires AttrOk(a) && |codes| == 3
    ensures var (a1, e1) := Sgr(a, codes[0]);
      var (a2, e2) := Sgr(a1, codes[1]);
      var (a3, e3) := Sgr(a2, codes[2]);
      SgrAll(a, codes) == (a3, e1 + e2 + e3)
  {
    assert SgrAll(a, codes[..0]) == (a, []) by { assert codes[..0] == []; }
    SgrNext(a, codes, 0);
    SgrNext(a, codes, 1);
    SgrNext(a, codes, 2);
    assert codes[..3] == codes;
    assert [] + Sgr(a, codes[0]).1 == Sgr(a, codes[0]).1;
  }

  /** Where it goes wrong: on a reversed screen red text is drawn on the old text colour. */
  lemma ReversedColourWrong()
    ensures var a := Attr(7, 0, false, true);
      Painted(Wanted(a), Sgr(a, 31).1) == (PALETTE[1], PALETTE[7]) && Wanted(Sgr(a, 31).0) == (PALETTE[0], PALETTE[1])
  {
    PaintedFew(Wanted(Attr(7, 0, false, true)), Sgr(Attr(7, 0, false, true), 31).1);
  }

  // ---------------------------------------------------------------- the parser object

  class Parser {
    var mode: Mode
    const params: array<nat>
    var nparam: nat
    var flag: Byte
    var attr: Attr

    ghost function Now(): State
      reads this, params
    {
      State(mode, params[..], nparam, flag, attr)
    }

    ghost predicate Valid()
      reads this, params
    {
      params.Length == MAX_PARAMS && Inv(Now())
    }

    constructor ()
      ensures Valid() && fresh(params)
      ensures Now() == State(Normal, Cleared(), 0, 0, Attr(DEFAULT_FG, DEFAULT_BG, false, false))
    {
      mode, nparam, flag := Normal, 0, 0;
      params := new nat[MAX_PARAMS](_ => 0);
      attr := Attr(DEFAULT_FG, DEFAULT_BG, false, false);
      new;
      assert params[..] == Cleared();
    }

    /** feed, with the callback's events returned in order. */
    method FeedByte(b: Byte) returns (events: seq<Event>)
      requires Valid()
      modifies this, params
      ensures Valid() && (Now(), events) == Feed(old(Now()), b)
    {
      match mode
      case Normal =>
        if b == 0x1B { mode := Esc; events := []; } else { events := NormalEvents(b); }
      case Esc =>
        events := [];
        if b == 0x5B {
          mode, nparam, flag := Csi, 0, 0;
          for i := 0 to MAX_PARAMS
            modifies params
            invariant forall k :: 0 <= k < i ==> params[k] == 0
          {
            params[i] := 0;
          }
          assert params[..] == Cleared();
        } else {
          if b == 0x37 { events := [SaveCursor]; }
          else if b == 0x38 { events := [RestoreCursor]; }
          else if b == 0x63 { events := [Reset]; }
          mode := Normal;
        }
      case Csi =>
        events := Collect(b);
    }

    /** csi_collect. */
    method Collect(b: Byte) returns (events: seq<Event>)
      requires Valid() && mode.Csi?
      modifies this, params
      ensures Valid() && (Now(), events) == FeedCsi(old(Now()), b)
    {
      events := [];
      ghost var was := params[..];
      if IsDigit(b) {
        if nparam == 0 { nparam := 1; }
        var idx := nparam - 1;
        params[idx] := Accumulate(params[idx], b - 0x30);
      } else if b == 0x3B {
        if nparam < 8 { nparam := nparam + 1; }
        if nparam < 8 { params[nparam] := 0; }
      } else if b == 0x3F || b == 0x3E || b == 0x21 {
        flag := b;
      } else if IsFinal(b) {
        events := Act(b);
        mode := Normal;
      }
    }

    /** dispatch: the SGR loop, or one event. */
    method Act(final: Byte) returns (events: seq<Event>)
      requires Valid() && mode.Csi?
      modifies `attr
      ensures Valid() && (attr, events) == Dispatch(old(attr), params[..nparam], final)
    {
      if final == 0x6D {
        events := SgrLoop();
      } else {
        var r := Dispatch(attr, params[..nparam], final);
        events := r.1;
      }
    }

    /** The attributes and events of every code in turn; none means 0. */
    method SgrLoop() returns (events: seq<Event>)
      requires Valid() && mode.Csi?
      modifies `attr
      ensures Valid() && (attr, events) == SgrAll(old(attr), if nparam == 0 then [0] else params[..nparam])
    {
      var n := if nparam == 0 then 1 else nparam;
      ghost var codes := if nparam == 0 then [0] else params[..nparam];
      assert nparam == 0 ==> params[0] == 0;
      events := [];
      var i := 0;
      while i < n
        invariant 0 <= i <= n && |codes| == n && AttrOk(attr)
        invariant (attr, events) == SgrAll(old(attr), codes[..i])
      {
        SgrNext(old(attr), codes, i);
        var r := Sgr(attr, params[i]);
        attr := r.0;
        events := events + r.1;
        i := i + 1;
      }
      assert codes[..n] == codes;
    }
  }

  lemma SgrNext(a: Attr, codes: seq<nat>, i: nat)
    requires AttrOk(a) && i < |codes|
    ensures var (a1, e1) := SgrAll(a, codes[..i]);
      SgrAll(a, codes[..i + 1]) == (Sgr(a1, codes[i]).0, e1 + Sgr(a1, codes[i]).1)
  {
    assert codes[..i + 1][..i] == codes[..i];
  }
}
