/** The Internet checksum (RFC 1071) and the packets that carry it. */
module Checksum {
  import opened Bytes

  const U16: nat := 0x1_0000
  const U32: nat := 0x1_0000_0000
  /** Beyond this length the 32-bit sum could overflow. */
  const MAX_SUMMED: nat := 131074

  function Be16(hi: Byte, lo: Byte): (w: nat)
    ensures w < U16
  {
    var h: int := hi;
    h * 256 + lo
  }

  /** Sum of the big-endian 16-bit words; an odd last byte is padded with zero. */
  function WordSum(data: seq<Byte>): (s: nat)
    ensures s <= (|data| + 1) / 2 * 65535
  {
    if |data| == 0 then 0
    else if |data| == 1 then Be16(data[0], 0)
    else Be16(data[0], data[1]) + WordSum(data[2..])
  }

  /** Folding the carries back in until 16 bits remain. */
  function Fold(sum: nat): (f: nat)
    ensures f < U16
  {
    if sum < U16 then sum else Fold(sum % U16 + sum / U16)
  }

  /** The fold takes off multiples of 65535 only, and reaches zero only from zero. */
  lemma {:induction false} FoldQuotient(sum: nat) returns (q: nat)
    ensures sum == Fold(sum) + 65535 * q && (Fold(sum) == 0 <==> sum == 0)
  {
    q := 0;
    if sum >= U16 {
      var r := FoldQuotient(sum % U16 + sum / U16);
      q := r + sum / U16;
    }
  }

  /** So it preserves the sum modulo 65535. */
  lemma FoldResidue(sum: nat)
    ensures Fold(sum) % 65535 == sum % 65535
  {
    var q := FoldQuotient(sum);
  }

  function ChecksumOf(data: seq<Byte>): (c: nat)
    ensures c < U16
  {
    65535 - Fold(WordSum(data))
  }

  /** One's complement addition of 16-bit words: a carry out of bit 15 re-enters at bit 0. */
  function OnesAdd(a: nat, b: nat): nat {
    if a + b < U16 then a + b else a + b - 65535
  }

  function OnesSum(data: seq<Byte>): nat {
    if |data| == 0 then 0
    else if |data| == 1 then Be16(data[0], 0)
    else OnesAdd(Be16(data[0], data[1]), OnesSum(data[2..]))
  }

  /** Deferred carries lose nothing: the checksum is the complement of the one's complement sum. */
  lemma {:induction false} ChecksumIsOnesComplement(data: seq<Byte>)
    ensures OnesSum(data) == Fold(WordSum(data)) && ChecksumOf(data) == 65535 - OnesSum(data)
  {
    if |data| >= 2 {
      ChecksumIsOnesComplement(data[2..]);
      OnesAddFolds(Be16(data[0], data[1]), WordSum(data[2..]));
    }
  }

  lemma OnesAddFolds(w: nat, rest: nat)
    requires w < U16
    ensures OnesAdd(w, Fold(rest)) == Fold(w + rest)
  {
    var q := FoldQuotient(rest);
    var r := FoldQuotient(w + rest);
    SameResidue(OnesAdd(w, Fold(rest)), Fold(w + rest), r - q - (if w + Fold(rest) < U16 then 0 else 1));
  }

  lemma SameResidue(x: nat, y: nat, k: int)
    requires x < U16 && y < U16 && x - y == 65535 * k && (x == 0 <==> y == 0)
    ensures x == y
  {
  }

  /** data with the 16-bit value v written big-endian at `at`. */
  function PutU16(data: seq<Byte>, at: nat, v: nat): (d: seq<Byte>)
    requires at + 2 <= |data| && v < U16
    ensures |d| == |data|
  {
    data[at := v / 256][at + 1 := v % 256]
  }

  lemma {:induction false} WordSumPut(data: seq<Byte>, at: nat, v: nat)
    requires at % 2 == 0 && at + 2 <= |data| && v < U16 && data[at] == 0 && data[at + 1] == 0
    ensures WordSum(PutU16(data, at, v)) == WordSum(data) + v
    decreases at
  {
    var d := PutU16(data, at, v);
    if at == 0 {
      assert d[2..] == data[2..];
    } else {
      assert d[2..] == PutU16(data[2..], at - 2, v);
      WordSumPut(data[2..], at - 2, v);
    }
  }

  /** A message whose cleared checksum field at an even offset receives its checksum sums to zero. */
  lemma FilledVerifies(data: seq<Byte>, at: nat)
    requires at % 2 == 0 && at + 2 <= |data| && data[at] == 0 && data[at + 1] == 0
    ensures ChecksumOf(PutU16(data, at, ChecksumOf(data))) == 0
  {
    WordSumPut(data, at, ChecksumOf(data));
    ComplementFolds(WordSum(data));
  }

  /** Adding the complement of a folded sum gives all ones. */
  lemma ComplementFolds(s: nat)
    ensures Fold(s + (65535 - Fold(s))) == 65535
  {
    var q := FoldQuotient(s);
    var r := FoldQuotient(s + (65535 - Fold(s)));
    SameResidue(Fold(s + (65535 - Fold(s))), 65535, q - r);
  }

  lemma FoldStep(sum: nat)
    requires sum >= U16
    ensures Fold(sum) == Fold(sum % U16 + sum / U16) && sum % U16 + sum / U16 < sum
  {
  }

  /** ip_checksum. */
  method IpChecksum(data: seq<Byte>) returns (c: nat)
    requires |data| <= MAX_SUMMED
    ensures c == ChecksumOf(data)
  {
    var sum: nat, i: nat := 0, 0;
    while i + 1 < |data|
      invariant i <= |data|
      invariant sum + WordSum(data[i..]) == WordSum(data) < U32
    {
      assert data[i..][2..] == data[i + 2..];
      sum := sum + Be16(data[i], data[i + 1]);
      i := i + 2;
    }
    if i < |data| {
      sum := sum + Be16(data[i], 0);
    }
    while sum / U16 != 0
      invariant sum < U32 && Fold(sum) == Fold(WordSum(data))
      decreases sum
    {
      FoldStep(sum);
      sum := sum % U16 + sum / U16;
    }
    c := 65535 - sum;
  }
}
