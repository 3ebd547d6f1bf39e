/** Bytes in the 64-bit words of an IPC message.  Clients reinterpret the words as bytes in memory,
    servers shift and mask; both must mean the same bytes. */
module Packing {
  import opened Bytes

  const CHUNK_SIZE: nat := 40
  const DATA_WORDS: nat := 5

  /** (w >> 8k) as u8. */
  function ShiftByte(w: nat, k: nat): (b: Byte)
    decreases k, w
  {
    if k == 0 then w % 256 else ShiftByte(w / 256, k - 1)
  }

  /** x | y over the n low bits. */
  function OrBits(x: nat, y: nat, n: nat): (r: nat)
    ensures r < Pow2(n)
    decreases n, x
  {
    if n == 0 then 0 else (if x % 2 == 1 || y % 2 == 1 then 1 else 0) + 2 * OrBits(x / 2, y / 2, n - 1)
  }

  function Pow2(n: nat): (p: nat)
    ensures p > 0
  {
    if n == 0 then 1 else 2 * Pow2(n - 1)
  }

  lemma {:induction false} OrBitsZero(y: nat, n: nat)
    requires y < Pow2(n)
    ensures OrBits(0, y, n) == y
    decreases n
  {
    if n > 0 { OrBitsZero(y / 2, n - 1); }
  }

  lemma Pow2Byte()
    ensures Pow2(8) == 256
  {
    assert Pow2(4) == 16;
  }

  function Or8(x: Byte, y: Byte): Byte {
    Pow2Byte();
    OrBits(x, y, 8)
  }

  /** w | (b << 8k). */
  function OrByte(w: nat, b: Byte, k: nat): (r: nat)
    decreases k, w
  {
    if k == 0 then w / 256 * 256 + Or8(w % 256, b) else w % 256 + 256 * OrByte(w / 256, b, k - 1)
  }

  lemma Or8Zero(b: Byte)
    ensures Or8(0, b) == b
  {
    Pow2Byte();
    OrBitsZero(b, 8);
  }

  /** Or-ing a byte into place changes that byte only. */
  lemma {:induction false} ShiftOfOr(w: nat, b: Byte, k: nat, j: nat)
    ensures ShiftByte(OrByte(w, b, k), j) == if j == k then Or8(ShiftByte(w, k), b) else ShiftByte(w, j)
    decreases k, j
  {
    var r := OrByte(w, b, k);
    if k == 0 {
      assert r % 256 == Or8(w % 256, b) && r / 256 == w / 256;
    } else {
      assert r % 256 == w % 256 && r / 256 == OrByte(w / 256, b, k - 1);
      if j > 0 { ShiftOfOr(w / 256, b, k - 1, j - 1); }
    }
  }

  /** Shifting picks out the byte that memory holds. */
  lemma {:induction false} ShiftOfLe(s: seq<Byte>, k: nat)
    ensures ShiftByte(LeValue(s), k) == if k < |s| then s[k] else 0
    decreases k, |s|
  {
    if s == [] {
      if k > 0 { ShiftOfLe([], k - 1); }
    } else {
      var rest := LeValue(s[1..]);
      assert LeValue(s) % 256 == s[0] && LeValue(s) / 256 == rest;
      if k > 0 { ShiftOfLe(s[1..], k - 1); }
    }
  }

  lemma {:induction false} LeBytesIsShift(w: nat, n: nat, k: nat)
    requires k < n
    ensures LeBytes(w, n)[k] == ShiftByte(w, k)
    decreases n, k
  {
    if k > 0 { LeBytesIsShift(w / 256, n - 1, k - 1); }
  }

  /** The i-th byte of packed words, as the servers read it. */
  function ByteOf(words: seq<nat>, i: nat): Byte
    requires i / 8 < |words|
  {
    ShiftByte(words[i / 8], i % 8)
  }

  /** words carry exactly `data`, zero padded. */
  ghost predicate Carries(words: seq<nat>, data: seq<Byte>) {
    && |data| <= 8 * |words|
    && (forall i: nat {:trigger ByteOf(words, i)} ::
      i < 8 * |words| ==> ByteOf(words, i) == if i < |data| then data[i] else 0)
  }

  // ---------------------------------------------------------------- clients: words as memory

  /** A zero-padded buffer of whole words, reinterpreted as words. */
  function CastWords(buf: seq<Byte>): (w: seq<nat>)
    requires |buf| % 8 == 0
    ensures |w| == |buf| / 8
  {
    if buf == [] then [] else [LeValue(buf[..8])] + CastWords(buf[8..])
  }

  function ZeroPad(data: seq<Byte>, n: nat): (buf: seq<Byte>)
    requires |data| <= n
    ensures |buf| == n
  {
    data + seq(n - |data|, _ => 0)
  }

  lemma {:induction false} CastByte(buf: seq<Byte>, i: nat)
    requires |buf| % 8 == 0 && i < |buf|
    ensures i / 8 < |CastWords(buf)| && ByteOf(CastWords(buf), i) == buf[i]
    decreases |buf|
  {
    var w := CastWords(buf);
    if i < 8 {
      ShiftOfLe(buf[..8], i);
    } else {
      CastByte(buf[8..], i - 8);
      assert w[1..] == CastWords(buf[8..]) && w[i / 8] == w[1..][i / 8 - 1];
      assert (i - 8) / 8 == i / 8 - 1 && (i - 8) % 8 == i % 8;
    }
  }

  /** pack_data of the C library and pack_bytes of the block driver: up to 40 bytes in five words. */
  function PackData(src: seq<Byte>): (w: seq<nat>)
    ensures |w| == DATA_WORDS
  {
    CastWords(ZeroPad(src[..Min(|src|, CHUNK_SIZE)], CHUNK_SIZE))
  }

  lemma PackDataCarries(src: seq<Byte>)
    requires |src| <= CHUNK_SIZE
    ensures Carries(PackData(src), src)
  {
    assert src[..Min(|src|, CHUNK_SIZE)] == src;
    var buf := ZeroPad(src, CHUNK_SIZE);
    forall i: nat | i < 8 * DATA_WORDS ensures ByteOf(PackData(src), i) == if i < |src| then src[i] else 0 {
      CastByte(buf, i);
    }
  }

  /** Five words as the 40 bytes they occupy. */
  function CastBytes(words: seq<nat>): (s: seq<Byte>)
    ensures |s| == 8 * |words|
  {
    if words == [] then [] else LeBytes(words[0], 8) + CastBytes(words[1..])
  }

  lemma {:induction false} CastBytesAt(words: seq<nat>, i: nat)
    requires i < 8 * |words|
    ensures CastBytes(words)[i] == ByteOf(words, i)
    decreases |words|
  {
    if i < 8 {
      LeBytesIsShift(words[0], 8, i);
    } else {
      CastBytesAt(words[1..], i - 8);
      assert words[i / 8] == words[1..][i / 8 - 1] && (i - 8) / 8 == i / 8 - 1 && (i - 8) % 8 == i % 8;
    }
  }

  /** The client's view of carried data. */
  lemma CastOfCarried(words: seq<nat>, data: seq<Byte>, n: nat)
    requires Carries(words, data) && n <= |data|
    ensures CastBytes(words)[..n] == data[..n]
  {
    forall i | 0 <= i < n ensures CastBytes(words)[i] == data[i] {
      CastBytesAt(words, i);
    }
  }

  /** unpack_data: copies min(count, 40, dst.Length) bytes to the front of dst. */
  method UnpackData(words: seq<nat>, dst: array<Byte>, at: nat, room: nat, count: nat) returns (n: nat)
    requires |words| == DATA_WORDS && at + room <= dst.Length
    modifies dst
    ensures n == Min(Min(count, CHUNK_SIZE), room)
    ensures dst[..] == old(dst[..at]) + CastBytes(words)[..n] + old(dst[at + n..])
  {
    var bytes := CastBytes(words);
    n := Min(Min(count, CHUNK_SIZE), room);
    for i := 0 to n
      invariant forall k :: 0 <= k < dst.Length ==> dst[k] == if at <= k < at + i then bytes[k - at] else old(dst[k])
    {
      dst[at + i] := bytes[i];
    }
    assert dst[..] == old(dst[..at]) + bytes[..n] + old(dst[at + n..]);
  }

  // ---------------------------------------------------------------- servers: shift and mask

  /** pack_bytes_into, starting from zeroed words. */
  method PackBytesInto(n: nat, src: seq<Byte>) returns (words: seq<nat>)
    requires |src| <= 8 * n
    ensures |words| == n && Carries(words, src)
  {
    words := seq(n, _ => 0);
    forall k: nat | k < 8 * n ensures ByteOf(words, k) == 0 { ShiftOfLe([], k % 8); }
    for i := 0 to |src|
      invariant |words| == n
      invariant forall k: nat {:trigger ByteOf(words, k)} ::
        k < 8 * n ==> ByteOf(words, k) == if k < i then src[k] else 0
    {
      ghost var was := words;
      var wi, bi := i / 8, i % 8;
      words := words[wi := OrByte(words[wi], src[i], bi)];
      forall k: nat | k < 8 * n ensures ByteOf(words, k) == if k < i + 1 then src[k] else 0 {
        assert ByteOf(was, k) == if k < i then src[k] else 0;
        ShiftOfOr(was[wi], src[i], bi, k % 8);
        if k == i { Or8Zero(src[i]); }
        assert k / 8 == wi && k % 8 == bi ==> k == i;
      }
    }
  }

  /** unpack_bytes_from and unpack_into: the first n bytes, read by shifting. */
  method UnpackShift(words: seq<nat>, n: nat) returns (out: seq<Byte>)
    requires n <= 8 * |words|
    ensures |out| == n && forall i :: 0 <= i < n ==> out[i] == ByteOf(words, i)
  {
    out := [];
    for i := 0 to n
      invariant |out| == i && forall k :: 0 <= k < i ==> out[k] == ByteOf(words, k)
    {
      out := out + [ByteOf(words, i)];
    }
  }

  /** What a server unpacks from carried data. */
  lemma ShiftOfCarried(words: seq<nat>, data: seq<Byte>, out: seq<Byte>)
    requires Carries(words, data) && |out| <= 8 * |words|
    requires forall i :: 0 <= i < |out| ==> out[i] == ByteOf(words, i)
    ensures forall i :: 0 <= i < |out| ==> out[i] == if i < |data| then data[i] else 0
    ensures |data| <= |out| ==> out[..|data|] == data
  {
  }
}
