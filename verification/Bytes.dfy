/** Bytes and their little-endian reading, shared by every component that stores numbers in raw memory. */
module Bytes {

  type Byte = b: int | 0 <= b < 256

  datatype Option<+T> = None | Some(value: T)

  function Min(a: int, b: int): (r: int)
    ensures r <= a && r <= b && (r == a || r == b)
  {
    if a <= b then a else b
  }

  /** trim_null: a buffer up to its first zero byte. */
  function UpToNul(p: seq<Byte>): (r: seq<Byte>)
    ensures r <= p && (forall i :: 0 <= i < |r| ==> r[i] != 0) && (|r| < |p| ==> p[|r|] == 0)
  {
    if p == [] || p[0] == 0 then [] else [p[0]] + UpToNul(p[1..])
  }

  lemma {:induction false} NoNul(p: seq<Byte>)
    requires forall i :: 0 <= i < |p| ==> p[i] != 0
    ensures UpToNul(p) == p
  {
    if p != [] { NoNul(p[1..]); }
  }

  lemma TrimTwice(p: seq<Byte>)
    ensures UpToNul(UpToNul(p)) == UpToNul(p)
  {
    NoNul(UpToNul(p));
  }

  /** Index of the first `/`, or the length. */
  function SlashAt(p: seq<Byte>): (n: nat)
    ensures n <= |p| && (forall i :: 0 <= i < n ==> p[i] != 0x2F) && (n < |p| ==> p[n] == 0x2F)
  {
    if p == [] || p[0] == 0x2F then 0 else 1 + SlashAt(p[1..])
  }

  /** What follows the first `/`. */
  function AfterSlash(p: seq<Byte>): (r: seq<Byte>)
    ensures p != [] ==> |r| < |p|
  {
    if SlashAt(p) < |p| then p[SlashAt(p) + 1..] else []
  }

  /** A path component: not empty, without slash or zero. */
  predicate Component(c: seq<Byte>) { c != [] && forall i :: 0 <= i < |c| ==> c[i] != 0x2F && c[i] != 0 }

  /** A path of these components. */
  function JoinPath(comps: seq<seq<Byte>>): seq<Byte> {
    if comps == [] then [] else if |comps| == 1 then comps[0] else comps[0] + [0x2F] + JoinPath(comps[1..])
  }

  /** Its first component is what stands before the first slash, and the others are what stands behind. */
  lemma JoinSplit(comps: seq<seq<Byte>>)
    requires comps != [] && Component(comps[0])
    ensures var p := JoinPath(comps);
      p != [] && p[..SlashAt(p)] == comps[0] && AfterSlash(p) == JoinPath(comps[1..])
  {
    var p, n := JoinPath(comps), |comps[0]|;
    assert p[..n] == comps[0];
    assert forall i :: 0 <= i < n ==> p[i] == comps[0][i];
    if |comps| > 1 { assert p[n] == 0x2F && p[n + 1..] == JoinPath(comps[1..]); }
    SlashIsAt(p, n);
  }

  lemma SlashIsAt(p: seq<Byte>, n: nat)
    requires n <= |p| && (forall i :: 0 <= i < n ==> p[i] != 0x2F) && (n < |p| ==> p[n] == 0x2F)
    ensures SlashAt(p) == n
  {
  }

  lemma {:induction false} JoinHasNoNul(comps: seq<seq<Byte>>)
    requires forall i :: 0 <= i < |comps| ==> Component(comps[i])
    ensures forall i :: 0 <= i < |JoinPath(comps)| ==> JoinPath(comps)[i] != 0
  {
    if comps != [] { JoinHasNoNul(comps[1..]); }
  }

  lemma SubsetSize<T>(a: set<T>, b: set<T>)
    requires a <= b
    ensures |a| <= |b|
  {
    assert b == a + (b - a);
  }

  /** 256^n. */
  function Pow256(n: nat): (p: nat)
    ensures p > 0
  {
    if n == 0 then 1 else 256 * Pow256(n - 1)
  }

  /** The n low bytes of v, least significant first. */
  function LeBytes(v: nat, n: nat): (s: seq<Byte>)
    ensures |s| == n
    decreases n, v
  {
    if n == 0 then [] else [v % 256] + LeBytes(v / 256, n - 1)
  }

  /** The number whose little-endian bytes are s. */
  function LeValue(s: seq<Byte>): nat {
    if s == [] then 0 else s[0] + 256 * LeValue(s[1..])
  }

  /** Storing n bytes of v and loading them back loses exactly the bits above 8n. */
  lemma {:induction false} LeRoundTrip(v: nat, n: nat)
    ensures LeValue(LeBytes(v, n)) < Pow256(n)
    ensures v < Pow256(n) ==> LeValue(LeBytes(v, n)) == v
    decreases n
  {
    if n > 0 {
      var s := LeBytes(v, n);
      assert s[0] == v % 256 && s[1..] == LeBytes(v / 256, n - 1);
      LeRoundTrip(v / 256, n - 1);
    }
  }

  /** Loading n bytes and storing them back gives the same bytes. */
  lemma {:induction false} LeBytesOfValue(s: seq<Byte>)
    ensures LeBytes(LeValue(s), |s|) == s
  {
    if s != [] {
      LeBytesOfValue(s[1..]);
      var v, rest := LeValue(s), LeValue(s[1..]);
      assert v == s[0] + 256 * rest && v % 256 == s[0] && v / 256 == rest;
      assert s == [s[0]] + s[1..];
    }
  }

  lemma PowConstants()
    ensures Pow256(1) == 0x100 && Pow256(2) == 0x1_0000
    ensures Pow256(4) == 0x1_0000_0000
    ensures Pow256(8) == 0x1_0000_0000_0000_0000
  {
    assert Pow256(3) == 0x100_0000;
    assert Pow256(6) == 0x1_0000_0000_0000;
  }
}
