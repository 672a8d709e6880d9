/** Byte strings, fixed-width little-endian integers and overwriting a region of a buffer. */
module Bytes {

  type byte = b: int | 0 <= b < 0x100
  type u16 = x: int | 0 <= x < 0x1_0000
  type u32 = x: int | 0 <= x < 0x1_0000_0000
  type u64 = x: int | 0 <= x < 0x1_0000_0000_0000_0000
  type Bytes = seq<byte>

  function Zeros(n: nat): (z: Bytes)
    ensures |z| == n
  {
    seq(n, _ => 0)
  }

  function Min(a: int, b: int): int {
    if a <= b then a else b
  }

  // ----- Little-endian integers -----

  function Pow256(w: nat): nat {
    if w == 0 then 1 else 256 * Pow256(w - 1)
  }

  /** The `w` low-order bytes of `n`, least significant first. */
  function ToLe(n: nat, w: nat): (b: Bytes)
    ensures |b| == w
  {
    if w == 0 then [] else [n % 256] + ToLe(n / 256, w - 1)
  }

  function FromLe(b: Bytes): nat {
    if b == [] then 0 else b[0] + 256 * FromLe(b[1..])
  }

  /** Decoding gives back every integer that fits the width. */
  lemma {:induction false} FromLeToLe(n: nat, w: nat)
    requires n < Pow256(w)
    ensures FromLe(ToLe(n, w)) == n
  {
    if w != 0 {
      FromLeToLe(n / 256, w - 1);
      assert ToLe(n, w)[1..] == ToLe(n / 256, w - 1);
    }
  }

  /** Encoding gives back every byte string, and a decoded integer fits the width. */
  lemma {:induction false} ToLeFromLe(b: Bytes)
    ensures ToLe(FromLe(b), |b|) == b
    ensures FromLe(b) < Pow256(|b|)
  {
    if b != [] {
      ToLeFromLe(b[1..]);
      assert FromLe(b) % 256 == b[0] && FromLe(b) / 256 == FromLe(b[1..]);
      assert b == [b[0]] + b[1..];
    }
  }

  lemma Pow256Values()
    ensures Pow256(1) == 0x100
    ensures Pow256(2) == 0x1_0000
    ensures Pow256(4) == 0x1_0000_0000
    ensures Pow256(8) == 0x1_0000_0000_0000_0000
  {
    assert Pow256(4) == 256 * 256 * 256 * 256 * Pow256(0);
    assert Pow256(8) == 256 * 256 * 256 * 256 * Pow256(4);
  }

  function ReadU16(b: Bytes): u16
    requires |b| == 2
  {
    ToLeFromLe(b);
    Pow256Values();
    FromLe(b)
  }

  function ReadU32(b: Bytes): u32
    requires |b| == 4
  {
    ToLeFromLe(b);
    Pow256Values();
    FromLe(b)
  }

  function ReadU64(b: Bytes): u64
    requires |b| == 8
  {
    ToLeFromLe(b);
    Pow256Values();
    FromLe(b)
  }

  /** A prefix is a given concatenation exactly if both of its parts are the given ones. */
  lemma PrefixIs(b: Bytes, lo: nat, hi: nat, front: Bytes, back: Bytes)
    requires lo <= hi <= |b| && |front| == lo && |back| == hi - lo
    ensures b[..hi] == front + back <==> b[..lo] == front && b[lo..hi] == back
  {
    assert b[..hi][..lo] == b[..lo] && b[..hi][lo..] == b[lo..hi];
    assert (front + back)[..lo] == front && (front + back)[lo..] == back;
    assert b[..hi] == b[..lo] + b[lo..hi];
  }

  // ----- Overwriting a region -----

  lemma SliceOfSlice(b: Bytes, lo: nat, hi: nat, i: nat, j: nat)
    requires lo <= hi <= |b| && i <= j <= hi - lo
    ensures b[lo..hi][i..j] == b[lo + i..lo + j]
  {
    assert forall k :: 0 <= k < j - i ==> b[lo..hi][i..j][k] == b[lo + i..lo + j][k];
  }

  /** `s` with the bytes from `at` on replaced by `b`. */
  function Splice(s: Bytes, at: nat, b: Bytes): (r: Bytes)
    requires at + |b| <= |s|
    ensures |r| == |s|
  {
    s[..at] + b + s[at + |b|..]
  }

  /** The overwritten region reads back what was written. */
  lemma SpliceReadsBack(s: Bytes, at: nat, b: Bytes)
    requires at + |b| <= |s|
    ensures Splice(s, at, b)[at..at + |b|] == b
  {
  }

  /** A region that the written one does not meet is unchanged. */
  lemma SpliceElsewhere(s: Bytes, at: nat, b: Bytes, lo: nat, hi: nat)
    requires at + |b| <= |s| && lo <= hi <= |s|
    requires hi <= at || at + |b| <= lo
    ensures Splice(s, at, b)[lo..hi] == s[lo..hi]
  {
  }

  /** Writing what is already there changes nothing. */
  lemma SpliceSame(s: Bytes, lo: nat, hi: nat)
    requires lo <= hi <= |s|
    ensures Splice(s, lo, s[lo..hi]) == s
  {
  }

  /** Two writes one after the other, side by side, are one write. */
  lemma SpliceAppend(s: Bytes, at: nat, a: Bytes, b: Bytes)
    requires at + |a| + |b| <= |s|
    ensures Splice(Splice(s, at, a), at + |a|, b) == Splice(s, at, a + b)
  {
  }
}
