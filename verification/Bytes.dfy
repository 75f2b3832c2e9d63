/** Bytes and the little-endian numbers the file formats are made of. */
module Bytes {
  type byte = b: int | 0 <= b < 256

  function Zeros(n: nat): (z: seq<byte>)
    ensures |z| == n && forall k :: 0 <= k < n ==> z[k] == 0
  {
    seq(n, _ => 0)
  }

  /** The n-byte little-endian number at `at`. */
  function LE(s: seq<byte>, at: nat, n: nat): (v: nat)
    requires at + n <= |s|
    decreases n
  {
    if n == 0 then 0 else s[at] + 256 * LE(s, at + 1, n - 1)
  }

  lemma Two(s: seq<byte>, at: nat)
    requires at + 2 <= |s|
    ensures LE(s, at, 2) == s[at] as int + 256 * s[at + 1] as int
  {
    assert LE(s, at + 1, 1) == s[at + 1];
  }

  function Pow256(n: nat): (p: nat)
    ensures p >= 1
  {
    if n == 0 then 1 else 256 * Pow256(n - 1)
  }

  /** v as n little-endian bytes, cut off if it does not fit. */
  function Enc(v: nat, n: nat): (s: seq<byte>)
    ensures |s| == n
  {
    if n == 0 then [] else [v % 256] + Enc(v / 256, n - 1)
  }

  /** Whatever follows a number on either side, it reads back. */
  lemma {:induction false} EncRead(s: seq<byte>, at: nat, v: nat, n: nat)
    requires v < Pow256(n) && at + n <= |s| && s[at..at + n] == Enc(v, n)
    ensures LE(s, at, n) == v
    decreases n
  {
    if n > 0 {
      assert s[at..at + n][0] == s[at];
      assert s[at + 1..at + 1 + (n - 1)] == s[at..at + n][1..];
      EncRead(s, at + 1, v / 256, n - 1);
    }
  }
}
