/** Octets and the C string helpers the byte-level modules share. */
module Bytes {
  type byte = x: int | 0 <= x < 256

  datatype Option<+T> = None | Some(value: T)

  /**
   * What strncpy writes for a source of exactly |s| readable octets: a NUL stops the copy and the rest is zero-filled.
   */
  function StrNCopy(s: seq<byte>): (r: seq<byte>)
    ensures |r| == |s|
    ensures 0 !in s ==> r == s
  {
    if s == [] then [] else if s[0] == 0 then seq(|s|, _ => 0) else [s[0]] + StrNCopy(s[1..])
  }

  /** b with its octets from position d on replaced by piece. */
  function Splice<T>(b: seq<T>, d: nat, piece: seq<T>): (r: seq<T>)
    requires d + |piece| <= |b|
    ensures |r| == |b|
  {
    b[..d] + piece + b[d + |piece|..]
  }

  /** Writing two pieces one after the other is writing their concatenation. */
  lemma SpliceTwice<T>(b: seq<T>, d: nat, p: seq<T>, q: seq<T>)
    requires d + |p| + |q| <= |b|
    ensures Splice(Splice(b, d, p), d + |p|, q) == Splice(b, d, p + q)
  {
    assert Splice(b, d, p)[..d + |p|] == b[..d] + p;
  }

  lemma SpliceNothing<T>(b: seq<T>, d: nat)
    requires d <= |b|
    ensures Splice(b, d, []) == b
  {}

  lemma SplitAround<T>(s: seq<T>, n: nat)
    requires n < |s|
    ensures s == s[..n] + [s[n]] + s[n + 1..]
  {}

  lemma Assoc<T>(a: seq<T>, b: seq<T>, c: seq<T>)
    ensures a + (b + c) == a + b + c
  {}

  lemma SliceSplits<T>(s: seq<T>, a: nat, b: nat, n: nat)
    requires a <= b <= |s| && n <= b - a
    ensures s[a..b][..n] == s[a..a + n] && s[a..b][n..] == s[a + n..b]
  {}

  /** s without the n elements from k on. */
  function Cut<T>(s: seq<T>, k: nat, n: nat): seq<T>
    requires k + n <= |s|
  {
    s[..k] + s[k + n..]
  }

  function Reversed<T>(s: seq<T>): seq<T> {
    if s == [] then [] else Reversed(s[1..]) + [s[0]]
  }
}
