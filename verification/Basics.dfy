/** Machine integers and small helpers shared by all modules. */
module Basics {
  const TWO32: int := 0x1_0000_0000

  type byte = b: int | 0 <= b < 256

  type u32 = v: int | 0 <= v < 0x1_0000_0000

  datatype Option<+T> = None | Some(value: T)

  function Min(a: int, b: int): int {
    if a < b then a else b
  }

  function Max(a: int, b: int): int {
    if a > b then a else b
  }

  /** C subtraction on `unsigned`: wraps modulo 2^32. */
  function Sub32(a: u32, b: u32): u32 {
    if a >= b then a - b else a - b + TWO32
  }

  /** C addition on `unsigned`: wraps modulo 2^32. */
  function Add32(a: u32, b: u32): u32 {
    if a + b < TWO32 then a + b else a + b - TWO32
  }

  /** The last `n` elements of `s`, or all of it when it is shorter. */
  function Last<T>(s: seq<T>, n: nat): seq<T> {
    if |s| <= n then s else s[|s| - n..]
  }

  /** A straight copy of `src` to position `p`. */
  function Put(cells: seq<byte>, p: nat, src: seq<byte>): (c: seq<byte>)
    requires p + |src| <= |cells|
    ensures |c| == |cells|
  {
    seq(|cells|, i requires 0 <= i < |cells| => if p <= i < p + |src| then src[i - p] else cells[i])
  }

  lemma PutNext(s: seq<byte>, p: nat, src: seq<byte>, b: byte)
    requires p + |src| < |s|
    ensures Put(s, p, src)[p + |src| := b] == Put(s, p, src + [b])
  {
  }

  /** Two copies side by side are one. */
  lemma PutBoth(s: seq<byte>, p: nat, a: seq<byte>, b: seq<byte>)
    requires p + |a| + |b| <= |s|
    ensures Put(Put(s, p, a), p + |a|, b) == Put(s, p, a + b)
    ensures Put(Put(s, p + |a|, b), p, a) == Put(s, p, a + b)
  {
  }

  /** What lies where it was put. */
  lemma PutSlice(s: seq<byte>, p: nat, src: seq<byte>)
    requires p + |src| <= |s|
    ensures Put(s, p, src)[p..p + |src|] == src
  {
  }

  lemma PrefixGrows(s: seq<byte>, n: nat, k: nat)
    requires n + k <= |s|
    ensures s[..n + k] == s[..n] + s[n..][..k]
  {
  }
}
