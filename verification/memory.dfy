/**
 The three C library primitives the container is built from, at element
 granularity: memmove, memset and memcpy over a buffer of slots.
 */
module Memory {

  /**
   memmove of `n` slots from `src` to `dst`: the source range is read as it
   was before any slot is written, so overlapping ranges are safe.
   */
  function Move<T>(buf: seq<T>, dst: nat, src: nat, n: nat): (r: seq<T>)
    requires dst + n <= |buf| && src + n <= |buf|
    ensures |r| == |buf|
    ensures forall i :: dst <= i < dst + n ==> r[i] == buf[src + (i - dst)]
    ensures forall i :: 0 <= i < |buf| && !(dst <= i < dst + n) ==> r[i] == buf[i]
  {
    buf[..dst] + buf[src..src + n] + buf[dst + n..]
  }

  /** memset of the `n` slots starting at `at` to the value `x`. */
  function Fill<T>(buf: seq<T>, at: nat, n: nat, x: T): (r: seq<T>)
    requires at + n <= |buf|
    ensures |r| == |buf|
    ensures forall i :: at <= i < at + n ==> r[i] == x
    ensures forall i :: 0 <= i < |buf| && !(at <= i < at + n) ==> r[i] == buf[i]
  {
    buf[..at] + seq(n, _ => x) + buf[at + n..]
  }

  /** memcpy of the first `n` slots of `src` over the first `n` slots of `dst`. */
  function CopyPrefix<T>(dst: seq<T>, src: seq<T>, n: nat): (r: seq<T>)
    requires n <= |dst| && n <= |src|
    ensures |r| == |dst|
    ensures r[..n] == src[..n]
    ensures r[n..] == dst[n..]
  {
    src[..n] + dst[n..]
  }
}
