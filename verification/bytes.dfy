/**
 The storage an array element occupies: a block of `elsize` bytes. The
 container never looks inside a block; it only copies, moves and zeroes them.
 */
module Bytes {

  /** One byte of storage. */
  newtype byte = x: int | 0 <= x < 256

  /** The bytes of one element slot. */
  type Block = seq<byte>

  /** True iff every byte of `b` is zero. */
  predicate IsZero(b: Block) {
    forall j :: 0 <= j < |b| ==> b[j] == 0
  }

  /** The all-bits-zero element of `n` bytes. */
  function Zero(n: nat): (b: Block)
    ensures |b| == n && IsZero(b)
  {
    seq(n, _ => 0)
  }

  /** `k` all-bits-zero elements of `n` bytes each. */
  function Zeros(k: nat, n: nat): (bs: seq<Block>)
    ensures |bs| == k
    ensures forall i :: 0 <= i < k ==> bs[i] == Zero(n)
  {
    seq(k, _ => Zero(n))
  }

  /** True iff every block in `bs` is exactly `e` bytes long. */
  predicate Uniform(bs: seq<Block>, e: nat) {
    forall i :: 0 <= i < |bs| ==> |bs[i]| == e
  }

  /** The contiguous byte image of a sequence of blocks laid end to end. */
  function Flatten(bs: seq<Block>): (image: seq<byte>)
  {
    if |bs| == 0 then [] else Flatten(bs[..|bs| - 1]) + bs[|bs| - 1]
  }

  /** Blocks of `e` bytes each occupy `e * |bs|` bytes. */
  lemma {:induction false} FlattenLength(bs: seq<Block>, e: nat)
    requires Uniform(bs, e)
    ensures |Flatten(bs)| == e * |bs|
  {
    if |bs| > 0 {
      FlattenLength(bs[..|bs| - 1], e);
    }
  }

  /** Byte `j` of element `k` sits at byte offset `e * k + j`. */
  lemma {:induction false} FlattenIndex(bs: seq<Block>, e: nat, k: nat, j: nat)
    requires Uniform(bs, e)
    requires k < |bs| && j < e
    ensures e * k + j < |Flatten(bs)|
    ensures Flatten(bs)[e * k + j] == bs[k][j]
  {
    var n := |bs|;
    var init := bs[..n - 1];
    FlattenLength(init, e);
    FlattenLength(bs, e);
    assert Flatten(bs) == Flatten(init) + bs[n - 1];
    if k == n - 1 {
      assert e * k + j == |Flatten(init)| + j;
    } else {
      FlattenIndex(init, e, k, j);
    }
  }
}
