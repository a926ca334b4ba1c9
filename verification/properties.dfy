/**
 Properties that relate several operations of the dynamic array: repeated
 pushes and inserts, what undoes or repeats an operation, the shape of a
 copy, the growth sequence, and the invariant over any run of operations.
 */
module DynamicArrayProperties {
  import opened Bytes
  import opened DynamicArray

  /** Push every block of `xs`, in order. */
  function PushAll(a: DynArray, xs: seq<Block>): (r: DynArray)
    requires Valid(a) && Uniform(xs, a.elsize)
    ensures Valid(r)
    ensures r.elsize == a.elsize && r.count == a.count + |xs|
    ensures Live(r) == Live(a) + xs
    decreases |xs|
  {
    if |xs| == 0 then a
    else
      var r := PushAll(Push(a, xs[0]), xs[1..]);
      assert Live(a) + [xs[0]] + xs[1..] == Live(a) + xs;
      r
  }

  /** Inserting just before the last element keeps that element last. */
  lemma InsertBeforeLast(a: DynArray, v: Block)
    requires Valid(a) && a.count > 0 && |v| == a.elsize
    ensures Live(Insert(a, v, a.count - 1)) == Live(a)[..a.count - 1] + [v] + [Live(a)[a.count - 1]]
  {
  }

  /** Two inserts-before-last in a row compose: the front grows by `xs[0]`, then by the rest of `xs`. */
  lemma BeforeLastCompose(la: seq<Block>, lb: seq<Block>, lr: seq<Block>, xs: seq<Block>)
    requires |la| > 0 && |xs| > 0
    requires lb == la[..|la| - 1] + [xs[0]] + [la[|la| - 1]]
    requires lr == lb[..|lb| - 1] + xs[1..] + [lb[|lb| - 1]]
    ensures lr == la[..|la| - 1] + xs + [la[|la| - 1]]
  {
  }

  /** Insert every block of `xs`, in order, each just before the current last element. */
  function InsertBeforeLastAll(a: DynArray, xs: seq<Block>): (r: DynArray)
    requires Valid(a) && a.count > 0 && Uniform(xs, a.elsize)
    ensures Valid(r)
    ensures r.elsize == a.elsize && r.count == a.count + |xs|
    decreases |xs|
  {
    if |xs| == 0 then a
    else InsertBeforeLastAll(Insert(a, xs[0], a.count - 1), xs[1..])
  }

  /** Repeated inserts before the last element place `xs`, in order, between the old front and the old last element. */
  lemma {:induction false} InsertBeforeLastAllContents(a: DynArray, xs: seq<Block>)
    requires Valid(a) && a.count > 0 && Uniform(xs, a.elsize)
    ensures Live(InsertBeforeLastAll(a, xs)) == Live(a)[..a.count - 1] + xs + [Live(a)[a.count - 1]]
    decreases |xs|
  {
    if |xs| == 0 {
      assert Live(a) == Live(a)[..a.count - 1] + [Live(a)[a.count - 1]];
    } else {
      var b := Insert(a, xs[0], a.count - 1);
      InsertBeforeLast(a, xs[0]);
      InsertBeforeLastAllContents(b, xs[1..]);
      BeforeLastCompose(Live(a), Live(b), Live(InsertBeforeLastAll(b, xs[1..])), xs);
    }
  }

  /** Inserting at `pos == size` is exactly a push, down to the spare slots. */
  lemma InsertAtEndIsPush(a: DynArray, v: Block)
    requires Valid(a) && |v| == a.elsize
    ensures Insert(a, v, a.count) == Push(a, v)
  {
  }

  /** Truncating back to the old size undoes a push. */
  lemma ResizeUndoesPush(a: DynArray, v: Block)
    requires Valid(a) && |v| == a.elsize
    ensures Live(Resize(Push(a, v), a.count)) == Live(a)
  {
  }

  /** Truncating and then regrowing exposes zeros, never the stale elements. */
  lemma ResizeRegrowZeroes(a: DynArray, m: nat, n: nat)
    requires Valid(a) && m <= a.count && m < n
    ensures Live(Resize(Resize(a, m), n)) == Live(a)[..m] + Zeros(n - m, a.elsize)
  {
  }

  /** Reserving the same amount twice changes nothing the second time. */
  lemma ReserveIdempotent(a: DynArray, n: nat)
    requires Valid(a)
    ensures Reserve(Reserve(a, n), n) == Reserve(a, n)
  {
  }

  /** Resizing to the same size twice changes nothing the second time. */
  lemma ResizeIdempotent(a: DynArray, n: nat)
    requires Valid(a)
    ensures Resize(Resize(a, n), n) == Resize(a, n)
  {
  }

  /** Shrinking an already shrunk array changes nothing. */
  lemma ShrinkIdempotent(a: DynArray)
    requires Valid(a)
    ensures Shrink(Shrink(a)) == Shrink(a)
  {
  }

  /** A copy holds exactly the live elements, in an allocation of exactly that many slots. */
  lemma CopyShape(a: DynArray)
    requires Valid(a)
    ensures Copy(a) == DynArray(a.count, a.count, a.elsize, a.count, Live(a))
  {
  }

  /** Copying a copy gives the same array, and a copy has nothing to shrink. */
  lemma CopyIsTight(a: DynArray)
    requires Valid(a)
    ensures Copy(Copy(a)) == Copy(a)
    ensures Shrink(Copy(a)) == Copy(a)
  {
  }

  /**
   The last element's bytes end exactly at dyn_arr_end: byte `j` of the last
   element is at offset End(a) - elsize + j.
   */
  lemma EndFollowsLast(a: DynArray, j: nat)
    requires Valid(a) && a.count > 0 && j < a.elsize
    ensures a.elsize <= End(a)
    ensures Flatten(Live(a))[End(a) - a.elsize + j] == Live(a)[a.count - 1][j]
  {
  }

  /**
   The capacity after `k` growth steps of push or insert, starting from
   `capacity` and `count`.
   */
  function GrowthCapacity(capacity: nat, count: nat, k: nat): (r: nat)
    decreases k
  {
    if k == 0 then capacity
    else GrowthCapacity(if count < capacity then capacity else Grow(count), count + 1, k - 1)
  }

  /** The growth sequence never lowers the capacity and always leaves room for every element pushed. */
  lemma {:induction false} GrowthCapacityBound(capacity: nat, count: nat, k: nat)
    requires count <= capacity
    ensures GrowthCapacity(capacity, count, k) >= capacity
    ensures GrowthCapacity(capacity, count, k) >= count + k
    decreases k
  {
    if k > 0 {
      var next := if count < capacity then capacity else Grow(count);
      GrowthCapacityBound(next, count + 1, k - 1);
    }
  }

  /** While free slots remain, the capacity stays put until the array is full. */
  lemma {:induction false} GrowthCoasts(capacity: nat, count: nat, k: nat)
    requires count <= capacity
    ensures count + k <= capacity ==> GrowthCapacity(capacity, count, k) == capacity
    ensures capacity <= count + k ==>
      GrowthCapacity(capacity, count, k) == GrowthCapacity(capacity, capacity, count + k - capacity)
    decreases capacity - count
  {
    if count < capacity && k > 0 {
      GrowthCoasts(capacity, count + 1, k - 1);
    }
  }

  /** Repeated pushes follow the growth sequence. */
  lemma {:induction false} PushAllCapacity(a: DynArray, xs: seq<Block>)
    requires Valid(a) && Uniform(xs, a.elsize)
    ensures PushAll(a, xs).capacity == GrowthCapacity(a.capacity, a.count, |xs|)
    decreases |xs|
  {
    if |xs| > 0 {
      PushAllCapacity(Push(a, xs[0]), xs[1..]);
    }
  }

  /** Repeated inserts follow the same growth sequence as pushes. */
  lemma {:induction false} InsertBeforeLastAllCapacity(a: DynArray, xs: seq<Block>)
    requires Valid(a) && a.count > 0 && Uniform(xs, a.elsize)
    ensures InsertBeforeLastAll(a, xs).capacity == GrowthCapacity(a.capacity, a.count, |xs|)
    decreases |xs|
  {
    if |xs| > 0 {
      InsertBeforeLastAllCapacity(Insert(a, xs[0], a.count - 1), xs[1..]);
    }
  }

  /** One call on the array, as a caller could issue it. */
  datatype Op =
    | ReserveOp(n: nat)
    | ResizeOp(n: nat)
    | PushOp(v: Block)
    | InsertOp(v: Block, pos: nat)
    | ShrinkOp
    | CopyOp

  /** What the caller must guarantee: a value of the element size, an insert position within the array. */
  predicate Allowed(a: DynArray, op: Op) {
    match op
    case PushOp(v) => |v| == a.elsize
    case InsertOp(v, pos) => |v| == a.elsize && pos <= a.count
    case _ => true
  }

  /** The array after `op`, or None when the call breaks the caller's obligations. */
  function Step(a: DynArray, op: Op): (r: Option<DynArray>)
    requires Valid(a)
    ensures r.Some? <==> Allowed(a, op)
    ensures r.Some? ==> Valid(r.value) && r.value.elsize == a.elsize
  {
    match op
    case ReserveOp(n) => Some(Reserve(a, n))
    case ResizeOp(n) => Some(Resize(a, n))
    case PushOp(v) => if |v| == a.elsize then Some(Push(a, v)) else None
    case InsertOp(v, pos) => if |v| == a.elsize && pos <= a.count then Some(Insert(a, v, pos)) else None
    case ShrinkOp => Some(Shrink(a))
    case CopyOp => Some(Copy(a))
  }

  datatype Option<T> = None | Some(value: T)

  /** Apply `ops` in order, stopping at the first call that breaks the caller's obligations. */
  function Run(a: DynArray, ops: seq<Op>): (r: Option<DynArray>)
    requires Valid(a)
    ensures r.Some? ==> Valid(r.value) && r.value.elsize == a.elsize
    ensures |ops| > 0 && !Allowed(a, ops[0]) ==> r.None?
    decreases |ops|
  {
    if |ops| == 0 then Some(a)
    else
      match Step(a, ops[0])
      case None => None
      case Some(b) => Run(b, ops[1..])
  }

  /** From dyn_arr_init on, every run of calls keeps the invariant and the element size. */
  lemma RunFromInit(elsize: nat, ops: seq<Op>)
    ensures Run(Init(elsize), ops).Some? ==> Valid(Run(Init(elsize), ops).value)
    ensures Run(Init(elsize), ops).Some? ==> Run(Init(elsize), ops).value.elsize == elsize
  {
  }
}
