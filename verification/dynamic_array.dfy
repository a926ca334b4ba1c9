/**
 A type-erased growable array. The C original keeps three words of metadata
 (size, capacity, element size) just before the element pointer it hands to
 the caller; here that header and the element storage are one explicit,
 immutable record, and every operation returns the record that the C code
 would leave behind the (possibly reallocated) pointer it returns.
 */
module DynamicArray {
  import opened Bytes
  import Memory

  /**
   `count` live elements, room for `capacity` of them, each `elsize` bytes.
   `buf` holds the `capacity` element slots the caller may use: the first
   `count` are live, the rest are unspecified. `slots` is how many element
   slots the allocation really holds, which can exceed `capacity` by one
   after a shrink.
   */
  datatype DynArray = DynArray(count: nat, capacity: nat, elsize: nat, slots: nat, buf: seq<Block>)

  /** The invariant every operation keeps. */
  predicate Valid(a: DynArray) {
    && a.count <= a.capacity <= a.slots
    && |a.buf| == a.capacity
    && Uniform(a.buf, a.elsize)
  }

  /** The live elements, in index order. */
  function Live(a: DynArray): (xs: seq<Block>)
    requires Valid(a)
    ensures |xs| == a.count
    ensures Uniform(xs, a.elsize)
    ensures forall i :: 0 <= i < a.count ==> xs[i] == a.buf[i]
  {
    a.buf[..a.count]
  }

  function Max(x: nat, y: nat): (m: nat) {
    if x >= y then x else y
  }

  /** The amortised growth target used by push and insert: size * 3 / 2 + 1. */
  function Grow(n: nat): (m: nat)
    ensures m > n
    ensures 2 * m > 3 * n
  {
    n * 3 / 2 + 1
  }

  /** A new empty array for elements of `elsize` bytes (dyn_arr_init). */
  function Init(elsize: nat): (r: DynArray)
    ensures Valid(r)
    ensures r.count == 0 && r.capacity == 0 && r.elsize == elsize
    ensures Live(r) == []
  {
    DynArray(0, 0, elsize, 0, [])
  }

  /** dyn_arr_size: the number of live elements. */
  function Size(a: DynArray): (n: nat)
    requires Valid(a)
    ensures n == |Live(a)|
  {
    a.count
  }

  /** dyn_arr_capacity: how many elements fit before the next reallocation. */
  function Capacity(a: DynArray): (n: nat)
    requires Valid(a)
    ensures n >= Size(a)
    ensures n == |a.buf|
  {
    a.capacity
  }

  /** dyn_arr_elsize: the byte size of one element. */
  function ElSize(a: DynArray): (n: nat)
    requires Valid(a)
    ensures forall i :: 0 <= i < Size(a) ==> |Live(a)[i]| == n
  {
    a.elsize
  }

  /**
   dyn_arr_end: the byte offset, from the start of the elements, one past
   the last live element.
   */
  function End(a: DynArray): (off: nat)
    requires Valid(a)
    ensures off == |Flatten(Live(a))|
  {
    FlattenLength(Live(a), a.elsize);
    a.elsize * a.count
  }

  /**
   dyn_arr_reserve: make room for at least `n` elements. The allocation is
   grown to exactly `n` slots when it is too small and left alone otherwise.
   The bytes realloc adds are indeterminate; the model fills them with zero
   blocks and no contract depends on what they hold.
   */
  function Reserve(a: DynArray, n: nat): (r: DynArray)
    requires Valid(a)
    ensures Valid(r)
    ensures r.elsize == a.elsize && r.count == a.count
    ensures Live(r) == Live(a)
    ensures a.capacity >= n ==> r == a
    ensures a.capacity < n ==> r.capacity == n && r.slots == n
  {
    if a.capacity >= n then a
    else a.(capacity := n, slots := n, buf := a.buf + Zeros(n - a.capacity, a.elsize))
  }

  /**
   dyn_arr_resize: set the size to `n`. Shrinking only lowers the size;
   growing reserves exactly `n` and zero-fills the newly exposed elements.
   */
  function Resize(a: DynArray, n: nat): (r: DynArray)
    requires Valid(a)
    ensures Valid(r)
    ensures r.elsize == a.elsize && r.count == n
    ensures r.capacity == Max(a.capacity, n)
    ensures n <= a.count ==> r.slots == a.slots && Live(r) == Live(a)[..n]
    ensures n > a.count ==> Live(r) == Live(a) + Zeros(n - a.count, a.elsize)
  {
    if n <= a.count then a.(count := n)
    else
      var g := Reserve(a, n);
      var r := g.(count := n, buf := Memory.Fill(g.buf, g.count, n - g.count, Zero(g.elsize)));
      assert Live(r) == Live(a) + Zeros(n - a.count, a.elsize) by {
        assert forall i :: 0 <= i < a.count ==> Live(r)[i] == g.buf[i] == Live(a)[i];
      }
      r
  }

  /**
   The growth step shared by push and insert: when no slot is free, reserve
   Grow(size) slots.
   */
  function MakeRoom(a: DynArray): (r: DynArray)
    requires Valid(a)
    ensures Valid(r)
    ensures r.elsize == a.elsize && r.count == a.count
    ensures Live(r) == Live(a)
    ensures r.count < r.capacity
    ensures a.count < a.capacity ==> r == a
    ensures a.count == a.capacity ==> r.capacity == Grow(a.count)
  {
    if a.capacity < a.count + 1 then Reserve(a, Grow(a.count)) else a
  }

  /** dyn_arr_push: append a copy of the `elsize` bytes `v`. */
  function Push(a: DynArray, v: Block): (r: DynArray)
    requires Valid(a) && |v| == a.elsize
    ensures Valid(r)
    ensures r.elsize == a.elsize && r.count == a.count + 1
    ensures Live(r) == Live(a) + [v]
    ensures a.count < a.capacity ==> r.capacity == a.capacity
    ensures a.count == a.capacity ==> r.capacity == Grow(a.count)
  {
    var g := MakeRoom(a);
    var r := g.(count := g.count + 1, buf := g.buf[g.count := v]);
    assert Live(r) == Live(a) + [v] by {
      assert forall i :: 0 <= i < a.count ==> Live(r)[i] == g.buf[i] == Live(a)[i];
    }
    r
  }

  /**
   dyn_arr_insert: shift the elements at `pos` and after one slot to the
   right and write `v` at `pos`. The source asserts `pos <= size`.
   */
  function Insert(a: DynArray, v: Block, pos: nat): (r: DynArray)
    requires Valid(a) && |v| == a.elsize && pos <= a.count
    ensures Valid(r)
    ensures r.elsize == a.elsize && r.count == a.count + 1
    ensures Live(r) == Live(a)[..pos] + [v] + Live(a)[pos..]
    ensures a.count < a.capacity ==> r.capacity == a.capacity
    ensures a.count == a.capacity ==> r.capacity == Grow(a.count)
  {
    var g := MakeRoom(a);
    var moved := Memory.Move(g.buf, pos + 1, pos, g.count - pos);
    var r := g.(count := g.count + 1, buf := moved[pos := v]);
    assert Live(r) == Live(a)[..pos] + [v] + Live(a)[pos..] by {
      var want := Live(a)[..pos] + [v] + Live(a)[pos..];
      forall i | 0 <= i < r.count
        ensures Live(r)[i] == want[i]
      {
        if i < pos {
          assert Live(r)[i] == moved[i] == g.buf[i];
        } else if pos < i {
          assert Live(r)[i] == moved[i] == g.buf[i - 1];
        }
      }
    }
    r
  }

  /**
   dyn_arr_shrink: drop spare capacity. The reallocation keeps `size + 1`
   slots while the recorded capacity becomes `size`.
   */
  function Shrink(a: DynArray): (r: DynArray)
    requires Valid(a)
    ensures Valid(r)
    ensures r.elsize == a.elsize && r.count == a.count
    ensures Live(r) == Live(a)
    ensures a.count == a.capacity ==> r == a
    ensures a.count < a.capacity ==> r.capacity == a.count && r.slots == a.count + 1
  {
    if !(a.count < a.capacity) then a
    else a.(capacity := a.count, slots := a.count + 1, buf := a.buf[..a.count])
  }

  /**
   dyn_arr_copy: a new array, built by resizing a fresh one and copying the
   live elements over, with no spare capacity.
   */
  function Copy(a: DynArray): (r: DynArray)
    requires Valid(a)
    ensures Valid(r)
    ensures r.elsize == a.elsize && r.count == a.count && r.capacity == a.count
    ensures Live(r) == Live(a)
  {
    var blank := Resize(Init(a.elsize), a.count);
    blank.(buf := Memory.CopyPrefix(blank.buf, Live(a), a.count))
  }
}
