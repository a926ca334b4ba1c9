/**
 The scenario the repository's test driver walks through, on an array of
 one-byte elements: push the 26 lower-case letters and the terminating zero
 byte, then insert the 26 upper-case letters one by one before the last
 element, then shrink.
 */
module TestScenario {
  import opened Bytes
  import opened DynamicArray
  import opened DynamicArrayProperties

  /** `k` one-byte elements holding the byte values first, first + 1, ... */
  function Letters(first: nat, k: nat): (bs: seq<Block>)
    requires first + k <= 256
    ensures |bs| == k && Uniform(bs, 1)
    ensures forall i :: 0 <= i < k ==> bs[i] == [(first + i) as byte]
  {
    seq(k, i requires 0 <= i < k => [(first + i) as byte])
  }

  /** The 27 bytes the driver pushes: "abc...z" and its terminating zero. */
  function Lower(): (bs: seq<Block>)
    ensures |bs| == 27 && Uniform(bs, 1)
  {
    Letters(97, 26) + [[0]]
  }

  /** The array after the pushes. */
  function AfterPushes(): (x: DynArray)
    ensures Valid(x)
  {
    var xs := Lower();
    PushAll(Init(1), xs)
  }

  /** The array after the inserts before the last element. */
  function AfterInserts(): (y: DynArray)
    ensures Valid(y)
  {
    var x, upper := AfterPushes(), Letters(65, 26);
    assert |Lower()| == 27;
    InsertBeforeLastAll(x, upper)
  }

  /** The byte at offset `k` of the array's element image. */
  function ByteAt(a: DynArray, k: nat): (b: byte)
    requires Valid(a) && k < End(a)
  {
    Flatten(Live(a))[k]
  }

  /** On one-byte elements, the last two bytes before dyn_arr_end are the last two elements. */
  lemma LastTwoBytes(a: DynArray)
    requires Valid(a) && a.elsize == 1 && a.count >= 2
    ensures End(a) == a.count
    ensures [ByteAt(a, a.count - 1)] == Live(a)[a.count - 1]
    ensures [ByteAt(a, a.count - 2)] == Live(a)[a.count - 2]
  {
    FlattenIndex(Live(a), 1, a.count - 1, 0);
    FlattenIndex(Live(a), 1, a.count - 2, 0);
  }

  /** The pushes leave exactly the pushed bytes, in order. */
  lemma PushedContents()
    ensures Live(AfterPushes()) == Lower()
  {
  }

  /**
   After 27 pushes the size is 27, the last byte before dyn_arr_end is the
   zero byte and the one before it is 'z'.
   */
  lemma PushScenario()
    ensures Size(AfterPushes()) == 27 && End(AfterPushes()) == 27
    ensures ByteAt(AfterPushes(), 26) == 0
    ensures ByteAt(AfterPushes(), 25) == 122
  {
    var x := AfterPushes();
    PushedContents();
    LastTwoBytes(x);
  }

  /** From empty, the capacity grows when the size reaches 0, 1, 2, 4, 7, 11, 17 and 26. */
  lemma GrowthFromEmpty()
    ensures GrowthCapacity(0, 0, 27) == 40
  {
    calc {
      GrowthCapacity(0, 0, 27);
      GrowthCapacity(1, 1, 26);
      GrowthCapacity(2, 2, 25);
      { GrowthCoasts(4, 3, 24); }
      GrowthCapacity(4, 4, 23);
      { GrowthCoasts(7, 5, 22); }
      GrowthCapacity(7, 7, 20);
      { GrowthCoasts(11, 8, 19); }
      GrowthCapacity(11, 11, 16);
      { GrowthCoasts(17, 12, 15); }
      GrowthCapacity(17, 17, 10);
      { GrowthCoasts(26, 18, 9); }
      GrowthCapacity(26, 26, 1);
      GrowthCapacity(40, 27, 0);
    }
  }

  /** The 27 pushes leave a capacity of 40. */
  lemma PushCapacity()
    ensures Capacity(AfterPushes()) == 40
  {
    var xs := Lower();
    assert |xs| == 27;
    PushAllCapacity(Init(1), xs);
    GrowthFromEmpty();
  }

  /** Filling `mid` in before the last element `last` of `front + [last]` gives `front + mid + [last]`. */
  lemma BetweenFrontAndLast(before: seq<Block>, after: seq<Block>, front: seq<Block>, mid: seq<Block>, last: Block)
    requires before == front + [last]
    requires after == before[..|before| - 1] + mid + [before[|before| - 1]]
    ensures after == front + mid + [last]
  {
  }

  /** The inserts put the upper-case letters between the lower-case ones and the zero byte. */
  lemma InsertedContents()
    ensures Live(AfterInserts()) == Letters(97, 26) + Letters(65, 26) + [[0]]
  {
    var x, lower, upper := AfterPushes(), Letters(97, 26), Letters(65, 26);
    var y := AfterInserts();
    PushedContents();
    assert Live(x) == lower + [[0]];
    InsertBeforeLastAllContents(x, upper);
    assert Live(y) == Live(x)[..|Live(x)| - 1] + upper + [Live(x)[|Live(x)| - 1]];
    BetweenFrontAndLast(Live(x), Live(y), lower, upper, [0]);
  }

  /**
   After the 26 inserts at size - 1 the zero byte is still last and 'Z' is
   just before it, and the size is 53.
   */
  lemma InsertScenario()
    ensures Size(AfterInserts()) == 53 && End(AfterInserts()) == 53
    ensures ByteAt(AfterInserts(), 52) == 0
    ensures ByteAt(AfterInserts(), 51) == 90
  {
    var y := AfterInserts();
    InsertedContents();
    LastTwoBytes(y);
  }

  /** The 26 inserts, starting at size 27 and capacity 40, grow once, when the size reaches 40. */
  lemma GrowthDuringInserts()
    ensures GrowthCapacity(40, 27, 26) == 61
  {
    calc {
      GrowthCapacity(40, 27, 26);
      { GrowthCoasts(40, 27, 26); }
      GrowthCapacity(40, 40, 13);
      { GrowthCoasts(61, 41, 12); }
      61;
    }
  }

  /** The inserts leave a capacity of 61. */
  lemma InsertCapacity()
    ensures Capacity(AfterInserts()) == 61
  {
    var x, upper := AfterPushes(), Letters(65, 26);
    PushCapacity();
    PushScenario();
    InsertBeforeLastAllCapacity(x, upper);
    GrowthDuringInserts();
  }

  /** Shrinking after the inserts leaves a capacity equal to the size, 53. */
  lemma ShrinkScenario()
    ensures Capacity(Shrink(AfterInserts())) == 53
  {
  }
}
