/**
 * The bounded deque of src/deque.c: a fixed array of item slots with a head
 * and a tail cursor, and two counting semaphores, `used` (items present) and
 * `free` (slots available). In this sequential model a semaphore is its
 * count: taking a permit requires the count to be positive (the thread would
 * otherwise block forever) and decrements it; releasing increments it.
 *
 * The cursors are 32-bit ints stepped by atomicInc/atomicDec, which return
 * the value BEFORE the step; the slot index is that old value reduced with
 * C's truncating `%`. An index outside [0, length) is undefined behaviour in
 * C; the model performs no write there and reports the read as OutOfBounds.
 */
module Deque {
  import opened CInt
  import Atomic

  /** What reading a slot produced: the slot's item, or an index outside the array. */
  datatype Read<T> = Item(value: T) | OutOfBounds(index: int)

  /** The value of a deque: slot array, both cursors, and both semaphore counts. */
  datatype DequeState<T> = DequeState(items: seq<T>, head: int, tail: int, used: int, free: int)

  /** A popped item and the deque after the pop. */
  datatype Popped<T> = Popped(state: DequeState<T>, item: Read<T>)

  /** Cursors are 32-bit ints; the two semaphore counts always add up to the capacity. */
  ghost predicate Wellformed<T>(s: DequeState<T>) {
    && 0 < |s.items| <= INT32_MAX
    && IsInt32(s.head) && IsInt32(s.tail)
    && 0 <= s.used && 0 <= s.free
    && s.used + s.free == |s.items|
  }

  /** dequeCreate: both cursors 0, no used permit, `length` free permits; the slots hold whatever was there. */
  function Created<T>(items: seq<T>): (s: DequeState<T>)
    requires 0 < |items| <= INT32_MAX
    ensures Wellformed(s) && s.head == 0 && s.tail == 0
    ensures s.used == 0 && s.free == |items| && s.items == items
  {
    DequeState(items, 0, 0, 0, |items|)
  }

  /** Stores x at index i; an index outside the array stores nothing. */
  function Store<T>(items: seq<T>, i: int, x: T): (r: seq<T>)
    ensures |r| == |items|
    ensures 0 <= i < |items| ==> r == items[i := x]
    ensures !(0 <= i < |items|) ==> r == items
  {
    if 0 <= i < |items| then items[i := x] else items
  }

  function Load<T>(items: seq<T>, i: int): (r: Read<T>)
    ensures 0 <= i < |items| ==> r == Item(items[i])
    ensures !(0 <= i < |items|) ==> r == OutOfBounds(i)
  {
    if 0 <= i < |items| then Item(items[i]) else OutOfBounds(i)
  }

  /** The number of items the deque holds (`dequeGetCurrentSize`): the used-permit count. */
  function Size<T>(s: DequeState<T>): int { s.used }

  // ---------------------------------------------------------------------
  // The four operations as written
  // ---------------------------------------------------------------------

  /** dequePushFront: slot = old head % length (C `%`), head decremented. */
  function PushFrontStep<T>(s: DequeState<T>, x: T): (r: DequeState<T>)
    requires Wellformed(s) && s.free > 0
    ensures Wellformed(r) && r.items == Store(s.items, CRem(s.head, |s.items|), x)
    ensures r.used == s.used + 1 && r.free == s.free - 1
    ensures r.head == Wrap32(s.head - 1) && r.tail == s.tail
  {
    DequeState(Store(s.items, CRem(s.head, |s.items|), x), Wrap32(s.head - 1), s.tail, s.used + 1, s.free - 1)
  }

  /** dequePopFront: slot = old head % length (C `%`), head incremented. */
  function PopFrontStep<T>(s: DequeState<T>): (r: Popped<T>)
    requires Wellformed(s) && s.used > 0
    ensures Wellformed(r.state) && r.state.items == s.items
    ensures r.state.used == s.used - 1 && r.state.free == s.free + 1
    ensures r.state.head == Wrap32(s.head + 1) && r.state.tail == s.tail
  {
    Popped(DequeState(s.items, Wrap32(s.head + 1), s.tail, s.used - 1, s.free + 1),
           Load(s.items, CRem(s.head, |s.items|)))
  }

  /** dequePushBack: slot = old tail % length (C `%`), tail incremented. */
  function PushBackStep<T>(s: DequeState<T>, x: T): (r: DequeState<T>)
    requires Wellformed(s) && s.free > 0
    ensures Wellformed(r) && |r.items| == |s.items|
    ensures r.used == s.used + 1 && r.free == s.free - 1
    ensures r.tail == Wrap32(s.tail + 1) && r.head == s.head
  {
    DequeState(Store(s.items, CRem(s.tail, |s.items|), x), s.head, Wrap32(s.tail + 1), s.used + 1, s.free - 1)
  }

  /** dequePopBack: slot = old tail % length (C `%`), tail decremented. */
  function PopBackStep<T>(s: DequeState<T>): (r: Popped<T>)
    requires Wellformed(s) && s.used > 0
    ensures Wellformed(r.state) && r.state.items == s.items
    ensures r.state.used == s.used - 1 && r.state.free == s.free + 1
    ensures r.state.tail == Wrap32(s.tail - 1) && r.state.head == s.head
  {
    Popped(DequeState(s.items, s.head, Wrap32(s.tail - 1), s.used - 1, s.free + 1),
           Load(s.items, CRem(s.tail, |s.items|)))
  }

  // ---------------------------------------------------------------------
  // The ring view: the items between the cursors
  // ---------------------------------------------------------------------

  /** The cursors bound the stored items and `used` counts them. */
  ghost predicate RingValid<T>(s: DequeState<T>) {
    Wellformed(s) && s.head <= s.tail && s.used == s.tail - s.head
  }

  /** The items from head (inclusive) to tail (exclusive), front first, with floor modulo on the cursors. */
  ghost function Contents<T>(s: DequeState<T>): (c: seq<T>)
    requires RingValid(s)
    ensures |c| == s.used
  {
    seq(s.tail - s.head, k requires 0 <= k < s.tail - s.head => s.items[(s.head + k) % |s.items|])
  }

  // ---------------------------------------------------------------------
  // The evidently intended operations: pre-decrement for pushFront and
  // popBack, and floor modulo for every slot index
  // ---------------------------------------------------------------------

  /** pushFront corrected: step head back first, then write at the new head (floor modulo). */
  function PushFrontFixed<T>(s: DequeState<T>, x: T): (r: DequeState<T>)
    requires Wellformed(s) && s.free > 0
    ensures Wellformed(r) && r.used == s.used + 1 && r.free == s.free - 1
  {
    var h := Wrap32(s.head - 1);
    DequeState(s.items[h % |s.items| := x], h, s.tail, s.used + 1, s.free - 1)
  }

  /** popFront corrected: read at head (floor modulo), then step head forward. */
  function PopFrontFixed<T>(s: DequeState<T>): (r: Popped<T>)
    requires Wellformed(s) && s.used > 0
    ensures Wellformed(r.state) && r.state.used == s.used - 1 && r.state.free == s.free + 1
  {
    Popped(DequeState(s.items, Wrap32(s.head + 1), s.tail, s.used - 1, s.free + 1),
           Item(s.items[s.head % |s.items|]))
  }

  /** pushBack corrected: write at tail (floor modulo), then step tail forward. */
  function PushBackFixed<T>(s: DequeState<T>, x: T): (r: DequeState<T>)
    requires Wellformed(s) && s.free > 0
    ensures Wellformed(r) && r.used == s.used + 1 && r.free == s.free - 1
  {
    DequeState(s.items[s.tail % |s.items| := x], s.head, Wrap32(s.tail + 1), s.used + 1, s.free - 1)
  }

  /** popBack corrected: step tail back first, then read at the new tail (floor modulo). */
  function PopBackFixed<T>(s: DequeState<T>): (r: Popped<T>)
    requires Wellformed(s) && s.used > 0
    ensures Wellformed(r.state) && r.state.used == s.used - 1 && r.state.free == s.free + 1
  {
    var t := Wrap32(s.tail - 1);
    Popped(DequeState(s.items, s.head, t, s.used - 1, s.free + 1), Item(s.items[t % |s.items|]))
  }

  /** Corrected pushFront puts x in front of the contents. */
  lemma PushFrontFixedPrepends<T>(s: DequeState<T>, x: T)
    requires RingValid(s) && s.free > 0 && s.head > INT32_MIN
    ensures RingValid(PushFrontFixed(s, x))
    ensures Contents(PushFrontFixed(s, x)) == [x] + Contents(s)
  {
    var n := |s.items|;
    var r := PushFrontFixed(s, x);
    assert r.head == s.head - 1;
    var c, c' := Contents(s), Contents(r);
    assert c'[0] == x;
    forall k | 0 <= k < |c|
      ensures c'[k + 1] == c[k]
    {
      ModDistinct(s.head - 1, s.head + k, n);
      assert s.head - 1 + (k + 1) == s.head + k;
    }
    assert c' == [x] + c;
  }

  /** Corrected popFront returns the front item and drops it from the contents. */
  lemma PopFrontFixedTakesFirst<T>(s: DequeState<T>)
    requires RingValid(s) && s.used > 0
    ensures RingValid(PopFrontFixed(s).state)
    ensures PopFrontFixed(s).item == Item(Contents(s)[0])
    ensures Contents(PopFrontFixed(s).state) == Contents(s)[1..]
  {
    var r := PopFrontFixed(s).state;
    assert r.head == s.head + 1;
    var c, c' := Contents(s), Contents(r);
    assert s.head + 0 == s.head;
    forall k | 0 <= k < |c'|
      ensures c'[k] == c[k + 1]
    {
      assert r.head + k == s.head + (k + 1);
    }
  }

  /** Corrected pushBack puts x behind the contents. */
  lemma PushBackFixedAppends<T>(s: DequeState<T>, x: T)
    requires RingValid(s) && s.free > 0 && s.tail < INT32_MAX
    ensures RingValid(PushBackFixed(s, x))
    ensures Contents(PushBackFixed(s, x)) == Contents(s) + [x]
  {
    var n := |s.items|;
    var r := PushBackFixed(s, x);
    assert r.tail == s.tail + 1;
    var c, c' := Contents(s), Contents(r);
    forall k | 0 <= k < |c|
      ensures c'[k] == c[k]
    {
      ModDistinct(s.head + k, s.tail, n);
    }
    assert s.head + |c| == s.tail;
    assert c' == c + [x];
  }

  /** Corrected popBack returns the back item and drops it from the contents. */
  lemma PopBackFixedTakesLast<T>(s: DequeState<T>)
    requires RingValid(s) && s.used > 0
    ensures RingValid(PopBackFixed(s).state)
    ensures PopBackFixed(s).item == Item(Contents(s)[s.used - 1])
    ensures Contents(PopBackFixed(s).state) == Contents(s)[..s.used - 1]
  {
    var r := PopBackFixed(s).state;
    assert r.tail == s.tail - 1;
    assert s.head + (s.used - 1) == s.tail - 1;
  }

  /** With the correction, popBack right after pushBack returns the item just pushed and restores the contents. */
  lemma PopBackAfterPushBackFixed<T>(s: DequeState<T>, x: T)
    requires RingValid(s) && s.free > 0 && s.tail < INT32_MAX
    ensures PopBackFixed(PushBackFixed(s, x)).item == Item(x)
    ensures RingValid(PopBackFixed(PushBackFixed(s, x)).state)
    ensures Contents(PopBackFixed(PushBackFixed(s, x)).state) == Contents(s)
  {
    var r := PushBackFixed(s, x);
    PushBackFixedAppends(s, x);
    PopBackFixedTakesLast(r);
    assert (Contents(s) + [x])[..r.used - 1] == Contents(s);
  }

  /** With the correction, popFront right after pushFront returns the item just pushed and restores the contents. */
  lemma PopFrontAfterPushFrontFixed<T>(s: DequeState<T>, x: T)
    requires RingValid(s) && s.free > 0 && s.head > INT32_MIN
    ensures PopFrontFixed(PushFrontFixed(s, x)).item == Item(x)
    ensures RingValid(PopFrontFixed(PushFrontFixed(s, x)).state)
    ensures Contents(PopFrontFixed(PushFrontFixed(s, x)).state) == Contents(s)
  {
    var r := PushFrontFixed(s, x);
    PushFrontFixedPrepends(s, x);
    PopFrontFixedTakesFirst(r);
    assert ([x] + Contents(s))[1..] == Contents(s);
  }

  // ---------------------------------------------------------------------
  // What the code as written does
  // ---------------------------------------------------------------------

  /** pushBack and popFront as written agree with the corrected ones while their cursor is not negative. */
  lemma BackPushFrontPopAgree<T>(s: DequeState<T>, x: T)
    requires Wellformed(s)
    ensures s.free > 0 && s.tail >= 0 ==> PushBackStep(s, x) == PushBackFixed(s, x)
    ensures s.used > 0 && s.head >= 0 ==> PopFrontStep(s) == PopFrontFixed(s)
  {
  }

  /** pushBack as written appends x to the contents, as long as the tail is not negative. */
  lemma PushBackAppends<T>(s: DequeState<T>, x: T)
    requires RingValid(s) && s.free > 0 && 0 <= s.tail < INT32_MAX
    ensures RingValid(PushBackStep(s, x))
    ensures Contents(PushBackStep(s, x)) == Contents(s) + [x]
  {
    BackPushFrontPopAgree(s, x);
    PushBackFixedAppends(s, x);
  }

  /** popFront as written returns the front item, as long as the head is not negative. */
  lemma PopFrontTakesFirst<T>(s: DequeState<T>)
    requires RingValid(s) && s.used > 0 && s.head >= 0
    ensures RingValid(PopFrontStep(s).state)
    ensures PopFrontStep(s).item == Item(Contents(s)[0])
    ensures Contents(PopFrontStep(s).state) == Contents(s)[1..]
  {
    BackPushFrontPopAgree(s, s.items[0]);
    PopFrontFixedTakesFirst(s);
  }

  /** Pushes every element of xs at the back, in order. */
  function PushBackAll<T>(s: DequeState<T>, xs: seq<T>): (r: DequeState<T>)
    requires Wellformed(s) && |xs| <= s.free
    ensures Wellformed(r) && r.used == s.used + |xs|
    decreases |xs|
  {
    if xs == [] then s else PushBackAll(PushBackStep(s, xs[0]), xs[1..])
  }

  /** Pops k items from the front and lists them in the order they came out. */
  function PopFrontAll<T>(s: DequeState<T>, k: nat): (r: seq<Read<T>>)
    requires Wellformed(s) && k <= s.used
    ensures |r| == k
    decreases k
  {
    if k == 0 then [] else
      var p := PopFrontStep(s);
      [p.item] + PopFrontAll(p.state, k - 1)
  }

  lemma {:induction false} PushBackAllAppends<T>(s: DequeState<T>, xs: seq<T>)
    requires RingValid(s) && |xs| <= s.free && 0 <= s.tail && s.tail + |xs| <= INT32_MAX
    ensures RingValid(PushBackAll(s, xs)) && PushBackAll(s, xs).head == s.head
    ensures Contents(PushBackAll(s, xs)) == Contents(s) + xs
    decreases |xs|
  {
    if xs != [] {
      var s' := PushBackStep(s, xs[0]);
      PushBackAppends(s, xs[0]);
      PushBackAllAppends(s', xs[1..]);
      assert Contents(s) + [xs[0]] + xs[1..] == Contents(s) + xs;
    }
  }

  lemma {:induction false} PopFrontAllTakesPrefix<T>(s: DequeState<T>, k: nat)
    requires RingValid(s) && k <= s.used && s.head >= 0
    ensures forall i :: 0 <= i < k ==> PopFrontAll(s, k)[i] == Item(Contents(s)[i])
    decreases k
  {
    if k > 0 {
      var p := PopFrontStep(s);
      PopFrontTakesFirst(s);
      PopFrontAllTakesPrefix(p.state, k - 1);
      forall i | 0 < i < k
        ensures PopFrontAll(s, k)[i] == Item(Contents(s)[i])
      {
        assert PopFrontAll(s, k)[i] == PopFrontAll(p.state, k - 1)[i - 1];
        assert Contents(p.state)[i - 1] == Contents(s)[i];
      }
    }
  }

  /**
   * FIFO: pushing x1..xn at the back of an empty deque and then popping n
   * items from the front returns x1..xn in that order.
   */
  lemma FifoOrder<T>(s: DequeState<T>, xs: seq<T>)
    requires RingValid(s) && s.used == 0 && s.head >= 0
    requires |xs| <= s.free && s.tail + |xs| <= INT32_MAX
    ensures forall i :: 0 <= i < |xs| ==> PopFrontAll(PushBackAll(s, xs), |xs|)[i] == Item(xs[i])
  {
    PushBackAllAppends(s, xs);
    var r := PushBackAll(s, xs);
    assert Contents(s) == [];
    PopFrontAllTakesPrefix(r, |xs|);
  }

  /**
   * pushFront as written on a fresh deque writes slot 0 and leaves the head
   * at -1. With two or more slots, C's `%` then turns -1 into -1: the next
   * popFront reads index -1 and the next pushFront writes nothing into the array.
   */
  lemma PushFrontLeavesNegativeHead<T>(items: seq<T>, x: T, y: T)
    requires 2 <= |items| <= INT32_MAX
    ensures PushFrontStep(Created(items), x).head == -1
    ensures PushFrontStep(Created(items), x).items == items[0 := x]
    ensures PopFrontStep(PushFrontStep(Created(items), x)).item == OutOfBounds(-1)
    ensures PushFrontStep(PushFrontStep(Created(items), x), y).items == items[0 := x]
  {
    var n := |items|;
    var s0 := Created(items);
    assert CRem(0, n) == 0;
    var s1 := PushFrontStep(s0, x);
    assert s1.head == -1 && s1.items == items[0 := x];
    assert CRem(-1, n) == -1 by {
      assert 1 % n == 1;
    }
    assert PopFrontStep(s1).item == Load(s1.items, -1);
    assert PushFrontStep(s1, y).items == Store(s1.items, -1, y);
  }

  /**
   * pushFront as written on a non-empty deque with a non-negative head
   * overwrites the front item: x lands in the slot of the old first item,
   * and the head moves back onto a slot holding whatever was left there.
   */
  lemma PushFrontOverwritesFront<T>(s: DequeState<T>, x: T)
    requires RingValid(s) && s.free > 0 && 0 <= s.head < s.tail
    ensures RingValid(PushFrontStep(s, x))
    ensures Contents(PushFrontStep(s, x)) == [s.items[(s.head - 1) % |s.items|], x] + Contents(s)[1..]
  {
    var n := |s.items|;
    var r := PushFrontStep(s, x);
    assert r.head == s.head - 1;
    assert r.items == s.items[s.head % n := x];
    var c, c' := Contents(s), Contents(r);
    var want := [s.items[(s.head - 1) % n], x] + c[1..];
    ModDistinct(s.head - 1, s.head, n);
    assert c'[0] == want[0];
    assert s.head - 1 + 1 == s.head;
    assert c'[1] == want[1];
    forall k | 2 <= k < |c'|
      ensures c'[k] == want[k]
    {
      ModDistinct(s.head, s.head + (k - 1), n);
      assert s.head - 1 + k == s.head + (k - 1);
      assert want[k] == c[k - 1];
    }
    assert c' == want;
  }

  /**
   * popBack as written reads the slot after the one the preceding pushBack
   * wrote: pushBack stores at tail % length and steps the tail to tail + 1,
   * popBack then reads at (tail + 1) % length.
   */
  lemma PopBackAfterPushBackMisses<T>(s: DequeState<T>, x: T)
    requires RingValid(s) && s.free > 0 && 0 <= s.tail < INT32_MAX && |s.items| >= 2
    ensures PopBackStep(PushBackStep(s, x)).item == Item(PushBackStep(s, x).items[(s.tail + 1) % |s.items|])
    ensures (s.tail + 1) % |s.items| != s.tail % |s.items|
  {
    ModDistinct(s.tail, s.tail + 1, |s.items|);
  }

  /** The input that shows it: two slots holding 0, pushBack 1, popBack returns 0. */
  lemma PopBackCounterexample()
    ensures PopBackStep(PushBackStep(Created([0, 0]), 1)).item == Item(0)
  {
    var s0 := Created([0, 0]);
    assert RingValid(s0);
    PopBackAfterPushBackMisses(s0, 1);
    assert CRem(0, 2) == 0;
    assert PushBackStep(s0, 1).items == [1, 0];
  }

  // ---------------------------------------------------------------------
  // The deque object
  // ---------------------------------------------------------------------

  class Deque<T> {
    const items: array<T>
    const length: int
    const head: Atomic.Cell
    const tail: Atomic.Cell
    var used: int   // count of the "used" semaphore
    var free: int   // count of the "free" semaphore

    ghost function State(): DequeState<T>
      reads this, items, head, tail
    {
      DequeState(items[..], head.value, tail.value, used, free)
    }

    ghost predicate Valid()
      reads this, items, head, tail
    {
      items.Length == length && head != tail && Wellformed(State())
    }

    /** dequeCreate; `initial` stands for whatever the freshly allocated slots hold. */
    constructor Create(length: int, initial: T)
      requires 0 < length <= INT32_MAX
      ensures Valid() && fresh(items) && fresh(head) && fresh(tail)
      ensures State() == Created(seq(length, _ => initial))
    {
      this.items := new T[length](_ => initial);
      this.length := length;
      this.used := 0;
      this.free := length;
      this.head := new Atomic.Cell(0);
      this.tail := new Atomic.Cell(0);
    }

    method PushFront(x: T)
      requires Valid() && free > 0
      modifies this, items, head
      ensures Valid() && State() == PushFrontStep(old(State()), x)
    {
      free := free - 1;
      var i := head.Dec();
      i := CRem(i, length);
      if 0 <= i < length {
        items[i] := x;
      }
      used := used + 1;
    }

    method PopFront() returns (r: Read<T>)
      requires Valid() && used > 0
      modifies this, head
      ensures Valid() && Popped(State(), r) == PopFrontStep(old(State()))
    {
      used := used - 1;
      var i := head.Inc();
      i := CRem(i, length);
      r := if 0 <= i < length then Item(items[i]) else OutOfBounds(i);
      free := free + 1;
    }

    method PushBack(x: T)
      requires Valid() && free > 0
      modifies this, items, tail
      ensures Valid() && State() == PushBackStep(old(State()), x)
    {
      free := free - 1;
      var i := tail.Inc();
      i := CRem(i, length);
      if 0 <= i < length {
        items[i] := x;
      }
      used := used + 1;
    }

    method PopBack() returns (r: Read<T>)
      requires Valid() && used > 0
      modifies this, tail
      ensures Valid() && Popped(State(), r) == PopBackStep(old(State()))
    {
      used := used - 1;
      var i := tail.Dec();
      i := CRem(i, length);
      r := if 0 <= i < length then Item(items[i]) else OutOfBounds(i);
      free := free + 1;
    }

    /** dequeGetCurrentSize: the number of used permits. */
    method CurrentSize() returns (n: int)
      requires Valid()
      ensures 0 <= n <= length
      ensures n == Size(State())
    {
      n := used;
    }
  }
}
