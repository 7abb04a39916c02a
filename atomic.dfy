/**
 * Sequential meaning of the single-word atomic primitives (src/atomic.c).
 * Each primitive works on one 32-bit `int` in memory, modelled as a `Cell`
 * object so that callers can hand the same word to several primitives, as
 * the C code hands out `&deque->head_idx`.
 */
module Atomic {
  import opened CInt

  /** What InterlockedCompareExchange leaves in memory and what it returns. */
  datatype Exchanged = Exchanged(stored: int, returned: int)

  /**
   * Win32 InterlockedCompareExchange(Destination, Exchange, Comparand):
   * stores Exchange when the current value equals Comparand, and always
   * returns the value it found.
   */
  function CompareExchange(current: int, exchange: int, comparand: int): (r: Exchanged)
    ensures r.returned == current
    ensures r.stored == (if current == comparand then exchange else current)
  {
    Exchanged(if current == comparand then exchange else current, current)
  }

  /**
   * What the header documents for atomicCompareAssign(address, value, new_value):
   * compare the word with `value` and, when equal, replace it by `new_value`;
   * return the old word.
   */
  function DocumentedCompareAssign(current: int, value: int, newValue: int): (r: Exchanged)
    ensures r.returned == current
    ensures current == value ==> r.stored == newValue
    ensures current != value ==> r.stored == current
  {
    Exchanged(if current == value then newValue else current, current)
  }

  /** Incrementing then decrementing (or the reverse) a 32-bit word restores it, wrap-around included. */
  lemma IncDecInverse(v: int)
    requires IsInt32(v)
    ensures Wrap32(Wrap32(v + 1) - 1) == v
    ensures Wrap32(Wrap32(v - 1) + 1) == v
  {
    if v == INT32_MAX {
      assert Wrap32(v + 1) == INT32_MIN;
    }
    if v == INT32_MIN {
      assert Wrap32(v - 1) == INT32_MAX;
    }
  }

  /**
   * atomicCompareAssign as written passes `value` as the Exchange argument
   * and `new_value` as the Comparand, so it stores `value` when the word
   * equals `new_value`. It agrees with the documented behaviour exactly when
   * the word equals both arguments or neither.
   */
  lemma CompareAssignArgumentsSwapped(current: int, value: int, newValue: int)
    ensures CompareExchange(current, value, newValue) == DocumentedCompareAssign(current, value, newValue)
        <==> ((current == value) == (current == newValue))
  {
  }

  /** The input that shows it: word 5, compare with 5, replace by 7. */
  lemma CompareAssignCounterexample()
    ensures CompareExchange(5, 5, 7).stored == 5
    ensures DocumentedCompareAssign(5, 5, 7).stored == 7
  {
  }

  /** One 32-bit word in memory. */
  class Cell {
    var value: int

    ghost predicate Valid()
      reads this
    {
      IsInt32(value)
    }

    constructor (v: int)
      requires IsInt32(v)
      ensures Valid() && value == v
    {
      value := v;
    }

    /** atomicInc: InterlockedIncrement returns the new word; minus one gives the old one. */
    method Inc() returns (previous: int)
      requires Valid()
      modifies this
      ensures Valid()
      ensures value == Wrap32(old(value) + 1)
      ensures previous == old(value)
    {
      value := Wrap32(value + 1);
      previous := Wrap32(value - 1);
      IncDecInverse(old(value));
    }

    /** atomicDec: InterlockedDecrement returns the new word; plus one gives the old one. */
    method Dec() returns (previous: int)
      requires Valid()
      modifies this
      ensures Valid()
      ensures value == Wrap32(old(value) - 1)
      ensures previous == old(value)
    {
      value := Wrap32(value - 1);
      previous := Wrap32(value + 1);
      IncDecInverse(old(value));
    }

    /** atomicCompareAssign as written: Exchange = value, Comparand = new_value. */
    method CompareAssign(v: int, newValue: int) returns (previous: int)
      requires Valid() && IsInt32(v)
      modifies this
      ensures Valid()
      ensures previous == old(value)
      ensures value == (if old(value) == newValue then v else old(value))
    {
      var x := CompareExchange(value, v, newValue);
      value := x.stored;
      previous := x.returned;
    }

    /** atomicCompareAssign with the arguments in the documented order. */
    method CompareAssignCorrected(v: int, newValue: int) returns (previous: int)
      requires Valid() && IsInt32(newValue)
      modifies this
      ensures Valid()
      ensures Exchanged(value, previous) == DocumentedCompareAssign(old(value), v, newValue)
    {
      var x := CompareExchange(value, newValue, v);
      value := x.stored;
      previous := x.returned;
    }

    /** atomicRead: a plain load; nothing changes. */
    method Read() returns (r: int)
      requires Valid()
      ensures IsInt32(r)
      ensures r == value
    {
      r := value;
    }

    /** atomicWrite: a plain store of `v`. */
    method Write(v: int)
      requires IsInt32(v)
      modifies this
      ensures Valid() && value == v
    {
      value := v;
    }
  }

  /** atomicInc followed by atomicDec on the same word restores its value. */
  method IncThenDec(c: Cell)
    requires c.Valid()
    modifies c
    ensures c.Valid() && c.value == old(c.value)
  {
    var _ := c.Inc();
    var _ := c.Dec();
    IncDecInverse(old(c.value));
  }
}
