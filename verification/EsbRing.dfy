/** The payload FIFOs of the Enhanced ShockBurst driver.

    `struct payload_tx_fifo` and `struct payload_rx_fifo` have the same shape: a fixed array of slots
    and three counters that the driver updates one by one. */
module EsbRing {

  /** The slot `j` places behind slot `back` of `n`. */
  ghost function Behind(back: nat, n: nat, j: nat): (w: nat)
    requires 0 < j <= n && back < n
    ensures w < n
  {
    if j <= back then back - j else back + n - j
  }

  class Ring<T(0)> {
    const slots: array<T>
    var back: nat
    var front: nat
    var count: nat

    /** The queue held by the ring, oldest payload first. */
    ghost var contents: seq<T>

    /** Everything pushed since the last reset, oldest first. */
    ghost var history: seq<T>

    /** `back == (front + count) mod capacity`, and the slots from `front` on hold the queue. */
    ghost predicate Valid()
      reads this, slots
    {
      && 0 < slots.Length
      && front < slots.Length
      && count == |contents| <= slots.Length
      && back == Wrap(front + count)
      && (forall i :: 0 <= i < count ==> contents[i] == slots[Wrap(front + i)])
      && Remembers()
    }

    /** The slots behind `back` still hold what was pushed last, removed or not. */
    ghost predicate Remembers()
      requires 0 < slots.Length && back < slots.Length
      reads this, slots
    {
      forall j :: 0 < j <= slots.Length && j <= |history| ==> slots[Behind(back, slots.Length, j)] == history[|history| - j]
    }

    /** Reduction of an index below twice the capacity. */
    ghost function Wrap(i: nat): (w: int)
      ensures i < 2 * slots.Length ==> 0 <= w < slots.Length
    {
      if i < slots.Length then i else i - slots.Length
    }

    constructor (capacity: nat)
      requires capacity > 0
      ensures Valid() && fresh(slots) && slots.Length == capacity
      ensures contents == []
    {
      slots := new T[capacity];
      back, front, count := 0, 0, 0;
      contents, history := [], [];
    }

    method Push(x: T)
      requires Valid() && count < slots.Length
      modifies this, slots
      ensures Valid()
      ensures contents == old(contents) + [x] && history == old(history) + [x]
      ensures front == old(front)
    {
      slots[back] := x;
      back := back + 1;
      if back >= slots.Length {
        back := 0;
      }
      count := count + 1;
      contents, history := contents + [x], history + [x];
      forall j | 0 < j <= slots.Length && j <= |history|
        ensures slots[Behind(back, slots.Length, j)] == history[|history| - j]
      {
        if j > 1 {
          assert Behind(back, slots.Length, j) == Behind(old(back), slots.Length, j - 1);
        }
      }
    }

    /** `tx_fifo_remove_last`, and the inline removals of the receive path. */
    method RemoveFront()
      requires Valid()
      modifies this
      ensures Valid()
      ensures contents == (if old(contents) == [] then [] else old(contents)[1..]) && history == old(history)
      ensures front == if old(contents) == [] then old(front) else Wrap(old(front) + 1)
    {
      if count == 0 {
        return;
      }
      count := count - 1;
      front := front + 1;
      if front >= slots.Length {
        front := 0;
      }
      contents := contents[1..];
    }

    method Front() returns (x: T)
      requires Valid()
      ensures x == slots[front]
      ensures count > 0 ==> x == contents[0]
    {
      x := slots[front];
    }

    method Reset()
      requires slots.Length > 0
      modifies this
      ensures Valid() && contents == [] && history == []
    {
      back, front, count := 0, 0, 0;
      contents, history := [], [];
    }

    /** `nrf_esb_pop_tx` advances `back` where dropping the newest payload needs it moved the other way.
        The ring survives the call exactly when the two directions coincide: with one or two slots. */
    method PopBack()
      requires Valid() && count > 0
      modifies this
      ensures contents == old(contents)[..old(count) - 1]
      ensures Valid() <==> slots.Length <= 2
    {
      back := back + 1;
      if back >= slots.Length {
        back := 0;
      }
      count := count - 1;
      contents := contents[..count];
      history := contents;
    }

    /** Removing the last payload leaves `front` at the slot that was written a whole capacity of pushes ago:
        in a ring of one slot that is the payload just removed. */
    lemma SlotBehindLast()
      requires Valid() && count == 1 && |history| >= slots.Length
      ensures slots[Wrap(front + 1)] == history[|history| - slots.Length]
    {
      assert Behind(back, slots.Length, slots.Length) == Wrap(front + 1);
    }
  }
}
