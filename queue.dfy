/**
 * The fixed-capacity circular `Queue` of fullmark.java: an array used as a
 * ring, with the index of the oldest element (`front`), the index of the
 * newest one (`rear`, `-1` before the first enqueue) and the number of
 * elements (`size`). The ghost field `Contents` is the queue as a sequence,
 * oldest first.
 */
module CircularQueue {

  /**
   * `x % c` for `0 <= x < 2 * c`: every `%` of the queue divides an index
   * plus at most one capacity, so one subtraction replaces it.
   */
  function Wrap(x: int, c: int): (w: int)
    requires 0 <= x < 2 * c
    ensures 0 <= w < c && (w == x || w == x - c)
  {
    if x < c then x else x - c
  }

  /** Java's `%` on the operands the queue uses agrees with `Wrap`. */
  lemma WrapMod(x: int, c: int)
    requires 0 <= x < 2 * c
    ensures x % c == Wrap(x, c)
  {
    if x < c {
      assert x == c * 0 + x;
    } else {
      assert x == c * 1 + (x - c);
    }
  }

  /**
   * The ring indices: `front` is a slot, `size` at most `capacity`, and the
   * slot after `rear` is the one after the `size` elements from `front`
   * (`rear` is `-1` only before the first enqueue).
   */
  predicate Ring(front: int, rear: int, size: int, capacity: int) {
    0 <= size <= capacity
    && (capacity > 0 ==>
          0 <= front < capacity && -1 <= rear < capacity
          && (rear == -1 ==> front == 0 && size == 0)
          && Wrap(rear + 1, capacity) == Wrap(front + size, capacity))
  }

  /**
   * `enqueue` on a queue that is not full: the new `rear` is the free slot
   * after the elements, and the indices stay a ring with one more element.
   */
  lemma RingEnqueue(front: int, rear: int, size: int, capacity: int)
    requires Ring(front, rear, size, capacity) && size < capacity
    ensures (rear + 1) % capacity == Wrap(front + size, capacity)
    ensures Ring(front, (rear + 1) % capacity, size + 1, capacity)
  {
    WrapMod(rear + 1, capacity);
    SlotAfter(front, size, capacity);
  }

  /**
   * `dequeue` on a queue that is not empty: `front` moves one slot on and
   * the indices stay a ring with one element fewer.
   */
  lemma RingDequeue(front: int, rear: int, size: int, capacity: int)
    requires Ring(front, rear, size, capacity) && size > 0
    ensures (front + 1) % capacity == Wrap(front + 1, capacity)
    ensures Ring((front + 1) % capacity, rear, size - 1, capacity)
  {
    WrapMod(front + 1, capacity);
  }

  /** Counting `k` slots from the slot after `front` reaches the slot `k + 1` after `front`. */
  lemma ShiftSlot(front: int, k: int, capacity: int)
    requires 0 <= front < capacity && 0 <= k < capacity - 1
    ensures Wrap(Wrap(front + 1, capacity) + k, capacity) == Wrap(front + 1 + k, capacity)
  {
  }

  /** A non-empty queue's `rear` is the slot of its newest element. */
  lemma RingRear(front: int, rear: int, size: int, capacity: int)
    requires Ring(front, rear, size, capacity) && size > 0
    ensures 0 <= rear < capacity && rear == Wrap(front + size - 1, capacity)
  {
  }

  /**
   * The queue `contents`, oldest first, stored in the ring `buf` from slot
   * `front` on, wrapping at `capacity`.
   */
  predicate Layout(buf: seq<int>, contents: seq<int>, front: int, capacity: int) {
    |buf| == capacity && |contents| <= capacity && (capacity > 0 ==> 0 <= front < capacity)
    && forall k :: 0 <= k < |contents| ==> contents[k] == buf[Wrap(front + k, capacity)]
  }

  /**
   * Writing `data` into the free slot after the elements appends it to the
   * queue: the elements already stored are left in place.
   */
  lemma {:induction false} LayoutAppend(buf: seq<int>, contents: seq<int>, front: int, capacity: int, data: int)
    requires Layout(buf, contents, front, capacity) && |contents| < capacity
    ensures Layout(buf[Wrap(front + |contents|, capacity) := data], contents + [data], front, capacity)
  {
    var slot := Wrap(front + |contents|, capacity);
    var buf', contents' := buf[slot := data], contents + [data];
    forall k | 0 <= k < |contents'|
      ensures contents'[k] == buf'[Wrap(front + k, capacity)]
    {
      if k < |contents| {
        FreeSlot(front, k, |contents|, capacity);
      }
    }
  }

  /**
   * The oldest element sits at `front`; moving `front` one slot on leaves
   * the rest of the queue stored where it was.
   */
  lemma {:induction false} LayoutPop(buf: seq<int>, contents: seq<int>, front: int, capacity: int)
    requires Layout(buf, contents, front, capacity) && contents != []
    ensures contents[0] == buf[front]
    ensures Layout(buf, contents[1..], Wrap(front + 1, capacity), capacity)
  {
    var rest := contents[1..];
    forall k | 0 <= k < |rest|
      ensures rest[k] == buf[Wrap(Wrap(front + 1, capacity) + k, capacity)]
    {
      ShiftSlot(front, k, capacity);
    }
  }

  /** The slot after `size` elements stored from `front` is none of theirs. */
  lemma FreeSlot(front: int, k: int, size: int, capacity: int)
    requires 0 <= front < capacity && 0 <= k < size < capacity
    ensures Wrap(front + k, capacity) != Wrap(front + size, capacity)
  {
  }

  /** Wrapping the slot after `size` elements and stepping once more is the slot after `size + 1`. */
  lemma SlotAfter(front: int, size: int, capacity: int)
    requires 0 <= front < capacity && 0 <= size < capacity
    ensures Wrap(Wrap(front + size, capacity) + 1, capacity) == Wrap(front + size + 1, capacity)
  {
  }

  class Queue {
    var queue: array<int>
    var front: int
    var rear: int
    var size: int
    var capacity: int
    ghost var Contents: seq<int>

    /**
     * The queue invariant: `Contents` has `size` elements, the indices form
     * a ring and the elements are stored in the array from `front` on.
     */
    ghost predicate Valid()
      reads this, queue
    {
      |Contents| == size && Ring(front, rear, size, capacity)
      && Layout(queue[..], Contents, front, capacity)
    }

    /** `new Queue(capacity)`: an empty queue over a fresh array. */
    constructor(capacity: int)
      requires capacity >= 0
      ensures Valid() && Contents == [] && this.capacity == capacity
      ensures front == 0 && rear == -1 && fresh(queue)
    {
      this.capacity := capacity;
      queue := new int[capacity];
      front := 0;
      rear := -1;
      size := 0;
      Contents := [];
    }

    /** `isEmpty()`. */
    function IsEmpty(): (b: bool)
      requires Valid()
      reads this, queue
      ensures b <==> Contents == []
    {
      size == 0
    }

    /** `isFull()`: a queue of capacity zero is both empty and full. */
    function IsFull(): (b: bool)
      requires Valid()
      reads this, queue
      ensures b <==> |Contents| == capacity
    {
      size == capacity
    }

    /**
     * `enqueue(data)`: a full queue is left as it was (the message is not
     * modelled); otherwise `data` is written at the slot after `rear`, which
     * becomes the new `rear`, and joins the back of the queue.
     */
    method Enqueue(data: int)
      requires Valid()
      modifies this, queue
      ensures Valid() && queue == old(queue) && capacity == old(capacity) && front == old(front)
      ensures old(size) == capacity ==> Contents == old(Contents) && rear == old(rear) && unchanged(queue)
      ensures old(size) < capacity ==>
                Contents == old(Contents) + [data] && rear == (old(rear) + 1) % capacity
                && queue[rear] == data && size == old(size) + 1
    {
      if IsFull() {
        return;
      }
      RingEnqueue(front, rear, size, capacity);
      LayoutAppend(queue[..], Contents, front, capacity, data);
      var next := (rear + 1) % capacity;
      queue[next] := data;
      rear, size, Contents := next, size + 1, Contents + [data];
    }

    /**
     * `dequeue()`: `-1` and no change on an empty queue; otherwise the oldest
     * element, which leaves the queue as `front` moves one slot on.
     */
    method Dequeue() returns (data: int)
      requires Valid()
      modifies this
      ensures Valid() && queue == old(queue) && capacity == old(capacity) && rear == old(rear)
      ensures old(Contents) == [] ==> data == -1 && Contents == [] && front == old(front)
      ensures old(Contents) != [] ==>
                data == old(Contents)[0] && Contents == old(Contents)[1..]
                && front == (old(front) + 1) % capacity && size == old(size) - 1
    {
      if IsEmpty() {
        return -1;
      }
      RingDequeue(front, rear, size, capacity);
      LayoutPop(queue[..], Contents, front, capacity);
      data := queue[front];
      front, size, Contents := (front + 1) % capacity, size - 1, Contents[1..];
    }

    /** `peek()`: the oldest element, or `-1` on an empty queue; nothing changes. */
    method Peek() returns (data: int)
      requires Valid()
      ensures Contents == [] ==> data == -1
      ensures Contents != [] ==> data == Contents[0]
    {
      if IsEmpty() {
        return -1;
      }
      LayoutPop(queue[..], Contents, front, capacity);
      data := queue[front];
    }

    /**
     * `display()`: the elements it prints, oldest first, read round the ring
     * from `front`; an empty queue prints only its message.
     */
    method Display() returns (shown: seq<int>)
      requires Valid()
      ensures shown == Contents
    {
      if IsEmpty() {
        return [];
      }
      shown := [];
      for i := 0 to size
        invariant shown == Contents[..i]
      {
        WrapMod(i + front, capacity);
        assert Contents[i] == queue[..][Wrap(front + i, capacity)];
        shown := shown + [queue[(i + front) % capacity]];
      }
    }

    /** The newest element sits at `rear`. */
    lemma NewestAtRear()
      requires Valid() && Contents != []
      ensures 0 <= rear < capacity && queue[rear] == Contents[|Contents| - 1]
    {
      RingRear(front, rear, size, capacity);
      assert Contents[size - 1] == queue[..][Wrap(front + size - 1, capacity)];
    }
  }
}
