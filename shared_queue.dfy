/** The ring-buffer queue `shared_queue<T>` as an object: a fixed array of
    slots and the two cursors, updated in place. The atomic cursors are
    plain fields here and every call runs to completion before the next
    one starts (one producer and one consumer, taken in turn). */
module SharedQueue {
  import opened RingSpec

  /** The number of items the queue is built to hold (2^20). */
  const Size: nat := 1048576
  /** The number of slots: one more than `Size`, the spare slot that tells
      a full queue from an empty one. */
  const Capacity: nat := Size + 1

  /** With the queue's own constant, a full queue holds exactly `Size`
      items. */
  lemma DefaultHoldsSize<T>(r: Ring<T>)
    requires Valid(r) && |r.slots| == Capacity && IsFull(r)
    ensures |Items(r)| == Size
  {
    FullIffAtLimit(r);
  }

  class Queue<T(0)> {
    /** Number of slots; fixed at construction. */
    const capacity: nat
    /** The backing array `_array`. */
    const slots: array<T>
    /** Next slot to pop (`_head`). */
    var head: nat
    /** Next slot to push (`_tail`). */
    var tail: nat

    /** The queue's state as a value of the ring model. */
    ghost function State(): Ring<T>
      reads this, slots
    {
      Ring(slots[..], head, tail)
    }

    ghost predicate Valid()
      reads this, slots
    {
      slots.Length == capacity && RingSpec.Valid(State())
    }

    /** The items in the queue, oldest first. */
    ghost function Contents(): seq<T>
      reads this, slots
      requires Valid()
    {
      Items(State())
    }

    /** A new queue of `cap` slots: both cursors at slot 0, nothing
        stored. */
    constructor (cap: nat)
      requires 0 < cap
      ensures Valid() && fresh(slots)
      ensures capacity == cap && head == 0 && tail == 0
      ensures Contents() == []
    {
      capacity := cap;
      slots := new T[cap];
      head, tail := 0, 0;
    }

    /** One push attempt (the private `wait_and_push`, which never waits):
        stores `item` and returns true unless the queue is full. */
    method WaitAndPush(item: T) returns (ok: bool)
      requires Valid()
      modifies this`tail, slots
      ensures Valid()
      ensures ok <==> Increment(old(tail), capacity) != head
      ensures ok ==> (tail == Increment(old(tail), capacity) &&
                      slots[..] == old(slots[..])[old(tail) := item])
      ensures !ok ==> tail == old(tail) && slots[..] == old(slots[..])
      ensures (State(), ok) == PushStep(old(State()), item)
      ensures ok <==> |old(Contents())| < capacity - 1
      ensures Contents() == if ok then old(Contents()) + [item] else old(Contents())
    {
      FullIffAtLimit(State());
      var currentTail := tail;
      var nextTail := Increment(currentTail, capacity);
      if nextTail != head {
        PushStepAppends(State(), item);
        slots[currentTail] := item;
        tail := nextTail;
        return true;
      }
      return false;
    }

    /** `push`: retries the push step until it succeeds. Called on a queue
        that is not full, the first attempt succeeds. */
    method Push(item: T)
      requires Valid()
      requires |Contents()| < capacity - 1
      modifies this`tail, slots
      ensures Valid()
      ensures State() == PushStep(old(State()), item).0
      ensures Contents() == old(Contents()) + [item]
    {
      var ok := false;
      while !ok
        invariant Valid()
        invariant !ok ==> State() == old(State())
        invariant ok ==> State() == PushStep(old(State()), item).0
        invariant ok ==> Contents() == old(Contents()) + [item]
        decreases if ok then 0 else 1
      {
        ok := WaitAndPush(item);
      }
    }

    /** One pop attempt (`try_and_pop`): when the queue is not empty,
        returns true and the oldest item; otherwise returns false and hands
        back `item`, the caller's variable, unchanged. */
    method TryAndPop(item: T) returns (ok: bool, popped: T)
      requires Valid()
      modifies this`head
      ensures Valid()
      ensures ok <==> old(head) != tail
      ensures ok ==> popped == slots[old(head)] && head == Increment(old(head), capacity)
      ensures !ok ==> popped == item && head == old(head)
      ensures PopStep(old(State())) == (State(), if ok then Some(popped) else None)
      ensures ok <==> old(Contents()) != []
      ensures ok ==> popped == old(Contents())[0] && Contents() == old(Contents())[1..]
      ensures !ok ==> Contents() == old(Contents())
    {
      EmptyIffNoItems(State());
      var currentHead := head;
      if currentHead == tail {
        return false, item;
      }
      PopStepTakesFirst(State());
      popped := slots[currentHead];
      head := Increment(currentHead, capacity);
      ok := true;
    }

    /** `wait_and_pop`: retries the pop step until it succeeds. Called on
        a queue that is not empty, the first attempt succeeds. */
    method WaitAndPop(item: T) returns (popped: T)
      requires Valid()
      requires Contents() != []
      modifies this`head
      ensures Valid()
      ensures State() == PopStep(old(State())).0
      ensures popped == old(Contents())[0]
      ensures Contents() == old(Contents())[1..]
    {
      var ok := false;
      popped := item;
      while !ok
        invariant Valid()
        invariant !ok ==> State() == old(State())
        invariant ok ==> State() == PopStep(old(State())).0
        invariant ok ==> popped == old(Contents())[0] && Contents() == old(Contents())[1..]
        decreases if ok then 0 else 1
      {
        ok, popped := TryAndPop(popped);
      }
    }

    /** `empty()`: the two cursors coincide exactly when no item is
        stored. */
    method Empty() returns (b: bool)
      requires Valid()
      ensures b <==> Contents() == []
    {
      EmptyIffNoItems(State());
      b := head == tail;
    }
  }

  /** A client: three items pushed into a fresh queue come out in push
      order, and the queue reports empty only after the third pop. */
  method PushThreePopThree<T(0)>(cap: nat, a: T, b: T, c: T)
    returns (x: T, y: T, z: T, emptyBefore: bool, emptyAfter: bool)
    requires 4 <= cap
    ensures x == a && y == b && z == c
    ensures !emptyBefore && emptyAfter
  {
    var q := new Queue<T>(cap);
    q.Push(a);
    q.Push(b);
    q.Push(c);
    x := q.WaitAndPop(a);
    y := q.WaitAndPop(a);
    emptyBefore := q.Empty();
    z := q.WaitAndPop(a);
    emptyAfter := q.Empty();
  }
}
