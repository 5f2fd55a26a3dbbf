/** Value model of the ring buffer behind `shared_queue<T>`: a backing
    sequence of `cap` slots and the two cursors `head` (next slot to pop)
    and `tail` (next slot to push). One slot is always left unused, so that
    `head == tail` means empty and `Increment(tail) == head` means full.

    The functions here give the logical contents of a ring and the effect of
    one push step and one pop step; the class in module SharedQueue is
    proved against them. */
module RingSpec {

  datatype Option<T> = None | Some(value: T)

  /** The slot after `idx`, wrapping around at `cap` (the queue's
      `increment`). */
  function Increment(idx: nat, cap: nat): (r: nat)
    requires 0 < cap
    ensures r < cap
    ensures idx + 1 < cap ==> r == idx + 1
    ensures idx < cap ==> (r == 0 <==> idx == cap - 1)
  {
    (idx + 1) % cap
  }

  /** Occupancy: the number of slots from `h` (inclusive) to `t`
      (exclusive) walking forwards, i.e. `(t - h) mod cap`. */
  function Count(h: nat, t: nat, cap: nat): (n: nat)
    requires h < cap && t < cap
    ensures n < cap
    ensures n == 0 <==> h == t
    ensures (h + n) % cap == t
  {
    ModOfSmall(t, cap);
    ModOfSmall(t + cap, cap);
    if h <= t then t - h else t + cap - h
  }

  /** `x % cap` for `x` below twice the capacity. */
  lemma ModOfSmall(x: nat, cap: nat)
    requires 0 < cap && x < 2 * cap
    ensures x % cap == if x < cap then x else x - cap
  {
  }

  /** Slot `j` holds a live item: it lies in the window `[h, t)` taken
      cyclically. */
  predicate InWindow(j: nat, h: nat, t: nat)
  {
    if h <= t then h <= j < t else h <= j || j < t
  }

  /** The state of a queue: its slots and its two cursors. */
  datatype Ring<T> = Ring(slots: seq<T>, head: nat, tail: nat)

  /** A well-formed ring: at least one slot and both cursors in range. */
  predicate Valid<T>(r: Ring<T>)
  {
    0 < |r.slots| && r.head < |r.slots| && r.tail < |r.slots|
  }

  /** The `n` slots visited from index `i` onwards, following `Increment`. */
  function Walk<T>(s: seq<T>, i: nat, n: nat): (w: seq<T>)
    requires i < |s|
    ensures |w| == n
    ensures 0 < n ==> w[0] == s[i]
    decreases n
  {
    if n == 0 then [] else [s[i]] + Walk(s, Increment(i, |s|), n - 1)
  }

  /** The logical contents of a ring, oldest item first. */
  function Items<T>(r: Ring<T>): (items: seq<T>)
    requires Valid(r)
    ensures |items| == Count(r.head, r.tail, |r.slots|)
    ensures |items| <= |r.slots| - 1
  {
    Walk(r.slots, r.head, Count(r.head, r.tail, |r.slots|))
  }

  /** The queue's `empty()`: both cursors on the same slot. */
  predicate IsEmpty<T>(r: Ring<T>)
  {
    r.head == r.tail
  }

  /** No free slot: one more push would move `tail` onto `head`. */
  predicate IsFull<T>(r: Ring<T>)
    requires Valid(r)
  {
    Increment(r.tail, |r.slots|) == r.head
  }

  /** One non-blocking push attempt (`wait_and_push`): the new ring and
      whether the item was stored. */
  function PushStep<T>(r: Ring<T>, x: T): (res: (Ring<T>, bool))
    requires Valid(r)
    ensures Valid(res.0) && |res.0.slots| == |r.slots|
    ensures res.1 <==> !IsFull(r)
    ensures !res.1 ==> res.0 == r
  {
    var next := Increment(r.tail, |r.slots|);
    if next != r.head then (Ring(r.slots[r.tail := x], r.head, next), true)
    else (r, false)
  }

  /** One non-blocking pop attempt (`try_and_pop`): the new ring and the
      item taken, if any. */
  function PopStep<T>(r: Ring<T>): (res: (Ring<T>, Option<T>))
    requires Valid(r)
    ensures Valid(res.0) && |res.0.slots| == |r.slots|
    ensures res.1.None? <==> IsEmpty(r)
    ensures res.1.None? ==> res.0 == r
  {
    if r.head == r.tail then (r, None)
    else (Ring(r.slots, Increment(r.head, |r.slots|), r.tail), Some(r.slots[r.head]))
  }

  // ---------------------------------------------------------------------
  // Lemmas about the logical contents
  // ---------------------------------------------------------------------

  /** Advancing `h` by one shortens a non-empty window by one. */
  lemma CountAdvance(h: nat, t: nat, cap: nat)
    requires h < cap && t < cap && h != t
    ensures Count(Increment(h, cap), t, cap) == Count(h, t, cap) - 1
  {
  }

  /** Walking one slot past the window `[h, t)` adds the item at `t`. */
  lemma {:induction false} WalkSnoc<T>(s: seq<T>, h: nat, t: nat)
    requires h < |s| && t < |s|
    ensures Walk(s, h, Count(h, t, |s|) + 1) == Walk(s, h, Count(h, t, |s|)) + [s[t]]
    decreases Count(h, t, |s|)
  {
    if h != t {
      var h' := Increment(h, |s|);
      CountAdvance(h, t, |s|);
      WalkSnoc(s, h', t);
    }
  }

  /** The window `[h, t)` only depends on the slots inside it. */
  lemma {:induction false} WalkFrame<T>(s: seq<T>, s': seq<T>, h: nat, t: nat)
    requires |s| == |s'| && h < |s| && t < |s|
    requires forall j :: 0 <= j < |s| && InWindow(j, h, t) ==> s[j] == s'[j]
    ensures Walk(s, h, Count(h, t, |s|)) == Walk(s', h, Count(h, t, |s|))
    decreases Count(h, t, |s|)
  {
    if h != t {
      var h' := Increment(h, |s|);
      CountAdvance(h, t, |s|);
      assert InWindow(h, h, t);
      forall j | 0 <= j < |s| && InWindow(j, h', t)
        ensures s[j] == s'[j]
      {
        assert InWindow(j, h, t);
      }
      WalkFrame(s, s', h', t);
    }
  }

  /** `empty()` tells exactly whether the logical contents are empty. */
  lemma EmptyIffNoItems<T>(r: Ring<T>)
    requires Valid(r)
    ensures IsEmpty(r) <==> Items(r) == []
  {
  }

  /** The queue is full exactly when it holds `cap - 1` items: one slot is
      always sacrificed. */
  lemma FullIffAtLimit<T>(r: Ring<T>)
    requires Valid(r)
    ensures IsFull(r) <==> |Items(r)| == |r.slots| - 1
  {
  }

  /** A successful push writes the item at the old `tail`, advances `tail`,
      keeps `head` and every other slot, and appends the item to the
      contents. */
  lemma PushStepAppends<T>(r: Ring<T>, x: T)
    requires Valid(r) && !IsFull(r)
    ensures PushStep(r, x).1
    ensures PushStep(r, x).0 == Ring(r.slots[r.tail := x], r.head, Increment(r.tail, |r.slots|))
    ensures Items(PushStep(r, x).0) == Items(r) + [x]
  {
    var s, h, t := r.slots, r.head, r.tail;
    var s' := s[t := x];
    var t' := Increment(t, |s|);
    assert Count(h, t', |s|) == Count(h, t, |s|) + 1;
    WalkSnoc(s', h, t);
    assert !InWindow(t, h, t);
    WalkFrame(s, s', h, t);
  }

  /** A successful pop yields the oldest item, advances `head`, keeps
      `tail` and the slots, and removes that item from the contents. */
  lemma PopStepTakesFirst<T>(r: Ring<T>)
    requires Valid(r) && !IsEmpty(r)
    ensures PopStep(r).1 == Some(Items(r)[0])
    ensures PopStep(r).0 == Ring(r.slots, Increment(r.head, |r.slots|), r.tail)
    ensures Items(PopStep(r).0) == Items(r)[1..]
  {
    CountAdvance(r.head, r.tail, |r.slots|);
  }
}
