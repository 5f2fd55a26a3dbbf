/** FIFO and capacity behaviour of the ring, stated against an independent
    reference: a bounded first-in first-out queue kept as a plain sequence.
    Producer and consumer are taken one step at a time, so a trace of
    operations stands for any single-producer/single-consumer
    interleaving. */
module Fifo {
  import opened RingSpec

  /** One call on the queue: a non-blocking push or pop attempt. */
  datatype Op<T> = PushOp(item: T) | PopOp

  /** What one call reports back. */
  datatype Outcome<T> = Pushed(ok: bool) | Popped(item: Option<T>)

  /** Runs a trace of calls on a ring, one step at a time. */
  function Run<T>(r: Ring<T>, ops: seq<Op<T>>): (res: (Ring<T>, seq<Outcome<T>>))
    requires Valid(r)
    ensures Valid(res.0) && |res.0.slots| == |r.slots|
    ensures |res.1| == |ops|
    decreases |ops|
  {
    if ops == [] then (r, [])
    else
      match ops[0]
      case PushOp(x) =>
        var (r', ok) := PushStep(r, x);
        var (r'', outs) := Run(r', ops[1..]);
        (r'', [Pushed(ok)] + outs)
      case PopOp =>
        var (r', item) := PopStep(r);
        var (r'', outs) := Run(r', ops[1..]);
        (r'', [Popped(item)] + outs)
  }

  /** The reference: a queue `q` holding at most `limit` items; a push
      beyond the limit is refused, a pop from an empty queue reports
      nothing. */
  function RunReference<T>(q: seq<T>, limit: nat, ops: seq<Op<T>>): (res: (seq<T>, seq<Outcome<T>>))
    ensures |res.1| == |ops|
    decreases |ops|
  {
    if ops == [] then (q, [])
    else
      match ops[0]
      case PushOp(x) =>
        if |q| < limit then
          var (q', outs) := RunReference(q + [x], limit, ops[1..]);
          (q', [Pushed(true)] + outs)
        else
          var (q', outs) := RunReference(q, limit, ops[1..]);
          (q', [Pushed(false)] + outs)
      case PopOp =>
        if q != [] then
          var (q', outs) := RunReference(q[1..], limit, ops[1..]);
          (q', [Popped(Some(q[0]))] + outs)
        else
          var (q', outs) := RunReference(q, limit, ops[1..]);
          (q', [Popped(None)] + outs)
  }

  /** The ring behaves, call for call, as a bounded FIFO queue of
      `cap - 1` items: same outcomes, and its final contents are the
      reference's final queue. */
  lemma {:induction false} RingRefinesBoundedQueue<T>(r: Ring<T>, ops: seq<Op<T>>)
    requires Valid(r)
    ensures Run(r, ops).1 == RunReference(Items(r), |r.slots| - 1, ops).1
    ensures Items(Run(r, ops).0) == RunReference(Items(r), |r.slots| - 1, ops).0
    decreases |ops|
  {
    if ops != [] {
      FullIffAtLimit(r);
      EmptyIffNoItems(r);
      match ops[0]
      case PushOp(x) =>
        if !IsFull(r) {
          PushStepAppends(r, x);
        }
        RingRefinesBoundedQueue(PushStep(r, x).0, ops[1..]);
      case PopOp =>
        if !IsEmpty(r) {
          PopStepTakesFirst(r);
        }
        RingRefinesBoundedQueue(PopStep(r).0, ops[1..]);
    }
  }

  /** Pushes every item of `xs`, in order (the producer side). */
  function PushAll<T>(r: Ring<T>, xs: seq<T>): (res: (Ring<T>, seq<bool>))
    requires Valid(r)
    ensures Valid(res.0) && |res.0.slots| == |r.slots|
    ensures |res.1| == |xs|
    decreases |xs|
  {
    if xs == [] then (r, [])
    else
      var (r', ok) := PushStep(r, xs[0]);
      var (r'', oks) := PushAll(r', xs[1..]);
      (r'', [ok] + oks)
  }

  /** Pops `n` times (the consumer side). */
  function PopAll<T>(r: Ring<T>, n: nat): (res: (Ring<T>, seq<Option<T>>))
    requires Valid(r)
    ensures Valid(res.0) && |res.0.slots| == |r.slots|
    ensures |res.1| == n
    decreases n
  {
    if n == 0 then (r, [])
    else
      var (r', item) := PopStep(r);
      var (r'', items) := PopAll(r', n - 1);
      (r'', [item] + items)
  }

  /** While there is room, every push succeeds and the items are appended
      in push order. */
  lemma {:induction false} PushAllAppends<T>(r: Ring<T>, xs: seq<T>)
    requires Valid(r)
    requires |Items(r)| + |xs| <= |r.slots| - 1
    ensures forall i :: 0 <= i < |xs| ==> PushAll(r, xs).1[i]
    ensures Items(PushAll(r, xs).0) == Items(r) + xs
    decreases |xs|
  {
    if xs != [] {
      FullIffAtLimit(r);
      PushStepAppends(r, xs[0]);
      var r' := PushStep(r, xs[0]).0;
      PushAllAppends(r', xs[1..]);
      assert Items(r) + [xs[0]] + xs[1..] == Items(r) + xs;
    }
  }

  /** Popping `n` items from a ring holding at least `n` yields its
      oldest `n` items, oldest first, and leaves the rest. */
  lemma {:induction false} PopAllTakesOldest<T>(r: Ring<T>, n: nat)
    requires Valid(r)
    requires n <= |Items(r)|
    ensures forall i :: 0 <= i < n ==> PopAll(r, n).1[i] == Some(Items(r)[i])
    ensures Items(PopAll(r, n).0) == Items(r)[n..]
    decreases n
  {
    if n > 0 {
      EmptyIffNoItems(r);
      PopStepTakesFirst(r);
      var r' := PopStep(r).0;
      PopAllTakesOldest(r', n - 1);
      assert Items(r)[1..][n - 1..] == Items(r)[n..];
      forall i | 0 <= i < n
        ensures PopAll(r, n).1[i] == Some(Items(r)[i])
      {
        if i > 0 {
          assert Items(r')[i - 1] == Items(r)[i];
        }
      }
    }
  }

  /** Round trip: pushing `xs` into an empty ring and then popping
      `|xs|` times gives back `xs` in push order, and the ring is empty
      again only once the last item has been popped. */
  lemma FifoRoundTrip<T>(r: Ring<T>, xs: seq<T>)
    requires Valid(r) && IsEmpty(r)
    requires |xs| <= |r.slots| - 1
    ensures forall i :: 0 <= i < |xs| ==> PushAll(r, xs).1[i]
    ensures forall i :: 0 <= i < |xs| ==> PopAll(PushAll(r, xs).0, |xs|).1[i] == Some(xs[i])
    ensures forall k :: 0 <= k < |xs| ==> !IsEmpty(PopAll(PushAll(r, xs).0, k).0)
    ensures IsEmpty(PopAll(PushAll(r, xs).0, |xs|).0)
  {
    EmptyIffNoItems(r);
    PushAllAppends(r, xs);
    var full := PushAll(r, xs).0;
    assert Items(full) == xs;
    PopAllTakesOldest(full, |xs|);
    EmptyIffNoItems(PopAll(full, |xs|).0);
    forall k | 0 <= k < |xs|
      ensures !IsEmpty(PopAll(full, k).0)
    {
      PopAllTakesOldest(full, k);
      EmptyIffNoItems(PopAll(full, k).0);
    }
  }

  /** Capacity boundary: an empty ring of `cap` slots accepts `cap - 1`
      pushes, and the next push is refused and leaves the ring as it was. */
  lemma CapacityBoundary<T>(r: Ring<T>, xs: seq<T>, y: T)
    requires Valid(r) && IsEmpty(r)
    requires |xs| == |r.slots| - 1
    ensures forall i :: 0 <= i < |xs| ==> PushAll(r, xs).1[i]
    ensures !PushStep(PushAll(r, xs).0, y).1
    ensures PushStep(PushAll(r, xs).0, y).0 == PushAll(r, xs).0
  {
    EmptyIffNoItems(r);
    PushAllAppends(r, xs);
    FullIffAtLimit(PushAll(r, xs).0);
  }
}
