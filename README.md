# g3log `shared_queue` in Dafny

This project models `shared_queue<T>` from g3log (`src/g3log/shared_queue.hpp`). It is a
fixed-capacity ring buffer, the hand-off queue that g3log's active object drains. The queue
has a backing array of `Capacity` slots and two cursors:

- `_head` is the next slot to pop;
- `_tail` is the next slot to push.

Both cursors advance with `increment(idx) = (idx + 1) % Capacity`. One slot is always left
unused. So `head == tail` means empty, and `increment(tail) == head` means full. A queue
of `Capacity` slots therefore holds at most `Capacity - 1` items.

The model has three files:

- `ring_spec.dfy` (module `RingSpec`) is a value model of the queue's state: the slots and
  the two cursors. It defines the logical contents (`Items`: the slots from `head` up to
  `tail`, walking with `Increment`) and the effect of one push step (`PushStep`) and one pop
  step (`PopStep`). Lemmas prove that a push appends, a pop removes the oldest item, `empty`
  is exact, and "full" means `Capacity - 1` items.
- `fifo.dfy` (module `Fifo`) runs traces of push/pop calls on the ring. It proves that the
  ring behaves call for call like a plain bounded FIFO queue of `Capacity - 1` items. It
  also proves the push-then-pop round trip and the capacity boundary.
- `shared_queue.dfy` (module `SharedQueue`) holds the queue itself as class `Queue`:
  - an `array` of slots, updated in place;
  - `head` and `tail` fields;
  - the methods `WaitAndPush`, `Push`, `TryAndPop`, `WaitAndPop` and `Empty`.

  Each method is proved against the ring model. Its `ensures` give the new cursors, the
  new array and the new logical contents. The class invariant is that the state is a
  well-formed ring, which bounds the occupancy `(tail - head) mod Capacity` by
  `Capacity - 1`.

The compile-time `Capacity` (`Size + 1 = 2^20 + 1`) becomes a constructor parameter
`cap > 0`. The algorithm depends only on arithmetic modulo the capacity. The constants
`Size` and `Capacity` are kept, and `DefaultHoldsSize` states what they give.

The cursors are atomics in the source. Here they are plain fields, and each call completes
before the next begins. That is the single-producer/single-consumer discipline under
which the algorithm is correct. A trace of calls in `Fifo` stands for one interleaving of
producer and consumer steps.

Two points where the code differs from its description:

- The code has no public `try_push`. Its non-blocking push is the private `wait_and_push`
  (which never waits), and the model follows the code.
- The doc comment above the class calls the queue multi-producer/multi-consumer safe. The
  code reads and writes each cursor without compare-and-swap, so it is only correct with
  one producer and one consumer. The model follows that.

## Model

| member | source | states |
|---|---|---|
| RingSpec.Increment | src/g3log/shared_queue.hpp:80-82 | the next cursor is a valid slot index below the capacity; it is `idx + 1` unless `idx` is the last slot, which wraps to 0 |
| RingSpec.Count | src/g3log/shared_queue.hpp:102-131 | occupancy `(tail - head) mod cap`: below the capacity, zero exactly when `head == tail`, and the unique distance with `(head + n) % cap == tail` |
| RingSpec.Items | src/g3log/shared_queue.hpp:62-78 | the logical contents, read from `head` to `tail`, have length equal to the occupancy and never exceed `cap - 1` items (one slot is always sacrificed) |
| RingSpec.PushStep | src/g3log/shared_queue.hpp:102-111 | the push step keeps the ring well formed; it succeeds exactly when the queue is not full; on failure the slots, head and tail are all unchanged |
| RingSpec.PopStep | src/g3log/shared_queue.hpp:123-131 | the pop step keeps the ring well formed; it yields nothing exactly when `head == tail`, and then the ring is unchanged |
| RingSpec.EmptyIffNoItems | src/g3log/shared_queue.hpp:136-139 | `head == tail` holds exactly when the logical contents are empty |
| RingSpec.FullIffAtLimit | src/g3log/shared_queue.hpp:104-110 | `increment(tail) == head` (push refused) holds exactly when the queue already holds `cap - 1` items |
| RingSpec.PushStepAppends | src/g3log/shared_queue.hpp:105-108 | a push on a non-full queue succeeds, writes the item into slot `old tail`, sets `tail := increment(old tail)`, keeps head and every other slot, and appends the item to the contents |
| RingSpec.PopStepTakesFirst | src/g3log/shared_queue.hpp:124-130 | a pop on a non-empty queue yields the item in slot `head`, which is the oldest item; it advances head by `increment`, keeps tail and the slots, and removes that item from the front of the contents |
| Fifo.RingRefinesBoundedQueue | src/g3log/shared_queue.hpp:94-131 | for every trace of push and pop calls, the ring gives the same outcomes and final contents as a bounded FIFO queue of `cap - 1` items |
| Fifo.PushAllAppends | src/g3log/shared_queue.hpp:101-111 | while there is room, every push in a run succeeds and the items are appended in push order |
| Fifo.PopAllTakesOldest | src/g3log/shared_queue.hpp:122-131 | `n` pops from a queue holding at least `n` items yield its oldest `n` items, oldest first, and leave the rest |
| Fifo.FifoRoundTrip | src/g3log/shared_queue.hpp:94-139 | items pushed into an empty queue come back in push order, and `empty()` is true again only after the last pop |
| Fifo.CapacityBoundary | src/g3log/shared_queue.hpp:102-110 | an empty queue of `cap` slots accepts `cap - 1` pushes; the next push is refused and changes nothing |
| SharedQueue.DefaultHoldsSize | src/g3log/shared_queue.hpp:65-66 | with `Capacity = Size + 1`, a full queue holds exactly `Size` items |
| SharedQueue.Queue.constructor | src/g3log/shared_queue.hpp:85 | a new queue has `head == tail == 0` and is empty |
| SharedQueue.Queue.WaitAndPush | src/g3log/shared_queue.hpp:101-111 | returns false exactly when `increment(tail) == head` (`cap - 1` items held), and then leaves array, head and tail unchanged; on success writes `slots[old tail]`, advances tail, keeps head, and appends the item to the contents |
| SharedQueue.Queue.Push | src/g3log/shared_queue.hpp:94-99 | on a queue that is not full, the retry loop ends after one successful step, with the item appended |
| SharedQueue.Queue.TryAndPop | src/g3log/shared_queue.hpp:122-131 | returns false exactly when `head == tail`, leaving the queue and the caller's variable unchanged; otherwise outputs `slots[head]` (the oldest item), advances head, keeps tail and the array, and drops the first item of the contents |
| SharedQueue.Queue.WaitAndPop | src/g3log/shared_queue.hpp:114-119 | on a queue that is not empty, the retry loop ends after one successful step, with the oldest item out and removed |
| SharedQueue.Queue.Empty | src/g3log/shared_queue.hpp:135-139 | `empty()` is true exactly when the queue holds no item |
| SharedQueue.PushThreePopThree | src/g3log/shared_queue.hpp:94-139 | pushing `a, b, c` into a fresh queue and popping three times yields `a, b, c`; `empty()` is false before the third pop and true after it |

## Left out

- `src/g3log/active.hpp` is not part of this model. It is thread lifecycle: starting and
  joining the worker thread, a worker loop that runs arbitrary callbacks, the `done_` flag
  set from a callback, and CPU affinity with its error report. None of these has a
  sequential meaning that can be stated without inventing semantics for opaque callbacks.
- Atomicity of `_head` and `_tail` and the relaxed/acquire/release memory orderings are
  concurrency guarantees. The cursors are plain fields here and calls do not overlap.
- The multi-producer/multi-consumer claim in the class comment is not modelled. The
  algorithm is correct only for one producer and one consumer.
- SharedQueue.Queue.Push: only specified on a queue that is not full. On a full queue the
  source spins and yields until a consumer runs, which never ends with one thread.
- SharedQueue.Queue.WaitAndPop: only specified on a queue that is not empty, for the same
  reason.
- Cache-line padding and `alignas` layout are left out; they affect performance only.
- The commented-out draft class at the top of the header (with `try_push`, `pop` and
  `size`) is not compiled code and is not modelled.
- `size_t` wrap-around in `increment` is not modelled. Its argument is always a cursor
  below `Capacity`, so `idx + 1` never overflows.
- The capacity is a constructor parameter rather than the fixed constant `2^20 + 1`. Slots
  are default-initialised, as `T _array[Capacity]` is.
