# Producer/consumer circular buffer

A model of the bounded queue in `producer_consumer.cpp`: a `struct queue`
with ten `int` slots (`buf`), a read index `head`, a write index `tail` and a
redundant pair of flags `full` and `empty`. `add` writes at `tail` and
advances it with wrap-around; `del` reads at `head` and advances it with
wrap-around; each sets the flags by comparing the two indices. One producer
thread pushes its loop counter `0..19` twice; one consumer thread pops forty
times. Each thread waits on a condition variable while the queue is full
(producer) or empty (consumer).

- `fifo.dfy`, module `Fifo`: the queue as a class `Queue` over an
  `array<int>` of length `QueueSize` (10), with the four scalar fields and a
  ghost `contents: seq<int>`, the items stored, oldest first. `Valid()` ties
  the fields to `contents` through two pure definitions. `Consistent` is the
  representation invariant over `head`, `tail`, `full`, `empty` and the item
  count. `Window` reads the stored items out of the slots in ring order.
  `Add` and `Del` follow the source statement by statement. Their contracts
  state the new value of every field they write, what did not change (their
  `modifies` frames name single fields), and the refinement: `Add(x)` appends
  `x` to `contents`, and `Del()` returns `contents[0]` and removes it.
- `driver.dfy`, module `Driver`: the two threads' loops run sequentially,
  interleaved by a schedule of `Produce`/`Consume` steps. A step runs only
  when the thread's wait-loop guard lets it through. Otherwise it is
  skipped, as a blocked thread would be. `Counts` is an independent
  reference that follows a schedule on the two iteration counts alone.
  `RunSchedule` is proved to reach exactly those counts. The consumer's
  received values are always a prefix of the producer's output.

The representation invariant is stronger than "the flags are never both set,
either flag means `head == tail`, and the count is in `0..10`". Those three
facts still admit `head == tail` with neither flag set, which no sequence of
whole, guarded `add` and `del` calls reaches.
`Consistent` also demands that `empty` holds exactly when the count is zero
and that `full` implies equal indices. `ConsistentFlags` derives the three
facts from it. `ConsistentIff` shows that `head` and the count determine the
rest of the state.

The flags are modelled exactly as written. `add` sets `full` only when the
indices meet and otherwise leaves it as it was. `del` does the same with
`empty`. Under the callers' guards the old value is always `false`.

## Model

| member | source | states |
|---|---|---|
| Fifo.Next | producer_consumer.cpp:28-29 | the source's increment-then-reset-to-0 stays in `[0, 10)` and equals the successor modulo `queuesize` |
| Fifo.StoredCount | producer_consumer.cpp:16-20 | the count the indices and `full` encode is at most 10, is 10 exactly when `full`, and is 0 when the indices meet without `full` |
| Fifo.ConsistentFlags | producer_consumer.cpp:19-20 | under the invariant, `full` and `empty` are never both set, either flag implies `head == tail`, `full` holds exactly at capacity, and the count is at most 10 |
| Fifo.ConsistentIff | producer_consumer.cpp:17-20 | a state is consistent with `n` items iff both indices are in range, `n <= 10`, `tail == (head + n) mod 10`, `full` iff `n == 10` and `empty` iff `n == 0` |
| Fifo.AddKeepsConsistent | producer_consumer.cpp:28-31 | `add`'s index and flag updates, applied to a consistent non-full state, give a consistent state with one more item |
| Fifo.DelKeepsConsistent | producer_consumer.cpp:35-38 | `del`'s index and flag updates, applied to a consistent non-empty state, give a consistent state with one item fewer |
| Fifo.WindowAppend | producer_consumer.cpp:28-29 | writing into the slot just past a window of `n < 10` items appends that item to the window and keeps the others |
| Fifo.WindowAt | producer_consumer.cpp:28-29 | the `i`-th stored item lies in slot `(head + i) mod 10`, so the ring walk that defines the contents agrees with modular indexing |
| Fifo.Queue.constructor | producer_consumer.cpp:16-24 | the initial state (`head = tail = 0`, `empty`, not `full`, slots zeroed) is valid and represents the empty queue |
| Fifo.Queue.Add | producer_consumer.cpp:26-32 | given `!full`, stores `x` at the old `tail`, advances `tail` by one modulo 10, leaves `head` and the other slots alone, clears `empty`, sets `full` exactly when `tail == head`, and appends `x` to `contents` |
| Fifo.Queue.Del | producer_consumer.cpp:33-40 | given `!empty`, returns the slot at the old `head`, which is `contents[0]`; advances `head` by one modulo 10; leaves `tail` and the buffer alone; clears `full`; sets `empty` exactly when `head == tail`; drops `contents[0]` |
| Driver.ProducerOutputAt | producer_consumer.cpp:49-59 | the `k`-th value the producer pushes is `k mod 20` |
| Driver.RunCounter | producer_consumer.cpp:49-59 | the loop counter at the producer's `k`-th push overall lies in `0..19` and is the `k`-th value of the producer's output |
| Driver.RunStep | producer_consumer.cpp:49-72 | one iteration of either thread's `for` loop: it runs when the thread has iterations left and its wait-loop flag is clear, and is skipped otherwise; the queue stays valid, received-plus-queued stays equal to the first `pushed` items sent, and the counts move exactly as `Advance` says |
| Driver.SendNext | producer_consumer.cpp:49-55 | pushing the loop counter extends the items sent by the producer's next output value |
| Driver.GuardsAgree | producer_consumer.cpp:51-67 | with `p - c` items in flight in a consistent queue, the producer's guard `!full` holds iff fewer than 10 are in flight, the consumer's guard `!empty` holds iff at least one is, and never more than 10 are |
| Driver.CountsSnoc | producer_consumer.cpp:49-72 | appending a step to a schedule advances its counts by that one step |
| Driver.CountsBounds | producer_consumer.cpp:49-67 | in every count a schedule reaches, the consumer is behind the producer, at most 10 behind, and neither thread is past its 40 iterations |
| Driver.CountsProgress | producer_consumer.cpp:51-69 | no reachable count is stuck: unless both threads have done all 40 iterations, a producer step or a consumer step changes it, so the wait loops never block both threads at once |
| Driver.AlternatingCounts | producer_consumer.cpp:49-72 | strict alternation of producer and consumer steps never blocks: after `n <= 40` rounds each thread has done `n` iterations |
| Driver.RunSchedule | producer_consumer.cpp:45-77 | under any interleaving of whole, guarded producer and consumer steps, the number of items pushed and popped is exactly what `Counts` gives for the schedule, so a step is skipped only when its thread is blocked or finished; the consumer receives a prefix of the producer's output in order; at most 40 items are pushed and at most 10 are in flight; after 40 pops the consumer has received the producer's whole output |
| Driver.ReceivedPrefix | producer_consumer.cpp:71-73 | when received-plus-queued is the first `pushed` items sent, what was received is a prefix of the producer's output, and the whole output once 40 items are received |

## Left out

- Locking and signalling: the mutex, the two condition variables, `lock_guard`, `wait` and `signal` (producer_consumer.cpp:21-23, 50-54, 56, 66-70, 72). The model runs the two threads' steps one at a time, so it makes no claim that the program is free of races. In fact the source calls `add` and `del` after the `lock_guard` scope has closed (producer_consumer.cpp:54-55, 70-71). Both then write `full` and `empty` without holding the lock.
- Fifo.Queue.Add, Fifo.Queue.Del: they require `!full` and `!empty`. Those are the guards the callers' wait loops establish (producer_consumer.cpp:51, 67). The source itself does not check them. What `add` does on a full queue (overwriting the oldest item) is not modelled.
- Driver.RunSchedule: treats a blocked thread as skipping its turn. It does not model waiting, spurious wake-ups or wall-clock order.
- Driver.RunSchedule: its in-order prefix result holds only when each `add` and `del` runs whole, without the other thread in between. In the source the calls run outside the lock, so they can interleave statement by statement, and that breaks `Consistent`. For example, start with `head = 0`, `tail = 1` and one item. The producer runs lines 28-30 of `add` (`tail = 2`) and is preempted before line 31. The consumer runs `del` twice, leaving `head = 2` with `empty` set. The producer then clears `empty` at line 31. Now `head == tail` with neither flag set and nothing stored, and the consumer's next `del` returns a stale slot. Statement-level interleaving is not modelled.
- `sleep_for` delays, `printf` diagnostics, and thread creation and joining (producer_consumer.cpp:45, 52, 57, 61, 68, 73-74, 78-79): these are timing, console output and runtime plumbing.
- pthreads.hpp: the wrappers over pthread threads, mutexes and condition variables, `throw_if` error forwarding, and the unused `to_timespec` and timed wait. These are foreign calls whose purpose is concurrency.
- The `move` in `del` (producer_consumer.cpp:39) leaves an `int` slot unchanged, so `Del` reads the slot without altering it.
