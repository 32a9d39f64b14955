# RingBuffer — a verified model

This project models `RingBuffer<T, capacity_>` from `RingBuffer/RingBuffer.hpp`. It is the
fixed-capacity, single-producer / single-consumer circular FIFO queue of a trading system.

The buffer holds `capacity_` slots and two free-running `size_t` cursors:

- `write_index` counts the accepted writes.
- `read_index` counts the completed reads.

Both cursors wrap at 2^64. Their unsigned difference is the number of stored items. A cursor's slot
is the cursor masked with `capacity_ - 1`. A compile-time assertion asks that the capacity satisfy
`capacity_ & (capacity_ - 1) == 0`.

The model has three modules:

- `Word64` (`word64.dfy`) covers `size_t` arithmetic:
  - the wrapping increment `Inc` and the wrapping difference `Diff`;
  - the bitwise AND `BitAnd`, defined one bit at a time on naturals;
  - the power-of-two facts behind the mask, proved from scratch.
- `Fifo` (`fifo.dfy`) is the queue discipline on abstract contents (the stored items, oldest
  first):
  - `Step` is one call of `write` or `read`;
  - `Run` strings calls together;
  - lemmas about `Run` state no loss, no duplication, FIFO order and the full/empty boundaries.
- `Ring` (`ring_buffer.dfy`) holds the class `RingBuffer<T>`:
  - the fields: the capacity, the two cursors, and an array of slots;
  - the ghost sequence `Contents` of stored items;
  - the object invariant `Valid`, which ties the slots to `Contents`: walking from the read cursor,
    the first `|Contents|` slots hold the items in order and the rest are vacant;
  - `Write` and `Read`, each proved to perform exactly `Fifo.Step` on `Contents` and to touch only
    the slot its cursor masks to.

The capacity is a constructor argument rather than a template parameter. The constructor's
`requires` is the compile-time assertion.

### Capacity zero

A capacity of zero passes the assertion at `RingBuffer/RingBuffer.hpp:6`. There
`capacity_ - 1` wraps to the largest `size_t`, and `0 & SIZE_MAX` is `0`. The assertion's message
says "power of two", and zero is not one. The model follows the code: it accepts zero, and
`CapacityAssertionMeaning` states exactly which capacities pass. `ZeroCapacityRefusesAll` proves
that a zero-capacity buffer is both full and empty, so every `write` and every `read` is refused.
The mask is therefore never applied to an empty array. One caveat: with a zero capacity the member
`T* buffer[capacity_]` (`RingBuffer/RingBuffer.hpp:54`) is an array of size zero, which ISO C++
forbids and GCC and Clang accept only as an extension. The model's zero-length array is what such
a compiler would give.

## Model

| member | source | states |
|---|---|---|
| Word64.BitAnd | RingBuffer/RingBuffer.hpp:39 | the `&` of two words is at most each operand |
| Word64.LowMaskIsMod | RingBuffer/RingBuffer.hpp:38-40 | for a power of two `c`, `v & (c - 1)` equals `v % c` for every `v` |
| Word64.ClearLowestBit | RingBuffer/RingBuffer.hpp:6-7 | for `c > 0`, `c & (c - 1) == 0` holds exactly when `c` is a power of two (both directions) |
| Word64.PowerOfTwoDivides | RingBuffer/RingBuffer.hpp:38-40 | a power of two divides every larger power of two, so a valid capacity divides 2^64 |
| Word64.WordIsPowerOfTwo | RingBuffer/RingBuffer.hpp:52-53 | 2^64, the period of the `size_t` cursors, is a power of two |
| Word64.WrapKeepsSlot | RingBuffer/RingBuffer.hpp:38-40 | a cursor wrapped at 2^64 and then masked lands in the same slot as the unbounded count of calls |
| Word64.SlotsDistinct | RingBuffer/RingBuffer.hpp:38-40 | fewer than `capacity` consecutive cursor values land in pairwise distinct slots |
| Word64.DiffZeroIffEqual | RingBuffer/RingBuffer.hpp:47-50 | the unsigned difference of the cursors is zero exactly when they are equal |
| Word64.Inc | RingBuffer/RingBuffer.hpp:21 | the post-increment `++` of a `size_t` cursor: `x + 1` modulo 2^64, so the largest value wraps to 0; its unsigned distance from `x` is always exactly one |
| Word64.Diff | RingBuffer/RingBuffer.hpp:44 | the unsigned `write_index - read_index`: `a - b` modulo 2^64, never negative; `a == b + (a - b)` on `size_t`, whatever the wrap-around |
| Word64.DiffAfterIncLeft | RingBuffer/RingBuffer.hpp:21 | the post-increment of the write cursor grows the unsigned difference by exactly one |
| Word64.DiffAfterIncRight | RingBuffer/RingBuffer.hpp:31 | the post-increment of the read cursor shrinks a positive difference by exactly one |
| Ring.CapacityAssertion | RingBuffer/RingBuffer.hpp:6-7 | the `static_assert` condition `capacity & Diff(capacity, 1) == 0`, where the `size_t` `capacity_ - 1` wraps to the largest word at 0 |
| Ring.CapacityAssertionMeaning | RingBuffer/RingBuffer.hpp:6-7 | the capacity assertion accepts exactly zero and the powers of two |
| Ring.CapacityAssertionAccepts | RingBuffer/RingBuffer.hpp:6-7 | capacities 0, 1, 2, 4 and 1024 pass the assertion |
| Ring.CapacityAssertionRejects | RingBuffer/RingBuffer.hpp:6-7 | capacities 3 and 5 fail the assertion |
| Ring.MaskIsMod | RingBuffer/RingBuffer.hpp:38-40 | with a positive power-of-two capacity, `val & (capacity_ - 1)` is `val % capacity_` |
| Ring.WriteCursorSlot | RingBuffer/RingBuffer.hpp:21 | the write cursor's slot is the one `write_index - read_index` places after the read cursor's, across wrap-around |
| Ring.LayoutAfterWrite | RingBuffer/RingBuffer.hpp:21 | storing into the first vacant slot after the stored items appends the item to the contents and keeps the slot layout |
| Ring.LayoutAfterRead | RingBuffer/RingBuffer.hpp:31-32 | the read cursor's slot holds the oldest item; vacating it and advancing the cursor drops exactly that item from the front |
| Ring.RingBuffer.Valid | RingBuffer/RingBuffer.hpp:42-54 | the object invariant: a capacity that passed the assertion, `capacity_` slots, `0 <= write_index - read_index <= capacity_` as the number of stored items, and walking the slots from `mask(read_index)` the first `write_index - read_index` hold the stored items oldest first while the rest are vacant |
| Ring.RingBuffer.Mask | RingBuffer/RingBuffer.hpp:38-40 | `mask(val)` is a slot index: `val % capacity_` whenever the capacity is a positive power of two |
| Ring.RingBuffer.Full | RingBuffer/RingBuffer.hpp:42-45 | under the invariant, `full()` holds exactly when `capacity_` items are stored |
| Ring.RingBuffer.Empty | RingBuffer/RingBuffer.hpp:47-50 | under the invariant, `empty()` holds exactly when no item is stored |
| Ring.RingBuffer.constructor | RingBuffer/RingBuffer.hpp:11-14 | both cursors start at 0; the buffer is empty, establishes the invariant, and is not full unless the capacity is 0 |
| Ring.RingBuffer.Write | RingBuffer/RingBuffer.hpp:16-24 | refused exactly on a full buffer, with nothing changed; otherwise appends `item` to the contents (as `Fifo.Step`), stores it in slot `mask(write_index)`, advances `write_index` by one with wrap-around, leaves the other slots alone and keeps the invariant |
| Ring.RingBuffer.Read | RingBuffer/RingBuffer.hpp:26-35 | refused exactly on an empty buffer, with nothing changed; otherwise the slot `mask(read_index)` held the oldest item, which is destroyed and dropped from the front of the contents (as `Fifo.Step`); `read_index` advances by one with wrap-around, the other slots are untouched and the invariant is kept |
| Ring.RingBuffer.ZeroCapacityRefusesAll | RingBuffer/RingBuffer.hpp:42-50 | with capacity 0 the buffer is at once full and empty, so every write and read is refused |
| Ring.RingBuffer.FullAndEmptyExclusive | RingBuffer/RingBuffer.hpp:42-50 | with a positive capacity the buffer is never both full and empty |
| Ring.RingBuffer.WriteCursorFollowsReadCursor | RingBuffer/RingBuffer.hpp:52-53 | `write_index` is `read_index` plus the number of stored items, modulo 2^64 |
| Fifo.Step | RingBuffer/RingBuffer.hpp:16-35 | one call on the stored items: `write` returns false and changes nothing when `capacity` items are stored, otherwise appends its item and returns true; `read` returns false on no items, otherwise drops the oldest and returns true |
| Fifo.StepKeepsBound | RingBuffer/RingBuffer.hpp:16-35 | one call keeps the item count within `[0, capacity]`; a write succeeds exactly when not full, and a read exactly when not empty |
| Fifo.RunConserves | RingBuffer/RingBuffer.hpp:16-35 | over any sequence of calls, the items read followed by the items left equal the items stored before followed by the items accepted (no loss, no duplication), and the bound holds |
| Fifo.ReadsFollowWriteOrder | RingBuffer/RingBuffer.hpp:16-35 | over any sequence of calls, the items read are a prefix of the earlier contents followed by the accepted writes: FIFO order |
| Fifo.WritesThatFit | RingBuffer/RingBuffer.hpp:16-24 | writes that fit in the free space are all accepted, in order, and appended |
| Fifo.FillThenRefuse | RingBuffer/RingBuffer.hpp:16-24 | from empty, `capacity` writes succeed and the next write is refused, leaving exactly the written items |
| Fifo.DrainDelivers | RingBuffer/RingBuffer.hpp:26-35 | reading until a read is refused delivers exactly the stored items, oldest first, and leaves the buffer empty |

## Left out

- Concurrency. The cursors are `std::atomic<size_t>` and are aligned to separate cache lines
  (`RingBuffer/RingBuffer.hpp:52-53`). The model is sequential: one call at a time, with no memory
  ordering, no interleaving of producer and consumer, and no claim of wait-freedom. In particular the
  model cannot see the order in which the other thread observes the effects: `write` advances
  `write_index` before it stores the item (`buffer[mask(write_index++)] = item`,
  `RingBuffer/RingBuffer.hpp:21`), and `read` advances `read_index` before `std::destroy_at`
  (`RingBuffer/RingBuffer.hpp:31-32`). A consumer may therefore see the new cursor before the item
  is in its slot, and a producer may reuse a slot before the read has finished with it. That is the
  reverse of the store-then-publish ordering a single-producer / single-consumer queue needs. In the
  sequential model each call completes before the next begins, so this does not show.
- The `std::is_trivially_copyable_v<T>` assertion (`RingBuffer/RingBuffer.hpp:8-9`). This is a
  property of C++ types that has no counterpart here, so `T` is any type.
- Object lifetime. `read` reaches the slot through `reinterpret_cast` and ends the object's
  lifetime with `std::destroy_at`. The model only marks the slot vacant (`None`); it does not model
  destructors or storage reuse.
- The slot type. The array is declared `T* buffer[capacity_]` (`RingBuffer/RingBuffer.hpp:54`),
  but `write` stores a `T` into it. The model's slots hold a `T`, which is what both methods use.
- Ring.RingBuffer.Read: as in the source, its `item` parameter is unused and no value is handed
  back; the caller only learns whether a read happened.
- `RingBuffer/main.cpp` is a benchmark of an atomic compare-exchange and does not use the queue.
  It is not part of this model.
- The source has no destructor and no consume-with-callback operation, so draining on destruction
  and visitor-style reads are not modelled.
