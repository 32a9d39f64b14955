/**
  The fixed-capacity circular FIFO queue `RingBuffer<T, capacity_>`.

  The buffer keeps two free-running `size_t` cursors: `writeIndex` counts every
  accepted write and `readIndex` every completed read, both wrapping at 2^64.
  Their unsigned difference is the number of stored items, and a cursor's slot
  is the cursor masked with `capacity - 1`. A slot holds `Some(x)` while it
  stores a live item and `None` once a read has destroyed it (or before any
  write reached it).
 */
module Ring {
  import opened Word64
  import Fifo

  datatype Option<T> = None | Some(value: T)

  /**
    The compile-time check on the capacity: `capacity & (capacity - 1)` is zero,
    where `capacity - 1` is computed on `size_t` and so wraps for a zero capacity.
   */
  predicate CapacityAssertion(capacity: SizeT)
  {
    BitAnd(capacity, Diff(capacity, 1)) == 0
  }

  /** The check admits exactly the powers of two, and also zero. */
  lemma CapacityAssertionMeaning(capacity: SizeT)
    ensures CapacityAssertion(capacity) <==> capacity == 0 || IsPowerOfTwo(capacity)
  {
    if capacity > 0 {
      assert Diff(capacity, 1) == capacity - 1;
      ClearLowestBit(capacity);
    }
  }

  /** Capacities 1, 2, 4 and 1024 pass the check, and so does 0. */
  lemma CapacityAssertionAccepts()
    ensures CapacityAssertion(0) && CapacityAssertion(1) && CapacityAssertion(2)
    ensures CapacityAssertion(4) && CapacityAssertion(1024)
  {
    CapacityAssertionMeaning(0);
    CapacityAssertionMeaning(1);
    CapacityAssertionMeaning(2);
    CapacityAssertionMeaning(4);
    Pow2IsPowerOfTwo(10);
    assert Pow2(10) == 1024;
    CapacityAssertionMeaning(1024);
  }

  /** Capacities 3 and 5 fail the check. */
  lemma CapacityAssertionRejects()
    ensures !CapacityAssertion(3) && !CapacityAssertion(5)
  {
    CapacityAssertionMeaning(3);
    CapacityAssertionMeaning(5);
  }

  /** For a positive power-of-two capacity, masking with `capacity - 1` is reduction modulo the capacity. */
  lemma MaskIsMod(v: SizeT, capacity: SizeT)
    ensures capacity > 0 && IsPowerOfTwo(capacity) ==> BitAnd(v, Diff(capacity, 1)) == v % capacity
  {
    if capacity > 0 && IsPowerOfTwo(capacity) {
      assert Diff(capacity, 1) == capacity - 1;
      LowMaskIsMod(v, capacity);
    }
  }

  /** The slot of the item `i` places after the cursor `start`. */
  function Slot(start: int, i: int, capacity: nat): nat
    requires capacity > 0
  {
    (start + i) % capacity
  }

  /**
    How the stored items lie in the slots: walking the slots from the read
    cursor `start`, the first `|contents|` hold the items in order and the
    remaining ones are vacant.
   */
  ghost predicate Layout<T>(slots: seq<Option<T>>, start: int, contents: seq<T>)
  {
    && |contents| <= |slots|
    && forall i :: 0 <= i < |slots| ==>
         slots[Slot(start, i, |slots|)] == if i < |contents| then Some(contents[i]) else None
  }

  /** The write cursor's slot is the one `|contents|` places after the read cursor's, across wrap-around. */
  lemma WriteCursorSlot(w: SizeT, r: SizeT, c: nat)
    requires IsPowerOfTwo(c) && c <= WORD
    ensures w % c == Slot(r, Diff(w, r), c)
  {
    WrapKeepsSlot(r + Diff(w, r), 0, c);
  }

  /** Storing an item in the first vacant slot after the stored ones appends it to the contents. */
  lemma LayoutAfterWrite<T>(slots: seq<Option<T>>, start: int, contents: seq<T>, item: T)
    requires Layout(slots, start, contents) && |contents| < |slots|
    ensures Layout(slots[Slot(start, |contents|, |slots|) := Some(item)], start, contents + [item])
  {
    var n, c := |contents|, |slots|;
    var slots' := slots[Slot(start, n, c) := Some(item)];
    forall i | 0 <= i < c
      ensures slots'[Slot(start, i, c)] == if i < n + 1 then Some((contents + [item])[i]) else None
    {
      if i != n {
        SlotsDistinct(start, i, n, c);
      }
    }
  }

  /**
    The slot of the read cursor holds the oldest item; vacating it and moving
    the cursor to any `next` in the following slot drops that item from the
    front of the contents.
   */
  lemma LayoutAfterRead<T>(slots: seq<Option<T>>, start: int, next: int, contents: seq<T>)
    requires Layout(slots, start, contents) && |contents| > 0
    requires next % |slots| == (start + 1) % |slots|
    ensures slots[Slot(start, 0, |slots|)] == Some(contents[0])
    ensures Layout(slots[Slot(start, 0, |slots|) := None], next, contents[1..])
  {
    var c, rest := |slots|, contents[1..];
    var slots' := slots[Slot(start, 0, c) := None];
    forall i | 0 <= i < c
      ensures slots'[Slot(next, i, c)] == if i < |rest| then Some(rest[i]) else None
    {
      var k := Slot(start, i + 1, c);
      assert Slot(next, i, c) == k by { ModAddCongruent(next, start + 1, i, c); }
      if i + 1 < c {
        SlotsDistinct(start, i + 1, 0, c);
        assert slots'[k] == slots[k];
      } else {
        ModShift(start, c, 1);
        assert k == Slot(start, 0, c);
      }
    }
  }

  class RingBuffer<T> {
    const capacity: SizeT
    var writeIndex: SizeT
    var readIndex: SizeT
    const buffer: array<Option<T>>

    /** The stored items, oldest first. */
    ghost var Contents: seq<T>

    /**
      The object invariant: the number of stored items is the unsigned cursor
      difference and never exceeds the capacity; walking the slots from the read
      cursor, the first `|Contents|` hold the stored items in order and the
      others are vacant.
     */
    ghost predicate Valid()
      reads this, buffer
    {
      && (capacity == 0 || IsPowerOfTwo(capacity))
      && buffer.Length == capacity
      && |Contents| == Diff(writeIndex, readIndex) <= capacity
      && Layout(buffer[..], readIndex, Contents)
    }

    /** The slot of cursor value `v`: `v & (capacity - 1)`. */
    function Mask(v: SizeT): (r: SizeT)
      ensures capacity > 0 && IsPowerOfTwo(capacity) ==> r == v % capacity
    {
      MaskIsMod(v, capacity);
      BitAnd(v, Diff(capacity, 1))
    }

    /** The buffer is full when the cursors are `capacity` apart. */
    predicate Full()
      reads this, buffer
      ensures Valid() ==> (Full() <==> |Contents| == capacity)
    {
      Diff(writeIndex, readIndex) == capacity
    }

    /** The buffer is empty when the cursors coincide. */
    predicate Empty()
      reads this, buffer
      ensures Valid() ==> (Empty() <==> Contents == [])
    {
      DiffZeroIffEqual(writeIndex, readIndex);
      writeIndex == readIndex
    }

    /** Both cursors start at zero: the buffer starts empty, and not full unless its capacity is zero. */
    constructor (capacity: SizeT)
      requires CapacityAssertion(capacity)
      ensures Valid() && fresh(buffer)
      ensures this.capacity == capacity && writeIndex == 0 && readIndex == 0 && Contents == []
      ensures Empty() && (capacity > 0 ==> !Full())
    {
      this.capacity := capacity;
      writeIndex, readIndex := 0, 0;
      buffer := new Option<T>[capacity](_ => None);
      Contents := [];
      CapacityAssertionMeaning(capacity);
    }

    /**
      `write`: refused on a full buffer, with nothing changed; otherwise stores
      `item` in the slot of the write cursor, advances the write cursor by one
      and touches no other slot and not the read cursor.
     */
    method Write(item: T) returns (ok: bool)
      requires Valid()
      modifies this`writeIndex, this`Contents, buffer
      ensures Valid()
      ensures ok <==> !old(Full())
      ensures ok == Fifo.Step(capacity, old(Contents), Fifo.WriteOp(item)).ok
      ensures Contents == Fifo.Step(capacity, old(Contents), Fifo.WriteOp(item)).contents
      ensures ok ==> writeIndex == Inc(old(writeIndex))
      ensures ok ==> Mask(old(writeIndex)) < capacity && buffer[Mask(old(writeIndex))] == Some(item)
      ensures ok ==> forall j :: 0 <= j < capacity && j != Mask(old(writeIndex)) ==> buffer[j] == old(buffer[j])
      ensures !ok ==> writeIndex == old(writeIndex) && buffer[..] == old(buffer[..])
    {
      if Full() {
        return false;
      }
      ghost var n := |Contents|;
      var slot := Mask(writeIndex);
      assert slot == Slot(readIndex, n, capacity) by {
        WriteCursorSlot(writeIndex, readIndex, capacity);
      }
      assert Diff(Inc(writeIndex), readIndex) == n + 1 by {
        DiffAfterIncLeft(writeIndex, readIndex);
      }
      LayoutAfterWrite(buffer[..], readIndex, Contents, item);
      buffer[slot] := Some(item);
      writeIndex := Inc(writeIndex);
      Contents := Contents + [item];
      ok := true;
    }

    /**
      `read`: refused on an empty buffer, with nothing changed; otherwise
      destroys the item in the slot of the read cursor, which is the oldest
      stored item, and advances the read cursor by one. The parameter `item` is
      accepted and not used, and the item is not handed back.
     */
    method Read(item: T) returns (ok: bool)
      requires Valid()
      modifies this`readIndex, this`Contents, buffer
      ensures Valid()
      ensures ok <==> !old(Empty())
      ensures ok == Fifo.Step(capacity, old(Contents), Fifo.ReadOp).ok
      ensures Contents == Fifo.Step(capacity, old(Contents), Fifo.ReadOp).contents
      ensures ok ==> readIndex == Inc(old(readIndex))
      ensures ok ==> && Mask(old(readIndex)) < capacity
                     && |old(Contents)| > 0
                     && old(buffer[Mask(readIndex)]) == Some(old(Contents)[0])
                     && buffer[Mask(old(readIndex))] == None
      ensures ok ==> forall j :: 0 <= j < capacity && j != Mask(old(readIndex)) ==> buffer[j] == old(buffer[j])
      ensures !ok ==> readIndex == old(readIndex) && buffer[..] == old(buffer[..])
    {
      if Empty() {
        return false;
      }
      var slot := Mask(readIndex);
      assert slot == Slot(readIndex, 0, capacity);
      assert Diff(writeIndex, Inc(readIndex)) == |Contents| - 1 by {
        DiffAfterIncRight(writeIndex, readIndex);
      }
      assert Inc(readIndex) % capacity == (readIndex + 1) % capacity by {
        WrapKeepsSlot(readIndex + 1, 0, capacity);
      }
      LayoutAfterRead(buffer[..], readIndex, Inc(readIndex), Contents);
      buffer[slot] := None;
      readIndex := Inc(readIndex);
      Contents := Contents[1..];
      ok := true;
    }

    /** With capacity zero the buffer is at once empty and full: every write and every read is refused. */
    lemma ZeroCapacityRefusesAll()
      requires Valid() && capacity == 0
      ensures Full() && Empty()
    {
    }

    /** With a positive capacity, the buffer is never both full and empty. */
    lemma FullAndEmptyExclusive()
      requires Valid() && capacity > 0
      ensures !(Full() && Empty())
    {
    }

    /** The write cursor is the read cursor advanced by the number of stored items, modulo 2^64. */
    lemma WriteCursorFollowsReadCursor()
      requires Valid()
      ensures writeIndex == (readIndex + |Contents|) % WORD
    {
    }
  }
}
