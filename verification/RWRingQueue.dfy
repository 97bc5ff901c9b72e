/** The ring queue: a growing or overwriting ring of slots that refines a first-in first-out sequence.
    Every method is one section of the queue's lock. */
module RWRingQueue {
  import opened MathBits
  import opened Wrappers
  import B = BlockMemPool

  /** A slot; the source keeps a flag and raw storage. */
  datatype Slot<+T> = Vacant | Occupied(value: T)

  lemma PlaceNext(head: nat, i: nat, n: nat)
    requires head < n && i < n
    ensures (Place(head, i, n) + 1) % n == Place(head, i + 1, n)
    ensures Place(Place(head, 1, n), i, n) == Place(head, i + 1, n)
  {
    PlaceIsRemainder(Place(head, i, n), 1, n);
  }

  lemma TailKept(head: nat, count: nat, n: nat)
    requires head < n && 0 < count <= n
    ensures 0 <= (head + 1) % n < n && Place((head + 1) % n, count - 1, n) == Place(head, count, n)
  {
    PlaceNext(head, count - 1, n);
    PlaceIsRemainder(head, 1, n);
  }

  /** The slots from `head` on hold the items in order. */
  ghost predicate Ring<T>(slots: seq<Slot<T>>, head: nat, items: seq<T>) {
    head < |slots| && |items| <= |slots| && forall i: nat :: i < |items| ==> slots[Place(head, i, |slots|)] == Occupied(items[i])
  }

  /** Among the first `made` slots, those that have been initialised, only slots of the ring hold a value. */
  ghost predicate Clean<T>(slots: seq<Slot<T>>, head: nat, count: nat, made: nat)
    requires head < |slots|
  {
    forall p: nat :: p < made && p < |slots| && Offset(head, p, |slots|) >= count ==> slots[p] == Vacant
  }

  lemma RingPushed<T>(slots: seq<Slot<T>>, head: nat, items: seq<T>, made: nat, value: T)
    requires Ring(slots, head, items) && Clean(slots, head, |items|, made) && |items| < |slots|
    ensures var slots' := slots[Place(head, |items|, |slots|) := Occupied(value)];
      Ring(slots', head, items + [value]) && Clean(slots', head, |items| + 1, made)
  {
  }

  lemma RingPopped<T>(slots: seq<Slot<T>>, head: nat, items: seq<T>, made: nat)
    requires Ring(slots, head, items) && Clean(slots, head, |items|, made) && items != []
    ensures var slots', head' := slots[head := Vacant], (head + 1) % |slots|;
      slots[head] == Occupied(items[0]) && Ring(slots', head', items[1..]) && Clean(slots', head', |items| - 1, made)
  {
    var n := |slots|;
    PlaceIsRemainder(head, 1, n);
    assert Place(head, 0, n) == head;
    forall i: nat | i < |items| - 1
      ensures slots[head := Vacant][Place((head + 1) % n, i, n)] == Occupied(items[1..][i])
    {
      PlaceNext(head, i, n);
    }
    forall p: nat | p < n
      ensures p == head || Offset(head, p, n) == Offset((head + 1) % n, p, n) + 1
    {
    }
  }

  /** Overwriting a full ring at its tail, which is also its head, drops exactly the oldest item. */
  lemma RingOverwritten<T>(slots: seq<Slot<T>>, head: nat, items: seq<T>, made: nat, value: T)
    requires Ring(slots, head, items) && |items| == |slots|
    ensures var slots', head' := slots[head := Occupied(value)], (head + 1) % |slots|;
      Ring(slots', head', items[1..] + [value]) && Clean(slots', head', |items|, made)
    ensures Place((head + 1) % |slots|, |slots|, |slots|) == (head + 1) % |slots|
  {
    var n := |slots|;
    RingPopped(slots, head, items, made);
    RingPushed(slots[head := Vacant], (head + 1) % n, items[1..], made, value);
    PlaceNext(head, n - 1, n);
    PlaceIsRemainder(head, 1, n);
    assert slots[head := Vacant][head := Occupied(value)] == slots[head := Occupied(value)];
  }

  /** The items from `i` on are still in their slots, and no other initialised slot holds a value. */
  ghost predicate Remaining<T>(slots: seq<Slot<T>>, head: nat, items: seq<T>, i: nat, made: nat)
    requires head < |slots| && |items| <= |slots|
  {
    && (forall j: nat :: i <= j < |items| ==> slots[Place(head, j, |slots|)] == Occupied(items[j]))
    && (forall p: nat :: p < made && p < |slots| && !(i <= Offset(head, p, |slots|) < |items|) ==> slots[p] == Vacant)
  }

  lemma NothingMoved<T>(slots: seq<Slot<T>>, made: nat)
    requires slots != [] && forall p: nat :: p < made && p < |slots| ==> slots[p] == Vacant
    ensures Ring(slots, 0, []) && Clean(slots, 0, 0, made)
  {
  }

  lemma AllRemain<T>(slots: seq<Slot<T>>, head: nat, items: seq<T>, made: nat)
    requires Ring(slots, head, items) && Clean(slots, head, |items|, made)
    ensures Remaining(slots, head, items, 0, made)
  {
  }

  lemma OneMoved<T>(slots: seq<Slot<T>>, head: nat, items: seq<T>, i: nat, made: nat)
    requires head < |slots| && i < |items| <= |slots| && Remaining(slots, head, items, i, made)
    ensures slots[Place(head, i, |slots|)] == Occupied(items[i])
    ensures Remaining(slots[Place(head, i, |slots|) := Vacant], head, items, i + 1, made)
  {
  }

  lemma NoneRemain<T>(slots: seq<Slot<T>>, head: nat, items: seq<T>, made: nat)
    requires head < |slots| && |items| <= |slots| && Remaining(slots, head, items, |items|, made)
    ensures forall p: nat :: p < made && p < |slots| ==> slots[p] == Vacant
  {
  }

  /** The slots that hold items. */
  ghost function RingSlots(head: nat, count: nat, n: nat): set<nat>
    requires head < n
  {
    set p: nat | p < n && Offset(head, p, n) < count
  }

  lemma DestroyedSlots<T>(slots: seq<Slot<T>>, head: nat, items: seq<T>, destroyed: set<nat>)
    requires Ring(slots, head, items) && forall p: nat :: p in destroyed <==> p < |slots| && slots[p].Occupied?
    ensures destroyed == RingSlots(head, |items|, |slots|) <==> Clean(slots, head, |items|, |slots|)
  {
    var n := |slots|;
    forall p: nat | p < n && Offset(head, p, n) < |items|
      ensures slots[p].Occupied?
    {
      assert Place(head, Offset(head, p, n), n) == p;
    }
    if destroyed == RingSlots(head, |items|, n) {
      forall p: nat | p < n && Offset(head, p, n) >= |items|
        ensures slots[p] == Vacant
      {
        assert p !in RingSlots(head, |items|, n);
      }
    }
  }

  /** The slots whose flag is set. */
  ghost function Flagged<T>(slots: seq<Slot<T>>): set<nat> {
    set p: nat | p < |slots| && slots[p].Occupied?
  }

  /** The same block but for what is left over in slots that were never set up and hold no item. */
  ghost predicate SameButLeftovers<T>(slots: seq<Slot<T>>, slots': seq<Slot<T>>, head: nat, count: nat, made: nat)
    requires head < |slots|
  {
    |slots'| == |slots| && forall p: nat :: p < |slots| && (p < made || Offset(head, p, |slots|) < count) ==> slots'[p] == slots[p]
  }

  /** Every slot has been set up or holds an item. */
  ghost predicate NoLeftovers(head: nat, count: nat, made: nat, n: nat)
    requires head < n
  {
    forall p: nat :: made <= p < n ==> Offset(head, p, n) < count
  }

  /** Exactly the items have their flags set, whatever is left over in the block, if and only if every slot has been set
      up or holds an item. */
  lemma LeftoversMatter<T>(slots: seq<Slot<T>>, head: nat, items: seq<T>, made: nat, garbage: T)
    requires Ring(slots, head, items) && Clean(slots, head, |items|, made)
    ensures (forall slots' :: SameButLeftovers(slots, slots', head, |items|, made) ==> Flagged(slots') == RingSlots(head, |items|, |slots|))
       <==> NoLeftovers(head, |items|, made, |slots|)
  {
    var n := |slots|;
    if NoLeftovers(head, |items|, made, n) {
      forall slots' | SameButLeftovers(slots, slots', head, |items|, made)
        ensures Flagged(slots') == RingSlots(head, |items|, n)
      {
        assert slots' == slots;
        DestroyedSlots(slots, head, items, Flagged(slots));
      }
    } else {
      var p: nat :| made <= p < n && Offset(head, p, n) >= |items|;
      var slots' := slots[p := Occupied(garbage)];
      assert SameButLeftovers(slots, slots', head, |items|, made);
      assert p in Flagged(slots') && p !in RingSlots(head, |items|, n);
    }
  }

  /** For an empty queue: if and only if the block holds no more slots than were asked for. */
  lemma EmptyQueueLeftovers(head: nat, made: nat, n: nat)
    requires head < n
    ensures NoLeftovers(head, 0, made, n) <==> made >= n
  {
    if made < n { assert Offset(head, made, n) >= 0; }
  }

  lemma FromStart(i: nat, n: nat)
    requires i < n
    ensures Place(0, i, n) == i
  {
  }

  // ----- Capacities -----

  /** Doubling until `count` is reached. */
  ghost function Doubled(capacity: nat, count: nat): (r: nat)
    requires capacity > 0
    ensures r >= count && r >= capacity && (capacity < count ==> r < 2 * count)
    decreases count - capacity
  {
    if capacity >= count then capacity else Doubled(2 * capacity, count)
  }

  lemma TimesTwice(capacity: nat, k: nat)
    ensures Times(2 * capacity, Pow2(k)) == Times(capacity, Pow2(k + 1))
  {
  }

  lemma TimesOnce(capacity: nat)
    ensures Times(capacity, Pow2(0)) == capacity
  {
  }

  /** The capacity times a power of two, and the least such that reaches `count`. */
  lemma {:induction false} DoubledLeast(capacity: nat, count: nat) returns (k: nat)
    requires capacity > 0
    ensures Doubled(capacity, count) == Times(capacity, Pow2(k)) >= count
    ensures forall j: nat :: Times(capacity, Pow2(j)) >= count ==> k <= j
    decreases count - capacity
  {
    if capacity >= count {
      k := 0;
      TimesOnce(capacity);
    } else {
      var k' := DoubledLeast(2 * capacity, count);
      k := k' + 1;
      hide Times, Pow2;
      TimesTwice(capacity, k');
      forall j: nat | Times(capacity, Pow2(j)) >= count
        ensures k <= j
      {
        if j == 0 { TimesOnce(capacity); } else { TimesTwice(capacity, j - 1); }
      }
    }
  }

  /** How many slots a block has that is asked to hold `count` of them. */
  ghost function SlotsFor(slotSize: nat, minBlockSize: nat, count: nat): nat
    requires slotSize > 0
  {
    NextPow2(Max(slotSize * count, minBlockSize)) / slotSize
  }

  ghost function CapacityAfter(slotSize: nat, minBlockSize: nat, capacity: nat, count: nat): nat
    requires slotSize > 0 && capacity > 0
  {
    if capacity >= count then capacity else SlotsFor(slotSize, minBlockSize, Doubled(capacity, count))
  }

  ghost predicate BytesFit(slotSize: nat, capacity: nat, count: nat) {
    capacity == 0 || capacity >= count || Times(slotSize, Doubled(capacity, count)) <= WORD_LIMIT / 2
  }

  class RWRingQueue<T> {
    const slotSize: nat
    const layout: B.Layout
    /** What slot `p` of a block of `n` slots holds before it is set up. */
    const leftover: (nat, nat) -> Slot<T>
    var buffer: array<Slot<T>>
    var head: nat
    var tail: nat
    var size_: nat
    var overwriteWhenFull: bool
    var autoExpand: bool
    /** The queue as a sequence, oldest item first. */
    ghost var items: seq<T>
    /** How many slots of the buffer have been initialised. */
    ghost var made: nat

    ghost predicate Valid()
      reads this, buffer
    {
      && Ring(buffer[..], head, items) && Clean(buffer[..], head, |items|, made)
      && size_ == |items| && tail == Place(head, size_, buffer.Length)
      && made <= buffer.Length && slotSize > 0 && layout.Valid() && layout.minBlockSize <= WORD_LIMIT / 2
    }

    /** The block of a buffer that is large enough can be asked for. */
    ghost predicate CanHold(count: nat)
      reads this`buffer
    {
      BytesFit(slotSize, buffer.Length, count)
    }

    /** The slots asked for are set up. They overrun the block, and the queue is not valid, exactly when their bytes are
        more than half the word size. */
    constructor (slotSize: nat, layout: B.Layout, leftover: (nat, nat) -> Slot<T>, capacity: nat, overwriteWhenFull: bool, autoExpand: bool)
      requires slotSize > 0 && layout.Valid() && layout.minBlockSize <= WORD_LIMIT / 2 && capacity > 0
      ensures Valid() <==> Times(slotSize, capacity) <= WORD_LIMIT / 2
      ensures fresh(buffer) && items == [] && head == 0 && made == capacity
      ensures Valid() ==> buffer.Length == SlotsFor(slotSize, layout.minBlockSize, capacity) >= capacity
      ensures forall p: nat :: made <= p < buffer.Length ==> buffer[p] == leftover(buffer.Length, p)
      ensures this.slotSize == slotSize && this.layout == layout && this.leftover == leftover
      ensures this.overwriteWhenFull == overwriteWhenFull && this.autoExpand == autoExpand
    {
      hide SlotsFor;
      var slots, fits := AllocateSlots(slotSize, layout, leftover, capacity);
      this.slotSize, this.layout, this.leftover, buffer := slotSize, layout, leftover, slots;
      head, tail, size_, items, made := 0, 0, 0, [], capacity;
      this.overwriteWhenFull, this.autoExpand := overwriteWhenFull, autoExpand;
    }

    method NextIndex(index: nat) returns (next: nat)
      requires index < buffer.Length
      ensures next == (index + 1) % buffer.Length
    {
      next := (index + 1) % buffer.Length;
    }

    /** Moves all items into a larger buffer when the present one is too small. It overruns the new block exactly when
        that cannot be large enough. */
    method EnsureCapacity(minCapacity: nat) returns (fits: bool)
      requires Valid()
      modifies this`buffer, this`head, this`tail, this`made, buffer
      ensures fits <==> old(CanHold(minCapacity))
      ensures old(buffer.Length) > 0 && (buffer == old(buffer) || fresh(buffer))
      ensures fits ==> Valid() && buffer.Length >= minCapacity && buffer.Length >= old(buffer.Length)
      ensures fits ==> buffer.Length == CapacityAfter(slotSize, layout.minBlockSize, old(buffer.Length), minCapacity)
      ensures fits && old(buffer.Length) >= minCapacity ==> buffer == old(buffer)
      ensures fits && old(buffer.Length) < minCapacity ==>
        Times(slotSize, buffer.Length) < 2 * Max(Times(slotSize, 2 * minCapacity), layout.minBlockSize)
    {
      if buffer.Length >= minCapacity { return true; }
      var newCapacity := if buffer.Length == 0 then 1 else buffer.Length;
      while newCapacity < minCapacity
        invariant newCapacity > 0 && newCapacity >= buffer.Length
        invariant Doubled(newCapacity, minCapacity) == Doubled(buffer.Length, minCapacity)
        decreases minCapacity - newCapacity
      {
        newCapacity := newCapacity * 2;
      }
      MoreSlots(slotSize, newCapacity, 2 * minCapacity);
      var newBuffer;
      newBuffer, fits := AllocateSlots(slotSize, layout, leftover, newCapacity);
      if !fits { return; }
      MoveInto(newBuffer, newCapacity);
      buffer := newBuffer;
      made := newCapacity;
      head := 0;
      tail := size_;
    }

    /** Every item moves, and nothing is left in its old slot. */
    method MoveInto(newBuffer: array<Slot<T>>, ghost newMade: nat)
      requires Valid() && newBuffer != buffer && newBuffer.Length > buffer.Length
      requires forall p: nat :: p < newMade && p < newBuffer.Length ==> newBuffer[p] == Vacant
      modifies buffer, newBuffer
      ensures Ring(newBuffer[..], 0, items) && Clean(newBuffer[..], 0, |items|, newMade)
      ensures forall p: nat :: p < made && p < buffer.Length ==> buffer[p] == Vacant
    {
      hide Ring, Clean, Remaining, Place;
      Bounds();
      NothingMoved(newBuffer[..], newMade);
      AllRemain(buffer[..], head, items, made);
      for i := 0 to size_
        invariant Ring(newBuffer[..], 0, items[..i]) && Clean(newBuffer[..], 0, i, newMade)
        invariant Remaining(buffer[..], head, items, i, made)
      {
        PlaceIsRemainder(head, i, buffer.Length);
        PlaceIsRemainder(0, i, newBuffer.Length);
        FromStart(i, newBuffer.Length);
        var oldIndex := (head + i) % buffer.Length;
        OneMoved(buffer[..], head, items, i, made);
        RingPushed(newBuffer[..], 0, items[..i], newMade, items[i]);
        assert items[..i] + [items[i]] == items[..i + 1];
        newBuffer[i] := Occupied(buffer[oldIndex].value);
        buffer[oldIndex] := Vacant;
      }
      assert items[..size_] == items;
      NoneRemain(buffer[..], head, items, made);
    }

    /** `try_push` and `emplace`: a full queue grows, rejects the value, or drops its oldest item for it. */
    method PushValue(value: T) returns (ok: bool, fits: bool)
      requires Valid()
      modifies this, buffer
      ensures fits <==> (old(autoExpand) && |old(items)| == old(buffer.Length) ==> old(CanHold(buffer.Length + 1)))
      ensures old(buffer.Length) > 0 && (buffer == old(buffer) || fresh(buffer))
      ensures overwriteWhenFull == old(overwriteWhenFull) && autoExpand == old(autoExpand)
      ensures fits ==> Valid() && (ok <==> |old(items)| < old(buffer.Length) || autoExpand || overwriteWhenFull)
      ensures fits ==> items == if !ok then old(items)
                                else if |old(items)| == old(buffer.Length) && !autoExpand then old(items)[1..] + [value]
                                else old(items) + [value]
      ensures fits ==>
        buffer.Length == if |old(items)| == old(buffer.Length) && autoExpand
                         then CapacityAfter(slotSize, layout.minBlockSize, old(buffer.Length), old(buffer.Length) + 1)
                         else old(buffer.Length)
    {
      hide Ring, Clean;
      Bounds();
      fits := true;
      if size_ == buffer.Length {
        if autoExpand {
          fits := EnsureCapacity(buffer.Length + 1);
          if !fits { return false, false; }
        } else if !overwriteWhenFull {
          return false, true;
        } else {
          Overwrite(value);
          return true, true;
        }
      }
      Append(value);
      ok := true;
    }

    lemma Bounds()
      requires Valid()
      ensures |items| == size_ <= buffer.Length && head < buffer.Length && tail < buffer.Length && slotSize > 0
    {
    }

    method Append(value: T)
      requires Valid() && size_ < buffer.Length
      modifies this`tail, this`size_, this`items, buffer
      ensures Valid() && items == old(items) + [value]
    {
      RingPushed(buffer[..], head, items, made, value);
      PlaceNext(head, size_, buffer.Length);
      buffer[tail] := Occupied(value);
      tail := NextIndex(tail);
      size_ := size_ + 1;
      items := items + [value];
    }

    method Overwrite(value: T)
      requires Valid() && size_ == buffer.Length
      modifies this`head, this`tail, this`items, buffer
      ensures Valid() && items == old(items)[1..] + [value]
    {
      RingOverwritten(buffer[..], head, items, made, value);
      PlaceIsRemainder(head, size_, buffer.Length);
      buffer[tail] := Vacant;
      buffer[tail] := Occupied(value);
      tail := NextIndex(tail);
      head := tail;
      items := items[1..] + [value];
    }

    method TryPop() returns (out: Option<T>)
      requires Valid()
      modifies this`head, this`size_, this`items, buffer
      ensures Valid() && out == (if old(items) == [] then None else Some(old(items)[0]))
      ensures items == if old(items) == [] then [] else old(items)[1..]
    {
      hide Ring, Clean;
      Bounds();
      if size_ == 0 { return None; }
      var value := RemoveHead();
      size_ := size_ - 1;
      out := Some(value);
    }

    /** The oldest item leaves the ring; the size is still to be adjusted. */
    method RemoveHead() returns (value: T)
      requires items != [] && Live()
      modifies this`head, this`items, buffer
      ensures Live() && value == old(items)[0] && items == old(items)[1..]
    {
      hide Ring, Clean, Place;
      HeadInside();
      RingPopped(buffer[..], head, items, made);
      TailKept(head, |items|, buffer.Length);
      value := buffer[head].value;
      buffer[head] := Vacant;
      head := NextIndex(head);
      items := items[1..];
    }

    lemma HeadInside()
      requires Live()
      ensures head < buffer.Length && |items| <= buffer.Length
    {
    }

    /** Everything but the size. */
    ghost predicate Live()
      reads this, buffer
    {
      && Ring(buffer[..], head, items) && Clean(buffer[..], head, |items|, made) && tail == Place(head, |items|, buffer.Length)
      && made <= buffer.Length && slotSize > 0 && layout.Valid() && layout.minBlockSize <= WORD_LIMIT / 2
    }

    /** The oldest `maxCount` items, or all of them, in order. */
    method PopBatch(maxCount: nat) returns (out: seq<T>)
      requires Valid()
      modifies this`head, this`size_, this`items, buffer
      ensures Valid() && out == old(items)[..Min(maxCount, |old(items)|)] && items == old(items)[Min(maxCount, |old(items)|)..]
    {
      hide Ring, Clean;
      Bounds();
      var actualCount := if size_ < maxCount then size_ else maxCount;
      ghost var before := items;
      out := [];
      for i := 0 to actualCount
        invariant Live() && items == before[i..] && out == before[..i] && size_ == |before|
      {
        var value := RemoveHead();
        out := out + [value];
      }
      size_ := size_ - actualCount;
    }

    method FrontCopy() returns (out: Option<T>)
      requires Valid()
      ensures out == if items == [] then None else Some(items[0])
    {
      if size_ == 0 { return None; }
      assert Place(head, 0, buffer.Length) == head;
      out := Some(buffer[head].value);
    }

    method Snapshot() returns (result: seq<T>)
      requires Valid()
      ensures result == items
    {
      result := [];
      var index := head;
      for i := 0 to size_
        invariant index == Place(head, i, buffer.Length) && result == items[..i]
      {
        assert buffer[..][index] == Occupied(items[i]);
        PlaceNext(head, i, buffer.Length);
        result := result + [buffer[index].value];
        index := NextIndex(index);
      }
    }

    method Reserve(requestedCapacity: nat) returns (fits: bool)
      requires Valid()
      modifies this`buffer, this`head, this`tail, this`made, buffer
      ensures fits <==> old(CanHold(requestedCapacity))
      ensures old(buffer.Length) > 0 && (buffer == old(buffer) || fresh(buffer))
      ensures fits ==> Valid() && buffer.Length == CapacityAfter(slotSize, layout.minBlockSize, old(buffer.Length), requestedCapacity)
      ensures fits ==> buffer.Length >= requestedCapacity
    {
      fits := EnsureCapacity(requestedCapacity);
    }

    /** Every slot whose flag is set is destroyed. These are exactly the slots of the items where every slot has been set
        up or holds an item; otherwise it depends on what is left over in the block. */
    method Clear() returns (ghost destroyed: set<nat>)
      requires Valid()
      modifies this`head, this`tail, this`size_, this`items, this`made, buffer
      ensures Valid() && items == [] && made == buffer.Length && forall p: nat :: p < buffer.Length ==> buffer[p] == Vacant
      ensures old(head) < buffer.Length && destroyed == Flagged(old(buffer[..]))
      ensures destroyed == RingSlots(old(head), |old(items)|, buffer.Length)
         <==> Clean(old(buffer[..]), old(head), |old(items)|, buffer.Length)
      ensures NoLeftovers(old(head), |old(items)|, old(made), buffer.Length) ==>
        destroyed == RingSlots(old(head), |old(items)|, buffer.Length)
    {
      destroyed := {};
      ghost var slots := buffer[..];
      for i := 0 to buffer.Length
        modifies buffer
        invariant forall p: nat :: p < i ==> buffer[p] == Vacant
        invariant forall p: nat :: i <= p < buffer.Length ==> buffer[p] == slots[p]
        invariant forall p: nat :: p in destroyed <==> p < i && slots[p].Occupied?
      {
        if buffer[i].Occupied? { destroyed := destroyed + {i}; }
        buffer[i] := Vacant;
      }
      DestroyedSlots(slots, head, items, destroyed);
      assert destroyed == Flagged(slots);
      head, tail, size_, items := 0, 0, 0, [];
      made := buffer.Length;
    }

    method SetModes(overwrite: bool, expand: bool)
      requires Valid()
      modifies this`overwriteWhenFull, this`autoExpand
      ensures Valid() && overwriteWhenFull == overwrite && autoExpand == expand
    {
      overwriteWhenFull, autoExpand := overwrite, expand;
    }
  }

  /** A capacity of 0 makes the source's constructor throw. */
  method Create<T>(slotSize: nat, layout: B.Layout, leftover: (nat, nat) -> Slot<T>, capacity: nat,
      overwriteWhenFull: bool, autoExpand: bool)
    returns (queue: Option<RWRingQueue<T>>)
    requires slotSize > 0 && layout.Valid() && layout.minBlockSize <= WORD_LIMIT / 2
    ensures queue == None <==> capacity == 0
    ensures queue.Some? ==> fresh(queue.value) && fresh(queue.value.buffer) && queue.value.items == []
    ensures queue.Some? ==> (queue.value.Valid() <==> Times(slotSize, capacity) <= WORD_LIMIT / 2)
    ensures queue.Some? && queue.value.Valid() ==>
      && queue.value.buffer.Length == SlotsFor(slotSize, layout.minBlockSize, capacity) >= capacity
      && Is(queue.value, Queue([], queue.value.buffer.Length, overwriteWhenFull, autoExpand))
    ensures queue.Some? ==> queue.value.slotSize == slotSize && queue.value.layout == layout && queue.value.leftover == leftover
  {
    if capacity == 0 { return None; }
    var q := new RWRingQueue(slotSize, layout, leftover, capacity, overwriteWhenFull, autoExpand);
    return Some(q);
  }

  lemma MoreSlots(slotSize: nat, count: nat, bound: nat)
    requires count <= bound
    ensures 0 <= Times(slotSize, count) <= Times(slotSize, bound)
  {
  }

  /** A block of the pool, of which the slots asked for are set up as far as they lie in it. */
  method AllocateSlots<T>(slotSize: nat, layout: B.Layout, leftover: (nat, nat) -> Slot<T>, count: nat)
    returns (slots: array<Slot<T>>, fits: bool)
    requires slotSize > 0 && layout.Valid() && layout.minBlockSize <= WORD_LIMIT / 2 && count > 0
    ensures fresh(slots) && (fits <==> Times(slotSize, count) <= WORD_LIMIT / 2) && (fits <==> slots.Length >= count)
    ensures forall p: nat :: p < count && p < slots.Length ==> slots[p] == Vacant
    ensures forall p: nat :: count <= p < slots.Length ==> slots[p] == leftover(slots.Length, p)
    ensures fits ==> slots.Length == SlotsFor(slotSize, layout.minBlockSize, count)
    ensures fits ==> Times(slotSize, slots.Length) < 2 * Max(Times(slotSize, count), layout.minBlockSize)
  {
    hide IsPow2;
    MoreSlots(slotSize, 1, count);
    var bytes := B.BlockFor(slotSize * count, layout);
    fits := bytes >= slotSize * count;
    if fits { LeastPow2Unique(bytes, Max(slotSize * count, layout.minBlockSize)); }
    SlotsInBytes(slotSize, count, bytes);
    var n := bytes / slotSize;
    slots := new Slot<T>[n]((p: nat) => leftover(n, p));
    for i := 0 to Min(count, n)
      invariant forall p: nat :: p < i ==> slots[p] == Vacant
      invariant forall p: nat :: i <= p < n ==> slots[p] == leftover(n, p)
    {
      slots[i] := Vacant;
    }
  }

  lemma SlotsInBytes(slotSize: nat, count: nat, bytes: nat)
    requires slotSize > 0
    ensures bytes / slotSize >= 0 && slotSize * (bytes / slotSize) <= bytes
    ensures bytes / slotSize >= count <==> bytes >= slotSize * count
  {
    var q := bytes / slotSize;
    assert bytes == q * slotSize + bytes % slotSize;
    assert q < count ==> (q + 1) * slotSize <= count * slotSize;
    assert q >= count ==> q * slotSize >= count * slotSize;
  }

  /** A queue of one slot of 24 bytes, in a block of 64. Clearing it, empty as it is, destroys what is left over in the
      second slot. */
  method LeftoverDestroyed() returns (queue: RWRingQueue<nat>, ghost destroyed: set<nat>)
    ensures fresh(queue) && queue.Valid() && destroyed == {1}
  {
    assert Pow2(6) == 64;
    queue := new RWRingQueue(24, B.Layout(4096, 64, 4096, 1), (n: nat, p: nat) => Occupied(7), 1, false, true);
    TwoSlots();
    destroyed := queue.Clear();
  }

  lemma TwoSlots()
    ensures SlotsFor(24, 64, 1) == 2
  {
    assert Pow2(6) == 64;
    assert LeastPow2(64, 64);
    LeastPow2Unique(64, 64);
  }

  // ----- Runs -----

  /** A queue as its users see it. */
  datatype Queue<T> = Queue(items: seq<T>, capacity: nat, overwrite: bool, expand: bool)

  datatype Op<T> =
    | Push(value: T)
    | Pop
    | PopBatch(count: nat)
    | Front
    | Snapshot
    | Clear
    | Reserve(capacity: nat)
    | SetModes(overwrite: bool, expand: bool)

  datatype Reply<T> = Done | Pushed(ok: bool) | One(item: Option<T>) | Many(items: seq<T>)

  ghost function Needed<T>(q: Queue<T>, op: Op<T>): nat {
    match op
    case Push(_) => if q.expand && |q.items| == q.capacity then q.capacity + 1 else 0
    case Reserve(n) => n
    case _ => 0
  }

  ghost function Execute<T>(q: Queue<T>, op: Op<T>, slotSize: nat, minBlockSize: nat): Queue<T>
    requires slotSize > 0 && q.capacity > 0
  {
    var grown := q.(capacity := CapacityAfter(slotSize, minBlockSize, q.capacity, Needed(q, op)));
    match op
    case Push(x) =>
      if |q.items| < q.capacity || q.expand then grown.(items := q.items + [x])
      else if q.overwrite && |q.items| > 0 then q.(items := q.items[1..] + [x])
      else q
    case Pop => if q.items == [] then q else q.(items := q.items[1..])
    case PopBatch(n) => q.(items := q.items[Min(n, |q.items|)..])
    case Clear => q.(items := [])
    case SetModes(overwrite, expand) => q.(overwrite := overwrite, expand := expand)
    case _ => grown
  }

  ghost function Answer<T>(q: Queue<T>, op: Op<T>): Reply<T> {
    match op
    case Push(_) => Pushed(|q.items| < q.capacity || q.expand || q.overwrite)
    case Pop => One(if q.items == [] then None else Some(q.items[0]))
    case PopBatch(n) => Many(q.items[..Min(n, |q.items|)])
    case Front => One(if q.items == [] then None else Some(q.items[0]))
    case Snapshot => Many(q.items)
    case _ => Done
  }

  /** Every block that the run asks for can be had; otherwise the pool hands out one that is too small. */
  ghost predicate AllFit<T>(q: Queue<T>, ops: seq<Op<T>>, slotSize: nat, minBlockSize: nat)
    requires slotSize > 0
    decreases |ops|
  {
    ops == [] || (
      && q.capacity > 0 && BytesFit(slotSize, q.capacity, Needed(q, ops[0]))
      && AllFit(Execute(q, ops[0], slotSize, minBlockSize), ops[1..], slotSize, minBlockSize))
  }

  ghost function After<T>(q: Queue<T>, ops: seq<Op<T>>, slotSize: nat, minBlockSize: nat): Queue<T>
    requires slotSize > 0 && AllFit(q, ops, slotSize, minBlockSize)
    decreases |ops|
  {
    if ops == [] then q else After(Execute(q, ops[0], slotSize, minBlockSize), ops[1..], slotSize, minBlockSize)
  }

  ghost function Answers<T>(q: Queue<T>, ops: seq<Op<T>>, slotSize: nat, minBlockSize: nat): seq<Reply<T>>
    requires slotSize > 0 && AllFit(q, ops, slotSize, minBlockSize)
    decreases |ops|
  {
    if ops == [] then []
    else [Answer(q, ops[0])] + Answers(Execute(q, ops[0], slotSize, minBlockSize), ops[1..], slotSize, minBlockSize)
  }

  ghost predicate Is<T>(queue: RWRingQueue<T>, q: Queue<T>)
    reads queue, queue.buffer
  {
    queue.Valid() && q == Queue(queue.items, queue.buffer.Length, queue.overwriteWhenFull, queue.autoExpand)
  }

  method Step<T>(queue: RWRingQueue<T>, op: Op<T>, ghost q: Queue<T>) returns (reply: Reply<T>)
    requires Is(queue, q) && q.capacity > 0 && BytesFit(queue.slotSize, q.capacity, Needed(q, op))
    modifies queue, queue.buffer
    ensures queue.buffer == old(queue.buffer) || fresh(queue.buffer)
    ensures Is(queue, Execute(q, op, queue.slotSize, queue.layout.minBlockSize)) && reply == Answer(q, op)
  {
    hide RWRingQueue.Valid, BytesFit;
    queue.Bounds();
    reply := Done;
    match op {
      case Push(x) =>
        var ok, fits := queue.PushValue(x);
        reply := Pushed(ok);
      case Pop =>
        var item := queue.TryPop();
        reply := One(item);
      case PopBatch(n) =>
        var items := queue.PopBatch(n);
        reply := Many(items);
      case Front =>
        var item := queue.FrontCopy();
        reply := One(item);
      case Snapshot =>
        var items := queue.Snapshot();
        reply := Many(items);
      case Clear =>
        ghost var destroyed := queue.Clear();
      case Reserve(n) =>
        var fits := queue.Reserve(n);
      case SetModes(overwrite, expand) =>
        queue.SetModes(overwrite, expand);
    }
  }

  /** Any run: every reply, and in the end the queue, its capacity and its modes, are those of the sequence. */
  method Replay<T>(queue: RWRingQueue<T>, ops: seq<Op<T>>, ghost q: Queue<T>) returns (replies: seq<Reply<T>>)
    requires Is(queue, q) && AllFit(q, ops, queue.slotSize, queue.layout.minBlockSize)
    modifies queue, queue.buffer
    ensures Is(queue, After(q, ops, queue.slotSize, queue.layout.minBlockSize))
    ensures replies == Answers(q, ops, queue.slotSize, queue.layout.minBlockSize)
  {
    hide RWRingQueue.Valid, BytesFit, Execute, Answer;
    queue.Bounds();
    ghost var slotSize, minBlockSize := queue.slotSize, queue.layout.minBlockSize;
    ghost var now := q;
    replies := [];
    for i := 0 to |ops|
      invariant Is(queue, now) && (queue.buffer == old(queue.buffer) || fresh(queue.buffer))
      invariant AllFit(now, ops[i..], slotSize, minBlockSize)
      invariant After(now, ops[i..], slotSize, minBlockSize) == After(q, ops, slotSize, minBlockSize)
      invariant replies + Answers(now, ops[i..], slotSize, minBlockSize) == Answers(q, ops, slotSize, minBlockSize)
    {
      assert ops[i..][1..] == ops[i + 1..];
      var reply := Step(queue, ops[i], now);
      replies := replies + [reply];
      now := Execute(now, ops[i], slotSize, minBlockSize);
    }
  }

  /** The values that an operation puts into the queue. */
  ghost function EnteredBy<T>(q: Queue<T>, op: Op<T>): seq<T> {
    if op.Push? && Answer(q, op) == Pushed(true) then [op.value] else []
  }

  /** A full queue drops its oldest item for a new one. */
  ghost predicate Drops<T>(q: Queue<T>, op: Op<T>) {
    op.Push? && |q.items| >= q.capacity && !q.expand && q.overwrite
  }

  /** The values that leave the queue with an operation, in order. */
  ghost function LeavingBy<T>(q: Queue<T>, op: Op<T>): seq<T> {
    match op
    case Push(_) => if Drops(q, op) then q.items[..Min(1, |q.items|)] else []
    case Pop => q.items[..Min(1, |q.items|)]
    case PopBatch(n) => q.items[..Min(n, |q.items|)]
    case Clear => q.items
    case _ => []
  }

  /** The values that a reply hands out for good. */
  ghost function ReturnedBy<T>(op: Op<T>, reply: Reply<T>): seq<T> {
    if op.Pop? && reply.One? && reply.item.Some? then [reply.item.value]
    else if op.PopBatch? && reply.Many? then reply.items
    else []
  }

  ghost function Entered<T>(q: Queue<T>, ops: seq<Op<T>>, slotSize: nat, minBlockSize: nat): seq<T>
    requires slotSize > 0 && AllFit(q, ops, slotSize, minBlockSize)
    decreases |ops|
  {
    if ops == [] then [] else EnteredBy(q, ops[0]) + Entered(Execute(q, ops[0], slotSize, minBlockSize), ops[1..], slotSize, minBlockSize)
  }

  ghost function Leaving<T>(q: Queue<T>, ops: seq<Op<T>>, slotSize: nat, minBlockSize: nat): seq<T>
    requires slotSize > 0 && AllFit(q, ops, slotSize, minBlockSize)
    decreases |ops|
  {
    if ops == [] then [] else LeavingBy(q, ops[0]) + Leaving(Execute(q, ops[0], slotSize, minBlockSize), ops[1..], slotSize, minBlockSize)
  }

  ghost function Returned<T>(ops: seq<Op<T>>, replies: seq<Reply<T>>): seq<T>
    requires |replies| == |ops|
  {
    if ops == [] then [] else ReturnedBy(ops[0], replies[0]) + Returned(ops[1..], replies[1..])
  }

  /** No operation of the run clears the queue or drops an item. */
  ghost predicate Lossless<T>(q: Queue<T>, ops: seq<Op<T>>, slotSize: nat, minBlockSize: nat)
    requires slotSize > 0 && AllFit(q, ops, slotSize, minBlockSize)
    decreases |ops|
  {
    ops == [] || (
      && !ops[0].Clear? && !Drops(q, ops[0])
      && Lossless(Execute(q, ops[0], slotSize, minBlockSize), ops[1..], slotSize, minBlockSize))
  }

  /** A run from an expanding queue that neither clears it nor changes its modes loses nothing. */
  lemma {:induction false} ExpandingLossless<T>(q: Queue<T>, ops: seq<Op<T>>, slotSize: nat, minBlockSize: nat)
    requires slotSize > 0 && q.expand && AllFit(q, ops, slotSize, minBlockSize)
    requires forall i :: 0 <= i < |ops| ==> !ops[i].Clear? && !ops[i].SetModes?
    ensures Lossless(q, ops, slotSize, minBlockSize)
    decreases |ops|
  {
    if ops != [] {
      assert forall i :: 0 <= i < |ops| - 1 ==> ops[1..][i] == ops[i + 1];
      ExpandingLossless(Execute(q, ops[0], slotSize, minBlockSize), ops[1..], slotSize, minBlockSize);
    }
  }

  /** What a queue of the given capacity and modes keeps of a row of values pushed into it. */
  ghost function Kept<T>(values: seq<T>, capacity: nat, overwrite: bool, expand: bool): seq<T> {
    if expand || |values| <= capacity then values
    else if overwrite then values[|values| - capacity..]
    else values[..capacity]
  }

  lemma KeptMore<T>(values: seq<T>, i: nat, capacity: nat, overwrite: bool, expand: bool)
    requires i < |values| && capacity > 0
    ensures var kept, v := Kept(values[..i], capacity, overwrite, expand), values[i];
      && (expand ==> |kept| == i) && (!expand ==> |kept| <= capacity)
      && Kept(values[..i + 1], capacity, overwrite, expand)
           == if expand || |kept| < capacity then kept + [v] else if overwrite then kept[1..] + [v] else kept
  {
    assert values[..i + 1] == values[..i] + [values[i]];
  }

  lemma KeptNothing<T>(capacity: nat, overwrite: bool, expand: bool)
    ensures Kept<T>([], capacity, overwrite, expand) == []
  {
  }

  lemma GrowthFits(slotSize: nat, capacity: nat, bound: nat)
    requires 0 < capacity <= bound && Times(slotSize, 2 * bound) <= WORD_LIMIT / 2
    ensures BytesFit(slotSize, capacity, capacity + 1)
  {
    MoreSlots(slotSize, 2 * capacity, 2 * bound);
  }

  /** A new queue is filled and emptied again: an expanding one returns all values, an overwriting one the newest, any
      other one the oldest, as many as its block has slots. */
  method FillAndEmpty<T>(slotSize: nat, layout: B.Layout, leftover: (nat, nat) -> Slot<T>, capacity: nat,
      overwriteWhenFull: bool, autoExpand: bool, values: seq<T>)
    returns (popped: seq<T>)
    requires slotSize > 0 && layout.Valid() && layout.minBlockSize <= WORD_LIMIT / 2 && capacity > 0
    requires Times(slotSize, capacity) <= WORD_LIMIT / 2 && (autoExpand ==> Times(slotSize, 2 * |values|) <= WORD_LIMIT / 2)
    ensures popped == Kept(values, SlotsFor(slotSize, layout.minBlockSize, capacity), overwriteWhenFull, autoExpand)
  {
    hide RWRingQueue.Valid, SlotsFor, CapacityAfter, Kept, BytesFit, Times;
    KeptNothing<T>(SlotsFor(slotSize, layout.minBlockSize, capacity), overwriteWhenFull, autoExpand);
    var created := Create(slotSize, layout, leftover, capacity, overwriteWhenFull, autoExpand);
    var queue := created.value;
    ghost var slots := SlotsFor(slotSize, layout.minBlockSize, capacity);
    assert values[..0] == [];
    for i := 0 to |values|
      invariant queue.Valid() && fresh(queue) && fresh(queue.buffer) && queue.slotSize == slotSize
      invariant queue.overwriteWhenFull == overwriteWhenFull && queue.autoExpand == autoExpand
      invariant queue.items == Kept(values[..i], slots, overwriteWhenFull, autoExpand)
      invariant !autoExpand ==> queue.buffer.Length == slots
    {
      queue.Bounds();
      KeptMore(values, i, slots, overwriteWhenFull, autoExpand);
      if autoExpand && |queue.items| == queue.buffer.Length { GrowthFits(slotSize, i, |values|); }
      var ok, fits := queue.PushValue(values[i]);
    }
    queue.Bounds();
    assert values[..|values|] == values;
    popped := queue.PopBatch(queue.size_);
  }

  lemma StepConserves<T>(q: Queue<T>, op: Op<T>, slotSize: nat, minBlockSize: nat)
    requires slotSize > 0 && q.capacity > 0 && |q.items| <= q.capacity
    ensures LeavingBy(q, op) + Execute(q, op, slotSize, minBlockSize).items == q.items + EnteredBy(q, op)
    ensures !op.Clear? && !Drops(q, op) ==> ReturnedBy(op, Answer(q, op)) == LeavingBy(q, op)
  {
  }

  /** First in, first out: over any run the values leave in the order in which they came, and what has not left is
      still there. */
  lemma {:induction false} FirstInFirstOut<T>(q: Queue<T>, ops: seq<Op<T>>, slotSize: nat, minBlockSize: nat)
    requires slotSize > 0 && |q.items| <= q.capacity && AllFit(q, ops, slotSize, minBlockSize)
    ensures Leaving(q, ops, slotSize, minBlockSize) + After(q, ops, slotSize, minBlockSize).items
         == q.items + Entered(q, ops, slotSize, minBlockSize)
    decreases |ops|
  {
    if ops != [] {
      var q', rest := Execute(q, ops[0], slotSize, minBlockSize), ops[1..];
      StepConserves(q, ops[0], slotSize, minBlockSize);
      StepFits(q, ops[0], slotSize, minBlockSize);
      FirstInFirstOut(q', rest, slotSize, minBlockSize);
      hide Execute, LeavingBy, EnteredBy;
      Chained(q.items, EnteredBy(q, ops[0]), LeavingBy(q, ops[0]), q'.items,
        Entered(q', rest, slotSize, minBlockSize), Leaving(q', rest, slotSize, minBlockSize),
        After(q', rest, slotSize, minBlockSize).items);
    }
  }

  lemma Chained<T>(start: seq<T>, in0: seq<T>, out0: seq<T>, middle: seq<T>, in1: seq<T>, out1: seq<T>, end: seq<T>)
    requires out0 + middle == start + in0 && out1 + end == middle + in1
    ensures (out0 + out1) + end == start + (in0 + in1)
  {
    assert (out0 + out1) + end == out0 + (out1 + end);
    assert out0 + (middle + in1) == (out0 + middle) + in1;
    assert (start + in0) + in1 == start + (in0 + in1);
  }

  /** Over a run without clearing and overwriting, all that leaves is returned to a caller. */
  lemma {:induction false} ReturnsAll<T>(q: Queue<T>, ops: seq<Op<T>>, slotSize: nat, minBlockSize: nat)
    requires slotSize > 0 && |q.items| <= q.capacity && AllFit(q, ops, slotSize, minBlockSize)
    requires Lossless(q, ops, slotSize, minBlockSize)
    ensures |Answers(q, ops, slotSize, minBlockSize)| == |ops|
    ensures Returned(ops, Answers(q, ops, slotSize, minBlockSize)) == Leaving(q, ops, slotSize, minBlockSize)
    decreases |ops|
  {
    if ops != [] {
      var q' := Execute(q, ops[0], slotSize, minBlockSize);
      StepConserves(q, ops[0], slotSize, minBlockSize);
      StepFits(q, ops[0], slotSize, minBlockSize);
      ReturnsAll(q', ops[1..], slotSize, minBlockSize);
      hide Execute, Answer, LeavingBy, ReturnedBy;
      assert Answers(q, ops, slotSize, minBlockSize)[1..] == Answers(q', ops[1..], slotSize, minBlockSize);
    }
  }

  /** The items never exceed the capacity. */
  lemma StepFits<T>(q: Queue<T>, op: Op<T>, slotSize: nat, minBlockSize: nat)
    requires slotSize > 0 && q.capacity > 0 && |q.items| <= q.capacity && BytesFit(slotSize, q.capacity, Needed(q, op))
    ensures |Execute(q, op, slotSize, minBlockSize).items| <= Execute(q, op, slotSize, minBlockSize).capacity
  {
    EnoughSlots(slotSize, minBlockSize, Doubled(q.capacity, Needed(q, op)));
  }

  lemma EnoughSlots(slotSize: nat, minBlockSize: nat, count: nat)
    requires slotSize > 0
    ensures SlotsFor(slotSize, minBlockSize, count) >= count
  {
    SlotsInBytes(slotSize, count, NextPow2(Max(slotSize * count, minBlockSize)));
  }
}
