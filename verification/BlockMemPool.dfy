/** The block pool: buckets of segments, each a bitmap of slots with a count per slot. */
module BlockMemPool {
  import opened MathBits
  import opened SlotBitmap
  import opened Wrappers

  /** A segment as a value. */
  datatype SegmentState = SegmentState(capacity: nat, used: set<nat>, counts: seq<nat>)

  ghost predicate Full(s: SegmentState) { |s.used| >= s.capacity }

  /** The state after slot `index` was acquired, with its count cleared. */
  ghost predicate SlotTaken(s: SegmentState, s': SegmentState, index: nat) {
    && Acquires(s.used, s'.used, s.capacity, true, index) && s'.capacity == s.capacity
    && index < |s.counts| && s'.counts == s.counts[index := 0]
  }

  class Segment {
    const blockSize: nat
    const capacity: nat
    const storageSize: nat
    const refCounts: array<nat>
    const bitmap: array<nat>
    var usedCount: nat
    var next: Segment?

    /** The slots whose bit is set. */
    ghost function Used(): set<nat>
      reads bitmap
    {
      Taken(bitmap[..])
    }

    ghost predicate Valid()
      reads this`usedCount, bitmap
    {
      && refCounts.Length == capacity && refCounts != bitmap && Fits(bitmap[..], capacity) && usedCount == |Used()|
    }

    ghost function State(): SegmentState
      reads bitmap, refCounts
    {
      SegmentState(capacity, Used(), refCounts[..])
    }

    constructor (slotSize: nat, slotCount: nat, storageBytes: nat)
      ensures Valid() && fresh(bitmap) && fresh(refCounts) && Used() == {} && next == null
      ensures capacity == slotCount && blockSize == slotSize && storageSize == storageBytes
    {
      blockSize, capacity, storageSize := slotSize, slotCount, storageBytes;
      refCounts := new nat[slotCount](_ => 0);
      bitmap := new nat[(slotCount + 63) / 64](_ => 0);
      usedCount, next := 0, null;
      new;
      NoneTaken(bitmap[..], capacity);
    }

    /** Takes the lowest free slot; it fails only when every slot is taken. */
    method TryAcquireSlot() returns (acquired: bool, slotIndex: nat)
      requires Valid()
      modifies this`usedCount, bitmap, refCounts
      ensures Valid() && (acquired <==> !Full(old(State())))
      ensures acquired ==> SlotTaken(old(State()), State(), slotIndex)
      ensures !acquired ==> State() == old(State())
    {
      hide Fits, SlotBit;
      slotIndex := 0;
      if usedCount >= capacity {
        TakenBound(bitmap[..], capacity);
        return false, 0;
      }
      ghost var words := bitmap[..];
      for wordIndex := 0 to bitmap.Length
        invariant bitmap[..] == words && refCounts[..] == old(refCounts[..]) && usedCount == |Taken(words)|
        invariant forall k: nat :: k < 64 * wordIndex && k < capacity ==> k in Taken(words)
      {
        var word := bitmap[wordIndex];
        if word == WORD_LIMIT - 1 {
          FullWordTaken(words, wordIndex);
          continue;
        }
        WordInRange(words, capacity, wordIndex);
        var bitIndex := FindFirstZeroBit(word);
        LowestFree(words, wordIndex, bitIndex);
        var candidateIndex := wordIndex * 64 + bitIndex;
        if candidateIndex >= capacity { continue; }
        BitSet(words, capacity, wordIndex, bitIndex, Or(word, ShiftedOne(bitIndex)), true);
        TakenBound(words, capacity);
        bitmap[wordIndex] := Or(word, ShiftedOne(bitIndex));
        refCounts[candidateIndex] := 0;
        usedCount := usedCount + 1;
        assert bitmap[..] == words[wordIndex := Or(word, ShiftedOne(bitIndex))];
        return true, candidateIndex;
      }
      AllTaken(words, capacity);
      acquired := false;
    }

    /** The slot's count is cleared and its bit too. */
    method ReleaseSlot(slotIndex: nat)
      requires Valid() && slotIndex in Used()
      modifies this`usedCount, bitmap, refCounts
      ensures Valid() && SlotReturned(old(State()), State(), slotIndex)
    {
      hide Fits, SlotBit;
      TakenBound(bitmap[..], capacity);
      var wordIndex := slotIndex / 64;
      var bitIndex := slotIndex % 64;
      WordInRange(bitmap[..], capacity, 0);
      var word := AndNot(bitmap[wordIndex], ShiftedOne(bitIndex));
      BitSet(bitmap[..], capacity, wordIndex, bitIndex, word, false);
      refCounts[slotIndex] := 0;
      bitmap[wordIndex] := word;
      if usedCount > 0 {
        usedCount := usedCount - 1;
      }
    }
  }

  /** The segments of a bucket in order of creation, each linked to the one before it. */
  class Bucket {
    const blockSize: nat
    var head: Segment?
    var segmentCount: nat
    ghost var segments: seq<Segment>
    ghost var states: seq<SegmentState>
    ghost var arrays: set<array<nat>>

    ghost predicate Linked()
      reads this`head, this`segmentCount, this`segments, segments`next
    {
      && segmentCount == |segments| && head == SegmentAt(segments, |segments| - 1)
      && forall i :: 0 <= i < |segments| ==> LinkedAt(i)
    }

    ghost predicate LinkedAt(i: nat)
      reads this`segments, segments`next
      requires i < |segments|
    {
      segments[i].next == SegmentAt(segments, i - 1)
    }

    ghost predicate Apart()
      reads this`segments, this`arrays
    {
      && (forall i, j :: 0 <= i < j < |segments| ==> Separate(segments[i], segments[j]))
      && (forall i :: 0 <= i < |segments| ==> segments[i].bitmap in arrays && segments[i].refCounts in arrays)
    }

    ghost predicate Filled()
      reads this`segments, this`arrays, segments`usedCount, arrays
    {
      forall i :: 0 <= i < |segments| ==>
        segments[i].bitmap in arrays && segments[i].Valid() && segments[i].blockSize == blockSize && segments[i].capacity > 0
    }

    ghost predicate Valid()
      reads this, segments, arrays
    {
      Linked() && Apart() && Filled() && Recorded()
    }

    ghost predicate Recorded()
      reads this`segments, this`states, this`arrays, arrays
    {
      && |states| == |segments|
      && forall i :: 0 <= i < |segments| ==>
        segments[i].bitmap in arrays && segments[i].refCounts in arrays && segments[i].State() == states[i]
    }

    lemma SeparateFrom(i: nat)
      requires Apart() && i < |segments|
      ensures forall j :: 0 <= j < |segments| && j != i ==> Separate(segments[i], segments[j])
    {
    }

    constructor (size: nat)
      ensures Valid() && states == [] && blockSize == size && arrays == {}
    {
      blockSize, head, segmentCount, segments, states, arrays := size, null, 0, [], [], {};
    }

    /** One segment is tried. */
    method TryAt(segment: Segment, ghost i: nat) returns (acquired: bool, slotIndex: nat)
      requires Valid() && i < |segments| && segments[i] == segment
      modifies this`states, segments`usedCount, arrays
      ensures Valid() && |states| == |old(states)|
      ensures acquired <==> !Full(old(states)[i])
      ensures acquired ==> SlotTaken(old(states)[i], states[i], slotIndex) && states == old(states)[i := states[i]]
      ensures !acquired ==> states == old(states)
    {
      hide Segment.Valid, Segment.State, Full, SlotTaken;
      SeparateFrom(i);
      acquired, slotIndex := segment.TryAcquireSlot();
      states := states[i := segment.State()];
    }

    /** The last handle of a slot gives it back. */
    method Release(segment: Segment, slotIndex: nat, ghost i: nat)
      requires Valid() && i < |segments| && segments[i] == segment && slotIndex in states[i].used
      modifies this`states, segments`usedCount, arrays
      ensures Valid() && |states| == |old(states)| && SlotReturned(old(states)[i], states[i], slotIndex)
      ensures states == old(states)[i := states[i]]
    {
      hide Segment.Valid, SlotReturned;
      SeparateFrom(i);
      segment.ReleaseSlot(slotIndex);
      states := states[i := segment.State()];
    }

    /** The newest segment that has a free slot. */
    method Scan() returns (segment: Segment?, slotIndex: nat, ghost at: nat)
      requires Valid()
      modifies this`states, segments`usedCount, arrays
      ensures Valid() && |states| == |old(states)|
      ensures segment == null ==> states == old(states) && forall j :: 0 <= j < |states| ==> Full(states[j])
      ensures segment != null ==> at < |segments| && segments[at] == segment && Allocated(old(states), states, at, slotIndex)
    {
      hide Segment.Valid, Segment.State, Full, SlotTaken, Separate, Filled, Recorded;
      at := |segments|;
      slotIndex := 0;
      segment := head;
      StatesAre();
      while segment != null
        invariant Valid() && states == old(states) && 0 <= at <= |segments| && segment == SegmentAt(segments, at - 1)
        invariant forall j :: at <= j < |states| ==> Full(states[j])
        decreases at
      {
        at := at - 1;
        var acquired;
        acquired, slotIndex := TryAt(segment, at);
        if acquired { return; }
        assert LinkedAt(at);
        segment := segment.next;
      }
    }

    lemma StatesAre()
      requires Valid()
      ensures |states| == |segments|
      ensures forall i :: 0 <= i < |segments| ==> segments[i].Valid() && states[i] == segments[i].State()
    {
    }

    /** A new segment becomes the head of the list. */
    method Prepend(segment: Segment)
      requires Valid() && segment.Valid() && segment.blockSize == blockSize && segment.capacity > 0
      requires forall s :: s in segments ==> s != segment
      requires segment.bitmap !in arrays && segment.refCounts !in arrays && segment.bitmap != segment.refCounts
      modifies this, segment`next
      ensures Valid() && arrays == old(arrays) + {segment.bitmap, segment.refCounts}
      ensures segments == old(segments) + [segment] && states == old(states) + [segment.State()]
    {
      hide Segment.Valid, Segment.State;
      segment.next := head;
      head := segment;
      segmentCount := segmentCount + 1;
      segments, states := segments + [segment], states + [segment.State()];
      arrays := arrays + {segment.bitmap, segment.refCounts};
      forall i | 0 <= i < |segments|
        ensures LinkedAt(i)
      {
        if i + 1 < |segments| { assert old(LinkedAt(i)); }
      }
    }

    /** `allocate` under the bucket lock: the lowest free slot of the newest segment that has one, and otherwise
        the first slot of a new segment, so the source's exception cannot be thrown. */
    method Acquire(layout: Layout) returns (segment: Segment, slotIndex: nat, ghost at: nat)
      requires Valid() && layout.Valid() && 0 < blockSize <= WORD_LIMIT / 2
      modifies this, segments, arrays
      ensures Valid() && at < |segments| && segments[at] == segment && old(segments) <= segments
      ensures forall i :: |old(segments)| <= i < |segments| ==> fresh(segments[i])
      ensures forall a :: a in arrays ==> a in old(arrays) || fresh(a)
      ensures |states| == |old(states)| ==> Allocated(old(states), states, at, slotIndex)
      ensures |states| != |old(states)| ==>
        && |states| == |old(states)| + 1 == at + 1 && AllocatedNew(old(states), states, slotIndex)
        && states[at].capacity == SlotsPerSegment(blockSize, layout)
        && segment.storageSize == Times(states[at].capacity, blockSize)
    {
      hide Segment.Valid, Segment.State, Full, SlotTaken, Separate, Filled, Recorded;
      var found;
      found, slotIndex, at := Scan();
      if found != null { return found, slotIndex, at; }
      segment, slotIndex := AcquireNew(layout);
      StatesAre();
      at := |segments| - 1;
    }

    method AcquireNew(layout: Layout) returns (segment: Segment, slotIndex: nat)
      requires Valid() && layout.Valid() && 0 < blockSize <= WORD_LIMIT / 2
      modifies this, segments`usedCount, arrays
      requires forall j :: 0 <= j < |states| ==> Full(states[j])
      ensures Valid() && segments == old(segments) + [segment] && AllocatedNew(old(states), states, slotIndex)
      ensures fresh(segment) && forall a :: a in arrays ==> a in old(arrays) || fresh(a)
      ensures states[|old(states)|].capacity == SlotsPerSegment(blockSize, layout)
      ensures segment.storageSize == Times(states[|old(states)|].capacity, blockSize)
    {
      hide Segment.Valid, Filled, Recorded, Fits;
      segment := CreateSegment(blockSize, layout);
      Prepend(segment);
      StatesAre();
      var acquired;
      acquired, slotIndex := TryAt(segment, |segments| - 1);
      FirstSlot({}, states[|segments| - 1].used, segment.capacity, slotIndex);
    }
  }

  /** The state after slot `index` was given back. */
  ghost predicate SlotReturned(s: SegmentState, s': SegmentState, index: nat) {
    && index in s.used && s'.used == s.used - {index} && s'.capacity == s.capacity
    && index < |s.counts| && s'.counts == s.counts[index := 0]
  }

  lemma FirstSlot(none: set<nat>, used: set<nat>, capacity: nat, index: nat)
    requires none == {} && Acquires(none, used, capacity, true, index)
    ensures index == 0 && used == {0}
  {
    assert 0 < index ==> 0 in none;
  }

  /** A new segment was added because all others were full, and its first slot taken. */
  ghost predicate AllocatedNew(states: seq<SegmentState>, states': seq<SegmentState>, index: nat) {
    && index == 0 && |states'| == |states| + 1 && states'[..|states|] == states && states'[|states|].used == {0}
    && states'[|states|].capacity > 0 && forall j :: 0 <= j < |states| ==> Full(states[j])
  }

  /** Slot `index` of segment `at` was taken; all newer segments were full. */
  ghost predicate Allocated(states: seq<SegmentState>, states': seq<SegmentState>, at: nat, index: nat) {
    && at < |states| == |states'| && SlotTaken(states[at], states'[at], index) && states' == states[at := states'[at]]
    && forall j :: at < j < |states| ==> Full(states[j])
  }

  ghost function SegmentAt(segments: seq<Segment>, i: int): Segment? {
    if 0 <= i < |segments| then segments[i] else null
  }

  ghost predicate Separate(s: Segment, t: Segment) {
    s != t && s.bitmap != t.bitmap && s.refCounts != t.refCounts && s.bitmap != t.refCounts && s.refCounts != t.bitmap
  }

  /** The sizes that the pool is configured with. */
  datatype Layout = Layout(pageSize: nat, minBlockSize: nat, maxPreallocatedBlockSize: nat, pagesPerSegment: nat) {
    ghost predicate Valid() {
      && pageSize > 0 && IsPow2(minBlockSize) && minBlockSize >= 64
      && pagesPerSegment > 0 && pageSize < WORD_LIMIT
    }
  }

  predicate IsPowerOfTwo(value: nat) { value != 0 && And(value, value - 1) == 0 }

  /** The smallest block size: a power of two from 64 on. */
  method NormalizeMinBlockSize(value: nat) returns (size: nat)
    requires value < WORD_LIMIT
    ensures value <= WORD_LIMIT / 2 <==> LeastPow2(size, Max(64, value))
    ensures value > WORD_LIMIT / 2 ==> size == 0
  {
    var candidate := Max(64, value);
    PowerOfTwoTrick(candidate);
    if IsPowerOfTwo(candidate) {
      PowerFitsItself(candidate);
      return candidate;
    }
    size := RoundUpPowerOfTwo(candidate);
  }

  lemma PowerFitsItself(value: nat)
    requires IsPow2(value) && value < WORD_LIMIT
    ensures LeastPow2(value, value) && value <= WORD_LIMIT / 2
  {
    var k: nat :| value == Pow2(k);
    Pow2Word();
    assert Pow2(63) == WORD_LIMIT / 2;
    if k >= 64 { Pow2Monotone(64, k); } else { Pow2Monotone(k, 63); }
  }

  /** The block size of a request: the least power of two that holds it and is not below the minimum.
      Past half the word size the rounding wraps to 0 and the minimum is returned instead. */
  method ChooseBucketSize(requestedSize: nat, layout: Layout) returns (size: nat)
    requires layout.Valid() && layout.minBlockSize <= WORD_LIMIT / 2 && requestedSize < WORD_LIMIT
    ensures requestedSize <= size <==> requestedSize <= WORD_LIMIT / 2
    ensures requestedSize <= WORD_LIMIT / 2 ==> LeastPow2(size, Max(requestedSize, layout.minBlockSize))
    ensures requestedSize <= WORD_LIMIT / 2 ==> size < 2 * Max(requestedSize, layout.minBlockSize)
    ensures requestedSize > WORD_LIMIT / 2 ==> size == layout.minBlockSize
  {
    var normalized := Max(requestedSize, layout.minBlockSize);
    var bucketSize := RoundUpPowerOfTwo(normalized);
    size := Max(bucketSize, layout.minBlockSize);
    if requestedSize <= WORD_LIMIT / 2 { LeastPow2Below(size, normalized); }
  }

  lemma BlockAtMostHalf(r: nat, value: nat)
    requires LeastPow2(r, value) && value <= WORD_LIMIT / 2
    ensures r <= WORD_LIMIT / 2
  {
    Pow2Word();
    assert Pow2(63) == WORD_LIMIT / 2;
  }

  /** The block that `allocate` hands out for a product of sizes, which wraps around: nothing for 0 bytes. It is large
      enough if and only if the product is at most half the word size. */
  method BlockFor(wanted: nat, layout: Layout) returns (block: nat)
    requires layout.Valid() && layout.minBlockSize <= WORD_LIMIT / 2
    ensures block >= wanted <==> wanted <= WORD_LIMIT / 2
    ensures wanted == 0 ==> block == 0
    ensures 0 < wanted <= WORD_LIMIT / 2 ==>
      LeastPow2(block, Max(wanted, layout.minBlockSize)) && block < 2 * Max(wanted, layout.minBlockSize)
  {
    hide IsPow2, LeastPow2;
    var bytes := wanted % WORD_LIMIT;
    Wrapped(wanted);
    if bytes == 0 { return 0; }
    block := ChooseBucketSize(bytes, layout);
    if bytes <= WORD_LIMIT / 2 { BlockAtMostHalf(block, Max(bytes, layout.minBlockSize)); }
  }

  lemma Wrapped(wanted: nat)
    ensures wanted < WORD_LIMIT ==> wanted % WORD_LIMIT == wanted
  {
  }

  /** The bytes that make up for one page, or one block if that is larger. */
  function MinimumBytes(blockSize: nat, layout: Layout): (n: nat)
    requires blockSize > 0 && layout.pageSize > 0
    ensures blockSize <= n <= Max(blockSize, layout.pageSize)
  {
    if blockSize > layout.maxPreallocatedBlockSize then blockSize
    else
      var pages := layout.pageSize / Min(blockSize, layout.pageSize);
      WholeBlocks(layout.pageSize, blockSize);
      blockSize * pages
  }

  lemma WholeBlocks(page: nat, block: nat)
    requires page > 0 && block > 0
    ensures block <= block * (page / Min(block, page)) <= Max(block, page)
  {
    if block > page {
      assert page / page == 1;
    } else {
      AtLeastOnce(page / block, block);
    }
  }

  /** The storage that the configured pages and one block need, in whole pages. */
  ghost function WantedBytes(blockSize: nat, layout: Layout): (n: nat)
    requires blockSize > 0 && layout.pageSize > 0
    ensures n >= Max(blockSize, Times(layout.pagesPerSegment, layout.pageSize))
    ensures layout.pagesPerSegment > 0 ==>
      n == NextMultiple(Max(blockSize, Times(layout.pagesPerSegment, layout.pageSize)), layout.pageSize)
  {
    assert layout.pagesPerSegment > 0 ==> layout.pageSize <= Times(layout.pagesPerSegment, layout.pageSize) by {
      if layout.pagesPerSegment > 0 { AtLeastOnce(layout.pagesPerSegment, layout.pageSize); }
    }
    NextMultiple(Max(MinimumBytes(blockSize, layout), layout.pagesPerSegment * layout.pageSize), layout.pageSize)
  }

  /** The storage that is asked for is the one wanted if and only if that is a word. */
  function StorageBytes(blockSize: nat, layout: Layout): (n: nat)
    requires layout.Valid() && 0 < blockSize <= WORD_LIMIT / 2
    ensures n < WORD_LIMIT && (n == WantedBytes(blockSize, layout) <==> WantedBytes(blockSize, layout) < WORD_LIMIT)
  {
    var product := layout.pagesPerSegment * layout.pageSize;
    assert product >= WORD_LIMIT || product % WORD_LIMIT == product;
    var desiredBytes := Max(MinimumBytes(blockSize, layout), product % WORD_LIMIT);
    RoundUpToMultiple(desiredBytes, layout.pageSize)
  }

  /** How many slots a segment has: as many as the storage wanted has room for, if that is a word, and at least one. */
  ghost function SlotsPerSegment(blockSize: nat, layout: Layout): (c: nat)
    requires layout.Valid() && 0 < blockSize <= WORD_LIMIT / 2
    ensures c > 0
    ensures WantedBytes(blockSize, layout) < WORD_LIMIT ==>
      Times(c, blockSize) <= WantedBytes(blockSize, layout) < Times(c + 1, blockSize)
  {
    SlotCount(StorageBytes(blockSize, layout), blockSize)
  }

  /** The storage of a segment is exactly its slots. */
  method CreateSegment(blockSize: nat, layout: Layout) returns (segment: Segment)
    requires layout.Valid() && 0 < blockSize <= WORD_LIMIT / 2
    ensures fresh(segment) && fresh(segment.bitmap) && fresh(segment.refCounts)
    ensures segment.bitmap != segment.refCounts && segment.Valid() && segment.next == null
    ensures segment.blockSize == blockSize && segment.capacity == SlotsPerSegment(blockSize, layout) && segment.Used() == {}
    ensures segment.storageSize == Times(segment.capacity, blockSize) < WORD_LIMIT
  {
    hide IsPow2, LeastPow2;
    var storageBytes := StorageBytes(blockSize, layout);
    var slotCount := SlotCount(storageBytes, blockSize);
    segment := new Segment(blockSize, slotCount, slotCount * blockSize);
  }

  function SlotCount(bytes: nat, block: nat): (n: nat)
    requires block > 0
    ensures n > 0 && n * block + block > bytes && n * block <= Max(block, bytes)
  {
    Max(1, bytes / block)
  }

  /** The slots of a segment do not overlap and lie inside its storage. */
  lemma SlotsDisjoint(blockSize: nat, capacity: nat, i: nat, j: nat)
    requires i < j < capacity && blockSize > 0
    ensures 0 <= i * blockSize && i * blockSize + blockSize <= j * blockSize
    ensures j * blockSize + blockSize <= capacity * blockSize
  {
    assert (j - i) * blockSize >= blockSize by { AtLeastOnce(j - i, blockSize); }
    assert (capacity - j) * blockSize >= blockSize by { AtLeastOnce(capacity - j, blockSize); }
  }

  // ----- Runs of acquisitions -----

  /** All segments have `c` slots, all but the newest are full, and the newest has its first `j` slots taken. */
  ghost predicate Packed(states: seq<SegmentState>, c: nat, j: nat) {
    && 0 < j <= c && (states == [] ==> j == c)
    && (forall i :: 0 <= i < |states| ==> states[i].capacity == c)
    && (forall i :: 0 <= i < |states| - 1 ==> Full(states[i]))
    && (states != [] ==> states[|states| - 1].used == UpTo(j))
  }

  /** The next slot of a packed bucket is the next one of its newest segment. */
  lemma PackedTakes(states: seq<SegmentState>, states': seq<SegmentState>, c: nat, j: nat, at: nat, index: nat)
    requires Packed(states, c, j) && Allocated(states, states', at, index)
    ensures at == |states| - 1 && index == j < c && Packed(states', c, j + 1)
  {
    var used, used' := states[at].used, states'[at].used;
    assert !Full(states[at]) && at == |states| - 1;
    Interval(used, j);
    assert index >= j by { assert index !in used; }
    assert j < index ==> j in used;
    assert used' == UpTo(j + 1);
  }

  /** A new segment is added to a packed bucket only when its newest one is full. */
  lemma PackedGrows(states: seq<SegmentState>, states': seq<SegmentState>, c: nat, j: nat, index: nat)
    requires Packed(states, c, j) && AllocatedNew(states, states', index) && states'[|states|].capacity == c
    ensures j == c && index == 0 && Packed(states', c, 1)
  {
    var n := |states|;
    Interval(UpTo(j), j);
    assert states != [] ==> Full(states[n - 1]);
    assert states'[n].used == UpTo(1);
    forall i | 0 <= i < n
      ensures states'[i] == states[i] && Full(states[i])
    {
      assert states'[..n][i] == states[i];
    }
  }

  /** Allocation `k` got slot k mod c of segment k div c. */
  ghost predicate InTurn(segments: seq<Segment>, slots: seq<(Segment, nat)>, c: nat) {
    c > 0 && forall k: nat :: k < |slots| ==> PlacedAt(segments, slots[k], k / c, k % c)
  }

  ghost predicate PlacedAt(segments: seq<Segment>, slot: (Segment, nat), at: nat, index: nat) {
    at < |segments| && slot == (segments[at], index)
  }

  lemma NoneInTurn(c: nat)
    requires c > 0
    ensures Packed([], c, c) && Times(-1, c) + c == 0 && InTurn([], [], c)
  {
  }

  lemma NextInTurn(segments: seq<Segment>, segments': seq<Segment>, slots: seq<(Segment, nat)>, c: nat, j: nat)
    requires InTurn(segments, slots, c) && segments <= segments' && 0 < j <= c && |slots| == Times(|segments| - 1, c) + j
    requires |segments'| == |segments| + if j < c then 0 else 1
    requires |segments'| > 0
    ensures InTurn(segments', slots + [(segments'[|segments'| - 1], if j < c then j else 0)], c)
    ensures |slots| + 1 == Times(|segments'| - 1, c) + if j < c then j + 1 else 1
  {
    var k, at := |slots|, |segments'| - 1;
    if j == c { assert Times(at - 1, c) + c == Times(at, c); }
    Remainder(k, c, at, if j < c then j else 0);
    var slots' := slots + [(segments'[at], if j < c then j else 0)];
    forall i: nat | i < |slots'|
      ensures PlacedAt(segments', slots'[i], i / c, i % c)
    {
      if i < k { assert PlacedAt(segments, slots[i], i / c, i % c); }
    }
  }

  lemma SegmentsNeeded(n: nat, c: nat, full: int, j: nat)
    requires 0 < j <= c && n == Times(full, c) + j
    ensures (n + c - 1) / c == full + 1
  {
    Remainder(n + c - 1, c, full + 1, j - 1);
  }

  /** An allocation from a packed bucket. */
  method AcquireNext(bucket: Bucket, layout: Layout, ghost c: nat, ghost j: nat) returns (segment: Segment, slotIndex: nat)
    requires bucket.Valid() && layout.Valid() && 0 < bucket.blockSize <= WORD_LIMIT / 2
    requires Packed(bucket.states, c, j) && c == SlotsPerSegment(bucket.blockSize, layout)
    modifies bucket, bucket.segments, bucket.arrays
    ensures bucket.Valid() && Packed(bucket.states, c, if j < c then j + 1 else 1)
    ensures forall i :: |old(bucket.segments)| <= i < |bucket.segments| ==> fresh(bucket.segments[i])
    ensures forall a :: a in bucket.arrays ==> a in old(bucket.arrays) || fresh(a)
    ensures |bucket.segments| == |old(bucket.segments)| + if j < c then 0 else 1
    ensures old(bucket.segments) <= bucket.segments && |bucket.segments| > 0
    ensures segment == bucket.segments[|bucket.segments| - 1] && slotIndex == if j < c then j else 0
  {
    hide *;
    hide Bucket.Valid;
    ghost var at;
    bucket.StatesAre();
    segment, slotIndex, at := bucket.Acquire(layout);
    bucket.StatesAre();
    if |bucket.states| == |old(bucket.states)| {
      PackedTakes(old(bucket.states), bucket.states, c, j, at, slotIndex);
    } else {
      PackedGrows(old(bucket.states), bucket.states, c, j, slotIndex);
    }
  }

  /** `n` allocations from an empty bucket, none of which is released, fill its segments one after the other: the
      k-th takes slot k mod c of segment k div c, and there are as many segments as that needs. */
  method AcquireMany(blockSize: nat, layout: Layout, n: nat) returns (bucket: Bucket, slots: seq<(Segment, nat)>)
    requires layout.Valid() && 0 < blockSize <= WORD_LIMIT / 2
    ensures fresh(bucket) && bucket.Valid() && |slots| == n
    ensures InTurn(bucket.segments, slots, SlotsPerSegment(blockSize, layout))
    ensures |bucket.segments| == (n + SlotsPerSegment(blockSize, layout) - 1) / SlotsPerSegment(blockSize, layout)
  {
    hide *;
    ghost var c, j := SlotsPerSegment(blockSize, layout), SlotsPerSegment(blockSize, layout);
    bucket := new Bucket(blockSize);
    bucket.StatesAre();
    slots := [];
    NoneInTurn(c);
    for k := 0 to n
      invariant bucket.Valid() && bucket.blockSize == blockSize && Packed(bucket.states, c, j) && 0 < j <= c
      invariant fresh(bucket) && (forall i :: 0 <= i < |bucket.segments| ==> fresh(bucket.segments[i])) && fresh(bucket.arrays)
      invariant |slots| == k == Times(|bucket.segments| - 1, c) + j && InTurn(bucket.segments, slots, c)
    {
      ghost var segments := bucket.segments;
      var segment, slotIndex := AcquireNext(bucket, layout, c, j);
      NextInTurn(segments, bucket.segments, slots, c, j);
      slots := slots + [(segment, slotIndex)];
      j := if j < c then j + 1 else 1;
    }
    SegmentsNeeded(n, c, |bucket.segments| - 1, j);
  }

  lemma WordInRange(words: seq<nat>, capacity: nat, w: nat)
    requires Fits(words, capacity)
    ensures |words| == (capacity + 63) / 64 && (w < |words| ==> words[w] < WORD_LIMIT)
  {
  }

  lemma FullWordTaken(words: seq<nat>, w: nat)
    requires w < |words| && words[w] == WORD_LIMIT - 1
    ensures forall k: nat :: 64 * w <= k < 64 * (w + 1) ==> k in Taken(words)
  {
    FullWord(words, w);
  }

  lemma LowestFree(words: seq<nat>, w: nat, b: nat)
    requires w < |words| && b < 64 && !Bit(words[w], b) && forall i: nat :: i < b ==> Bit(words[w], i)
    ensures 64 * w + b !in Taken(words) && forall k: nat :: 64 * w <= k < 64 * w + b ==> k in Taken(words)
  {
    LowestInWord(words, w, b);
  }

  /** A scan that finds no free slot has seen all of them taken. */
  lemma AllTaken(words: seq<nat>, capacity: nat)
    requires Fits(words, capacity) && forall k: nat :: k < 64 * |words| && k < capacity ==> k in Taken(words)
    ensures |Taken(words)| == capacity
  {
    TakenBound(words, capacity);
    Interval(Taken(words), capacity);
  }
}
