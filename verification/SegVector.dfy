/** The segmented vector: handles that share control blocks until one of them writes. */
module SegVector {
  import opened MathBits
  import opened Wrappers

  class ControlBlock<T> {
    var segments: seq<array<T>>
    var size: nat
    var segmentCapacity: nat
    var capacity: nat
    var refCount: nat

    constructor (size: nat, segmentCapacity: nat, capacity: nat)
      ensures segments == [] && this.size == size && this.segmentCapacity == segmentCapacity
      ensures this.capacity == capacity && refCount == 1
    {
      segments, refCount := [], 1;
      this.size, this.segmentCapacity, this.capacity := size, segmentCapacity, capacity;
    }
  }

  /** A control block as a value. */
  datatype Block<T> = Block(segments: seq<array<T>>, size: nat, segmentCapacity: nat, capacity: nat, refCount: nat)

  type Blocks<T> = map<ControlBlock<T>, Block<T>>
  type Store<T> = map<array<T>, seq<T>>
  type Handles<T> = map<SegmentVector<T>, ControlBlock?<T>>

  /** All control blocks, segments and handles of one element type, and the free stack they share. */
  datatype Heap<T> = Heap(blocks: Blocks<T>, store: Store<T>, handles: Handles<T>, free: seq<array<T>>) {
    /** The same control blocks and segments exist. */
    ghost predicate SameMemory(before: Heap<T>) {
      blocks.Keys == before.blocks.Keys && store == before.store
    }

    /** No control block and no segment is new. */
    ghost predicate NoMoreMemory(before: Heap<T>) {
      blocks.Keys <= before.blocks.Keys && store == before.store
    }
  }

  // ----- Partition, layout, counts -----

  /** No segment stands at two places of control blocks. */
  ghost predicate OnePlace<T>(blocks: Blocks<T>) {
    && (forall c :: c in blocks ==> Distinct(blocks[c].segments))
    && (forall c, d, a :: c in blocks && d in blocks && a in blocks[c].segments && a in blocks[d].segments ==> c == d)
  }

  ghost predicate NotFree<T>(blocks: Blocks<T>, store: Store<T>, free: seq<array<T>>) {
    && (forall c, a :: c in blocks && a in blocks[c].segments ==> a in store && a !in free)
    && Distinct(free) && (forall a :: a in free ==> a in store)
  }

  ghost predicate Covered<T>(blocks: Blocks<T>, store: Store<T>, free: seq<array<T>>) {
    forall a :: a in store ==> a in free || exists c :: c in blocks && a in blocks[c].segments
  }

  /** Every segment belongs to one control block, at one place, or else to the free stack. */
  ghost predicate Partition<T>(blocks: Blocks<T>, store: Store<T>, free: seq<array<T>>) {
    OnePlace(blocks) && NotFree(blocks, store, free) && Covered(blocks, store, free)
  }

  ghost predicate Lengths<T>(store: Store<T>, n: nat) { forall a :: a in store ==> |store[a]| == n }

  /** The sizes of a block agree: as many cells as its segments have, no more elements than cells, and never
      more than one segment of cells without elements. */
  ghost predicate Laid<T>(b: Block<T>, n: nat) {
    && n > 0 && b.capacity == |b.segments| * n && b.size <= b.capacity <= b.size + n
    && |b.segments| <= b.segmentCapacity && b.segmentCapacity > 0
  }

  ghost function SharedBy<T>(handles: Handles<T>, c: ControlBlock<T>): set<SegmentVector<T>> {
    set v | v in handles && handles[v] == c
  }

  /** The reference count of a block is the number of handles that share it. */
  ghost predicate RefCounts<T>(blocks: Blocks<T>, handles: Handles<T>) {
    && (forall v :: v in handles && handles[v] != null ==> handles[v] in blocks)
    && (forall c :: c in blocks ==> blocks[c].refCount == |SharedBy(handles, c)| && blocks[c].refCount > 0)
  }

  ghost predicate Sound<T>(h: Heap<T>, n: nat) {
    && Partition(h.blocks, h.store, h.free) && Lengths(h.store, n) && RefCounts(h.blocks, h.handles)
    && forall c :: c in h.blocks ==> Laid(h.blocks[c], n)
  }

  // ----- Contents -----

  lemma InSegments(i: nat, count: nat, n: nat)
    requires n > 0 && i < count * n
    ensures 0 <= i / n < count && 0 <= i % n < n
  {
    var q := i / n;
    assert i == q * n + i % n;
    assert count <= q ==> count * n <= q * n;
  }

  ghost predicate Readable<T>(b: Block<T>, store: Store<T>, n: nat) {
    Laid(b, n) && forall a :: a in b.segments ==> a in store && |store[a]| == n
  }

  ghost function Cell<T>(b: Block<T>, store: Store<T>, n: nat, i: nat): T
    requires Readable(b, store, n) && i < b.capacity
  {
    InSegments(i, |b.segments|, n);
    store[b.segments[i / n]][i % n]
  }

  ghost function BlockValues<T>(b: Block<T>, store: Store<T>, n: nat): seq<T>
    requires Readable(b, store, n)
  {
    seq(b.size, i requires 0 <= i < b.size => Cell(b, store, n, i))
  }

  lemma SoundReadable<T>(h: Heap<T>, n: nat, c: ControlBlock<T>)
    requires Sound(h, n) && c in h.blocks
    ensures Readable(h.blocks[c], h.store, n)
  {
  }

  /** The sequences of all handles that have not been moved from. */
  ghost function Values<T>(h: Heap<T>, n: nat): (r: map<SegmentVector<T>, seq<T>>)
    requires Sound(h, n)
  {
    map v | v in h.handles && h.handles[v] != null :: (SoundReadable(h, n, h.handles[v]); BlockValues(h.blocks[h.handles[v]], h.store, n))
  }

  ghost predicate SoundBlock<T>(h: Heap<T>, n: nat, c: ControlBlock?<T>) {
    c != null && c in h.blocks && Readable(h.blocks[c], h.store, n)
  }

  // ----- Changes of the heap -----

  /** The segment that the free stack or the allocator hands out next. */
  ghost predicate NextSegment<T>(h: Heap<T>, a: array<T>) {
    if h.free != [] then a == h.free[|h.free| - 1] else a !in h.store
  }

  /** The segment leaves the free stack, or comes from the allocator. */
  ghost function SegmentTaken<T>(h: Heap<T>, a: array<T>, data: seq<T>): Heap<T> {
    h.(store := if h.free != [] then h.store else h.store[a := data],
       free := if h.free != [] then h.free[..|h.free| - 1] else h.free)
  }

  /** A block gets one more segment. */
  ghost function WithSegment<T>(h: Heap<T>, c: ControlBlock<T>, a: array<T>, data: seq<T>): Heap<T>
    requires c in h.blocks
  {
    var b := h.blocks[c];
    SegmentTaken(h, a, data).(blocks := h.blocks[c := b.(segments := b.segments + [a])])
  }

  lemma DistinctAppended<T>(s: seq<T>, x: T)
    requires Distinct(s) && x !in s
    ensures Distinct(s + [x])
  {
  }

  lemma DistinctTop<T>(s: seq<T>)
    requires Distinct(s) && s != []
    ensures Distinct(s[..|s| - 1]) && s[|s| - 1] !in s[..|s| - 1]
    ensures forall x :: x in s <==> x in s[..|s| - 1] || x == s[|s| - 1]
  {
    assert s == s[..|s| - 1] + [s[|s| - 1]];
  }

  lemma NextSegmentLoose<T>(h: Heap<T>, a: array<T>, n: nat)
    requires NotFree(h.blocks, h.store, h.free) && NextSegment(h, a) && Lengths(h.store, n)
    ensures a in h.store ==> |h.store[a]| == n
    ensures forall d :: d in h.blocks ==> a !in h.blocks[d].segments
    ensures h.free != [] ==> a in h.free && a in h.store
  {
    if h.free != [] { assert a in h.free; }
  }

  lemma OnePlaceMore<T>(blocks: Blocks<T>, c: ControlBlock<T>, b: Block<T>, a: array<T>)
    requires OnePlace(blocks) && c in blocks && b.segments == blocks[c].segments + [a]
    requires forall d :: d in blocks ==> a !in blocks[d].segments
    ensures OnePlace(blocks[c := b])
  {
    hide Distinct;
    DistinctAppended(blocks[c].segments, a);
    var blocks' := blocks[c := b];
    forall d, e, x | d in blocks' && e in blocks' && x in blocks'[d].segments && x in blocks'[e].segments
      ensures d == e
    {
      if x != a { assert x in blocks[d].segments && x in blocks[e].segments; }
    }
  }

  lemma WithSegmentKeeps<T>(h: Heap<T>, c: ControlBlock<T>, a: array<T>, data: seq<T>, n: nat)
    requires Partition(h.blocks, h.store, h.free) && Lengths(h.store, n) && c in h.blocks && NextSegment(h, a) && |data| == n
    ensures var h' := WithSegment(h, c, a, data);
      && Partition(h'.blocks, h'.store, h'.free) && Lengths(h'.store, n) && a in h'.store
      && (forall x :: x in h.store ==> x in h'.store && h'.store[x] == h.store[x])
      && (forall d :: d in h.blocks ==> a !in h.blocks[d].segments)
  {
    hide Distinct, OnePlace;
    var h' := WithSegment(h, c, a, data);
    NextSegmentLoose(h, a, n);
    OnePlaceMore(h.blocks, c, h'.blocks[c], a);
    if h.free != [] { DistinctTop(h.free); }
    assert forall x :: x in h'.blocks[c].segments <==> x in h.blocks[c].segments || x == a;
    forall d, x | d in h'.blocks && x in h'.blocks[d].segments
      ensures x in h'.store && x !in h'.free
    {
      if x != a { assert x in h.blocks[d].segments; }
    }
    forall x | x in h'.store
      ensures x in h'.free || exists d :: d in h'.blocks && x in h'.blocks[d].segments
    {
      if x == a {
        assert x in h'.blocks[c].segments;
      } else if x !in h.free {
        var d :| d in h.blocks && x in h.blocks[d].segments;
        assert x in h'.blocks[d].segments;
      }
    }
  }

  // ----- Copying a block -----

  /** Segments of the blocks of `h0` have kept their contents. */
  ghost predicate Kept<T>(h0: Heap<T>, h: Heap<T>) {
    forall d, a :: d in h0.blocks && a in h0.blocks[d].segments ==> a in h0.store && a in h.store && h.store[a] == h0.store[a]
  }

  /** The first `i` segments of block `o` have been copied into the new block `c`. */
  ghost predicate CopiedSoFar<T>(h0: Heap<T>, h: Heap<T>, c: ControlBlock<T>, o: Block<T>, i: nat, n: nat) {
    && c !in h0.blocks && c in h.blocks && h.handles == h0.handles && |h.blocks[c].segments| == i <= |o.segments|
    && h.blocks == h0.blocks[c := o.(segments := h.blocks[c].segments, refCount := 1)]
    && Partition(h.blocks, h.store, h.free) && Lengths(h.store, n) && Kept(h0, h)
    && SameCells(h.blocks[c].segments, h.store, o.segments[..i], h0.store)
  }

  /** The same contents, segment by segment. */
  ghost predicate SameCells<T>(s: seq<array<T>>, store: Store<T>, s0: seq<array<T>>, store0: Store<T>) {
    |s| == |s0| && forall k :: 0 <= k < |s| ==> s[k] in store && s0[k] in store0 && store[s[k]] == store0[s0[k]]
  }

  lemma CopyStarts<T>(h0: Heap<T>, c: ControlBlock<T>, o: Block<T>, n: nat)
    requires Partition(h0.blocks, h0.store, h0.free) && Lengths(h0.store, n) && c !in h0.blocks
    ensures CopiedSoFar(h0, h0.(blocks := h0.blocks[c := o.(segments := [], refCount := 1)]), c, o, 0, n)
  {
    var blocks' := h0.blocks[c := o.(segments := [], refCount := 1)];
    forall a | a in h0.store
      ensures a in h0.free || exists d :: d in blocks' && a in blocks'[d].segments
    {
      if a !in h0.free {
        var d :| d in h0.blocks && a in h0.blocks[d].segments;
        assert a in blocks'[d].segments;
      }
    }
  }

  lemma CopyStep<T>(h0: Heap<T>, h: Heap<T>, c: ControlBlock<T>, o: Block<T>, i: nat, n: nat, a: array<T>, data: seq<T>, d: ControlBlock<T>)
    requires CopiedSoFar(h0, h, c, o, i, n) && i < |o.segments| && NextSegment(h, a) && |data| == n
    requires d in h0.blocks && h0.blocks[d] == o
    ensures var h1 := WithSegment(h, c, a, data);
      && o.segments[i] in h1.store && a in h1.store && a != o.segments[i] && |h1.store[o.segments[i]]| == n
      && CopiedSoFar(h0, h1.(store := h1.store[a := h1.store[o.segments[i]]]), c, o, i + 1, n)
  {
    hide OnePlace, NotFree, Covered;
    var h1 := WithSegment(h, c, a, data);
    WithSegmentKeeps(h, c, a, data, n);
    var source := o.segments[i];
    assert source in h0.blocks[d].segments && h.blocks[d] == o;
    var h2 := h1.(store := h1.store[a := h1.store[source]]);
    StoreKeys(h1.blocks, h1.store, h1.free, h2.store);
    CopyKept(h0, h, h2, a);
    assert o.segments[..i + 1] == o.segments[..i] + [source];
    CopiedOneMore(h, h2, c, o, i, h0.store, a);
  }

  lemma CopiedOneMore<T>(h: Heap<T>, h2: Heap<T>, c: ControlBlock<T>, o: Block<T>, i: nat, store0: Store<T>, a: array<T>)
    requires c in h.blocks && c in h2.blocks && h2.blocks[c].segments == h.blocks[c].segments + [a] && a !in h.blocks[c].segments
    requires i < |o.segments| && SameCells(h.blocks[c].segments, h.store, o.segments[..i], store0)
    requires forall x :: x in h.store && x != a ==> x in h2.store && h2.store[x] == h.store[x]
    requires a in h2.store && o.segments[i] in store0 && h2.store[a] == store0[o.segments[i]]
    ensures SameCells(h2.blocks[c].segments, h2.store, o.segments[..i + 1], store0)
  {
  }

  lemma StoreKeys<T>(blocks: Blocks<T>, store: Store<T>, free: seq<array<T>>, store': Store<T>)
    requires Partition(blocks, store, free) && forall a :: a in store <==> a in store'
    ensures Partition(blocks, store', free)
  {
    hide OnePlace;
  }

  lemma CopyKept<T>(h0: Heap<T>, h: Heap<T>, h2: Heap<T>, a: array<T>)
    requires Kept(h0, h) && (forall x :: x in h.store && x != a ==> x in h2.store && h2.store[x] == h.store[x])
    requires forall d :: d in h0.blocks ==> d in h.blocks && h.blocks[d] == h0.blocks[d] && a !in h.blocks[d].segments
    ensures Kept(h0, h2)
  {
  }

  /** Blocks with the same cells and size hold the same sequence. */
  lemma SameValues<T>(b: Block<T>, store: Store<T>, b0: Block<T>, store0: Store<T>, n: nat)
    requires Readable(b0, store0, n) && SameCells(b.segments, store, b0.segments, store0)
    requires b.size == b0.size && b.capacity == b0.capacity && b.segmentCapacity == b0.segmentCapacity
    ensures Readable(b, store, n) && BlockValues(b, store, n) == BlockValues(b0, store0, n)
  {
    forall a | a in b.segments
      ensures a in store && |store[a]| == n
    {
      var k :| 0 <= k < |b.segments| && b.segments[k] == a;
      assert b0.segments[k] in b0.segments;
    }
    forall i | 0 <= i < b.size
      ensures Cell(b, store, n, i) == Cell(b0, store0, n, i)
    {
      InSegments(i, |b.segments|, n);
    }
  }

  // ----- Sharing -----

  /** Redirecting one handle moves it from the sharers of its old block to those of the new one. */
  lemma SharedAfter<T>(handles: Handles<T>, v: SegmentVector<T>, x: ControlBlock?<T>, d: ControlBlock<T>)
    ensures |SharedBy(handles[v := x], d)| ==
      |SharedBy(handles, d)| - (if v in handles && handles[v] == d then 1 else 0) + (if d == x then 1 else 0)
  {
    var without := SharedBy(handles, d) - {v};
    assert SharedBy(handles[v := x], d) == if d == x then without + {v} else without;
    if v in handles && handles[v] == d { assert SharedBy(handles, d) == without + {v}; } else { assert SharedBy(handles, d) == without; }
  }

  /** The handles that have not been moved from. */
  ghost function Live<T>(handles: Handles<T>): set<SegmentVector<T>> {
    set v | v in handles && handles[v] != null
  }

  ghost predicate Holds<T>(h: Heap<T>, n: nat, v: SegmentVector<T>, s: seq<T>) {
    v in h.handles && SoundBlock(h, n, h.handles[v]) && s == BlockValues(h.blocks[h.handles[v]], h.store, n)
  }

  /** A map that gives every live handle the sequence of its block is the map of values. */
  lemma ValuesAre<T>(h: Heap<T>, n: nat, r: map<SegmentVector<T>, seq<T>>)
    requires Sound(h, n) && r.Keys == Live(h.handles) && forall v :: v in r ==> Holds(h, n, v, r[v])
    ensures Values(h, n) == r
  {
  }

  lemma ValuesKeys<T>(h: Heap<T>, n: nat)
    requires Sound(h, n)
    ensures Values(h, n).Keys == Live(h.handles)
    ensures forall v :: v in Values(h, n) ==> Holds(h, n, v, Values(h, n)[v])
  {
    forall v | v in Values(h, n)
      ensures Holds(h, n, v, Values(h, n)[v])
    {
      SoundReadable(h, n, h.handles[v]);
    }
  }

  /** Only the handles and counts differ. */
  ghost predicate SameButCounts<T>(blocks: Blocks<T>, blocks': Blocks<T>) {
    forall d :: d in blocks' ==> d in blocks && blocks'[d] == blocks[d].(refCount := blocks'[d].refCount)
  }

  lemma SameButCountsPartition<T>(blocks: Blocks<T>, blocks': Blocks<T>, store: Store<T>, free: seq<array<T>>)
    requires Partition(blocks, store, free) && SameButCounts(blocks, blocks') && forall d :: d in blocks ==> d in blocks'
    ensures Partition(blocks', store, free)
  {
    hide Distinct;
    forall a | a in store
      ensures a in free || exists d :: d in blocks' && a in blocks'[d].segments
    {
      if a !in free {
        var d :| d in blocks && a in blocks[d].segments;
        assert a in blocks'[d].segments;
      }
    }
  }

  ghost function Attached<T>(h: Heap<T>, v: SegmentVector<T>, c: ControlBlock<T>): Heap<T>
    requires c in h.blocks
  {
    h.(blocks := h.blocks[c := h.blocks[c].(refCount := h.blocks[c].refCount + 1)], handles := h.handles[v := c])
  }

  lemma AttachedCounts<T>(blocks: Blocks<T>, handles: Handles<T>, v: SegmentVector<T>, c: ControlBlock<T>)
    requires RefCounts(blocks, handles) && c in blocks && (v in handles ==> handles[v] == null)
    ensures RefCounts(blocks[c := blocks[c].(refCount := blocks[c].refCount + 1)], handles[v := c])
  {
    hide SharedBy;
    forall d | d in blocks { SharedAfter(handles, v, c, d); }
  }

  /** A handle without a block comes to share one. */
  lemma AttachedSound<T>(h: Heap<T>, v: SegmentVector<T>, c: ControlBlock<T>, n: nat)
    requires Sound(h, n) && c in h.blocks && (v in h.handles ==> h.handles[v] == null)
    ensures Sound(Attached(h, v, c), n) && SoundBlock(h, n, c)
    ensures Values(Attached(h, v, c), n) == Values(h, n)[v := BlockValues(h.blocks[c], h.store, n)]
  {
    hide Partition, RefCounts, BlockValues, Readable, Values, Lengths;
    var h' := Attached(h, v, c);
    AttachedCounts(h.blocks, h.handles, v, c);
    SameButCountsPartition(h.blocks, h'.blocks, h.store, h.free);
    SoundReadable(h, n, c);
    CountedSame(h, h', n);
    ValuesKeys(h, n);
    ValuesAre(h', n, Values(h, n)[v := BlockValues(h.blocks[c], h.store, n)]);
  }

  /** The count of a block does not show in its contents. */
  lemma CountedSame<T>(h: Heap<T>, h': Heap<T>, n: nat)
    requires SameButCounts(h.blocks, h'.blocks) && h.store == h'.store
    ensures forall d :: d in h'.blocks && Readable(h.blocks[d], h.store, n) ==>
      Readable(h'.blocks[d], h'.store, n) && BlockValues(h'.blocks[d], h'.store, n) == BlockValues(h.blocks[d], h.store, n)
  {
    forall d | d in h'.blocks && Readable(h.blocks[d], h.store, n)
      ensures Readable(h'.blocks[d], h'.store, n) && BlockValues(h'.blocks[d], h'.store, n) == BlockValues(h.blocks[d], h.store, n)
    {
      SameValues(h'.blocks[d], h'.store, h.blocks[d], h.store, n);
    }
  }

  // ----- Releasing -----

  /** A handle lets go of its block; the last one sends the segments to the free stack. */
  ghost function Released<T>(h: Heap<T>, v: SegmentVector<T>): Heap<T>
    requires v in h.handles && h.handles[v] != null && h.handles[v] in h.blocks && h.blocks[h.handles[v]].refCount > 0
  {
    var c := h.handles[v];
    var b := h.blocks[c];
    if b.refCount > 1 then h.(blocks := h.blocks[c := b.(refCount := b.refCount - 1)], handles := h.handles[v := null])
    else h.(blocks := h.blocks - {c}, handles := h.handles[v := null], free := h.free + b.segments)
  }

  lemma PartitionFreed<T>(blocks: Blocks<T>, store: Store<T>, free: seq<array<T>>, c: ControlBlock<T>)
    requires Partition(blocks, store, free) && c in blocks
    ensures Partition(blocks - {c}, store, free + blocks[c].segments)
  {
    hide Distinct;
    JoinedDistinct(free, blocks[c].segments, |free|);
    assert free[..|free|] + blocks[c].segments + free[|free|..] == free + blocks[c].segments;
    forall a | a in store
      ensures a in free + blocks[c].segments || exists d :: d in blocks - {c} && a in blocks[d].segments
    {
      if a !in free + blocks[c].segments {
        var d :| d in blocks && a in blocks[d].segments;
        assert d in blocks - {c} && a in blocks[d].segments;
      }
    }
  }

  lemma ReleasedCounts<T>(blocks: Blocks<T>, handles: Handles<T>, v: SegmentVector<T>, c: ControlBlock<T>)
    requires RefCounts(blocks, handles) && c in blocks && v in handles && handles[v] == c
    ensures blocks[c].refCount > 1 ==> RefCounts(blocks[c := blocks[c].(refCount := blocks[c].refCount - 1)], handles[v := null])
    ensures blocks[c].refCount == 1 ==> RefCounts(blocks - {c}, handles[v := null])
    ensures blocks[c].refCount == 1 ==> forall u :: u in handles && u != v ==> handles[u] != c
  {
    OnlySharer(blocks, handles, v, c);
    hide SharedBy;
    forall d | d in blocks { SharedAfter(handles, v, null, d); }
  }

  lemma OnlySharer<T>(blocks: Blocks<T>, handles: Handles<T>, v: SegmentVector<T>, c: ControlBlock<T>)
    requires RefCounts(blocks, handles) && c in blocks && v in handles && handles[v] == c
    ensures blocks[c].refCount == 1 ==> forall u :: u in handles && u != v ==> handles[u] != c
  {
    if blocks[c].refCount == 1 {
      var s := SharedBy(handles, c);
      assert v in s;
      assert |s - {v}| == 0;
      assert forall u :: u in handles && u != v && handles[u] == c ==> u in s - {v};
    }
  }

  lemma ReleasedSound<T>(h: Heap<T>, v: SegmentVector<T>, n: nat)
    requires Sound(h, n) && v in h.handles && h.handles[v] != null
    ensures h.handles[v] in h.blocks && h.blocks[h.handles[v]].refCount > 0
    ensures Sound(Released(h, v), n) && Values(Released(h, v), n) == Values(h, n) - {v}
  {
    ReleasedOk(h, v, n);
    hide Partition, RefCounts, BlockValues, Readable, Values, Lengths;
    var h', c := Released(h, v), h.handles[v];
    ReleasedCounts(h.blocks, h.handles, v, c);
    if h.blocks[c].refCount > 1 {
      SameButCountsPartition(h.blocks, h'.blocks, h.store, h.free);
    } else {
      PartitionFreed(h.blocks, h.store, h.free, c);
    }
    CountedSame(h, h', n);
    ValuesKeys(h, n);
    ValuesAre(h', n, Values(h, n) - {v});
  }

  lemma ReleasedOk<T>(h: Heap<T>, v: SegmentVector<T>, n: nat)
    requires Sound(h, n) && v in h.handles && h.handles[v] != null
    ensures h.handles[v] in h.blocks && h.blocks[h.handles[v]].refCount > 0
  {
  }

  // ----- Other changes of handles -----

  ghost function Created<T>(h: Heap<T>, v: SegmentVector<T>, c: ControlBlock<T>): Heap<T> {
    h.(blocks := h.blocks[c := Block([], 0, 4, 0, 1)], handles := h.handles[v := c])
  }

  lemma CreatedSound<T>(h: Heap<T>, v: SegmentVector<T>, c: ControlBlock<T>, n: nat)
    requires Sound(h, n) && n > 0 && c !in h.blocks && v !in h.handles
    ensures Sound(Created(h, v, c), n) && Values(Created(h, v, c), n) == Values(h, n)[v := []]
  {
    hide BlockValues, Values, Lengths, Distinct;
    var h' := Created(h, v, c);
    CreatedPartition(h.blocks, h.store, h.free, c);
    CreatedCounts(h.blocks, h.handles, v, c);
    hide Partition, RefCounts;
    ValuesKeys(h, n);
    NothingIn(h'.blocks[c], h'.store, n);
    ValuesAre(h', n, Values(h, n)[v := []]);
  }

  lemma NothingIn<T>(b: Block<T>, store: Store<T>, n: nat)
    requires b == Block([], 0, 4, 0, b.refCount) && n > 0
    ensures Readable(b, store, n) && BlockValues(b, store, n) == []
  {
  }

  lemma CreatedPartition<T>(blocks: Blocks<T>, store: Store<T>, free: seq<array<T>>, c: ControlBlock<T>)
    requires Partition(blocks, store, free) && c !in blocks
    ensures Partition(blocks[c := Block([], 0, 4, 0, 1)], store, free)
  {
    var blocks' := blocks[c := Block([], 0, 4, 0, 1)];
    forall a | a in store
      ensures a in free || exists d :: d in blocks' && a in blocks'[d].segments
    {
      if a !in free {
        var d :| d in blocks && a in blocks[d].segments;
        assert a in blocks'[d].segments;
      }
    }
  }

  lemma CreatedCounts<T>(blocks: Blocks<T>, handles: Handles<T>, v: SegmentVector<T>, c: ControlBlock<T>)
    requires RefCounts(blocks, handles) && c !in blocks && v !in handles
    ensures RefCounts(blocks[c := Block([], 0, 4, 0, 1)], handles[v := c])
  {
    assert SharedBy(handles, c) == {};
    hide SharedBy;
    SharedAfter(handles, v, c, c);
    forall d | d in blocks { SharedAfter(handles, v, c, d); }
  }

  /** A moved-from handle gives its block to another one. */
  ghost function Transferred<T>(h: Heap<T>, from: SegmentVector<T>, to: SegmentVector<T>): Heap<T>
    requires from in h.handles
  {
    h.(handles := h.handles[to := h.handles[from]][from := null])
  }

  lemma TransferredSound<T>(h: Heap<T>, from: SegmentVector<T>, to: SegmentVector<T>, n: nat)
    requires Sound(h, n) && from in h.handles && from != to && (to in h.handles ==> h.handles[to] == null)
    ensures Sound(Transferred(h, from, to), n)
    ensures Values(Transferred(h, from, to), n) ==
      if from in Values(h, n) then Values(h, n)[to := Values(h, n)[from]] - {from} else Values(h, n)
  {
    hide Partition, BlockValues, Readable, Values, Lengths;
    var h' := Transferred(h, from, to);
    TransferredCounts(h.blocks, h.handles, from, to);
    hide RefCounts;
    ValuesKeys(h, n);
    ValuesAre(h', n, if from in Values(h, n) then Values(h, n)[to := Values(h, n)[from]] - {from} else Values(h, n));
  }

  lemma TransferredCounts<T>(blocks: Blocks<T>, handles: Handles<T>, from: SegmentVector<T>, to: SegmentVector<T>)
    requires RefCounts(blocks, handles) && from in handles && from != to && (to in handles ==> handles[to] == null)
    ensures RefCounts(blocks, handles[to := handles[from]][from := null])
  {
    hide SharedBy;
    var handles' := handles[to := handles[from]][from := null];
    forall d | d in blocks
      ensures |SharedBy(handles', d)| == |SharedBy(handles, d)|
    {
      SharedAfter(handles, to, handles[from], d);
      SharedAfter(handles[to := handles[from]], from, null, d);
    }
  }

  // ----- Detaching -----

  /** A handle turns from a shared block to the copy made of it. */
  ghost function Detached<T>(h: Heap<T>, v: SegmentVector<T>, c: ControlBlock<T>, copy: ControlBlock<T>): Heap<T>
    requires c in h.blocks && h.blocks[c].refCount > 0
  {
    h.(blocks := h.blocks[c := h.blocks[c].(refCount := h.blocks[c].refCount - 1)], handles := h.handles[v := copy])
  }

  lemma DetachedCounts<T>(blocks0: Blocks<T>, handles: Handles<T>, v: SegmentVector<T>,
          c: ControlBlock<T>, copy: ControlBlock<T>, b: Block<T>)
    requires RefCounts(blocks0, handles) && c in blocks0 && copy !in blocks0 && v in handles && handles[v] == c
    requires blocks0[c].refCount > 1 && b.refCount == 1
    ensures RefCounts(blocks0[copy := b][c := blocks0[c].(refCount := blocks0[c].refCount - 1)], handles[v := copy])
  {
    assert SharedBy(handles, copy) == {};
    hide SharedBy;
    SharedAfter(handles, v, copy, copy);
    var handles' := handles[v := copy];
    forall d | d in blocks0
      ensures |SharedBy(handles', d)| == |SharedBy(handles, d)| - (if d == c then 1 else 0)
    {
      SharedAfter(handles, v, copy, d);
    }
  }

  /** All blocks of before hold what they held, and the copy holds the same as its original. */
  lemma CopiedValues<T>(h0: Heap<T>, h: Heap<T>, c: ControlBlock<T>, copy: ControlBlock<T>, n: nat)
    requires Sound(h0, n) && c in h0.blocks
    requires var o := h0.blocks[c]; CopiedSoFar(h0, h, copy, o, |o.segments|, n)
    ensures forall d :: d in h0.blocks ==>
      Readable(h.blocks[d], h.store, n) && BlockValues(h.blocks[d], h.store, n) == BlockValues(h0.blocks[d], h0.store, n)
    ensures Readable(h.blocks[copy], h.store, n) && BlockValues(h.blocks[copy], h.store, n) == BlockValues(h0.blocks[c], h0.store, n)
  {
    hide BlockValues, Partition;
    var o := h0.blocks[c];
    SoundReadable(h0, n, c);
    assert o.segments[..|o.segments|] == o.segments;
    SameValues(h.blocks[copy], h.store, o, h0.store, n);
    forall d | d in h0.blocks
      ensures Readable(h.blocks[d], h.store, n) && BlockValues(h.blocks[d], h.store, n) == BlockValues(h0.blocks[d], h0.store, n)
    {
      SoundReadable(h0, n, d);
      KeptCells(h0, h, d);
      SameValues(h.blocks[d], h.store, h0.blocks[d], h0.store, n);
    }
  }

  lemma KeptCells<T>(h0: Heap<T>, h: Heap<T>, d: ControlBlock<T>)
    requires Kept(h0, h) && d in h0.blocks
    ensures SameCells(h0.blocks[d].segments, h.store, h0.blocks[d].segments, h0.store)
  {
    forall k | 0 <= k < |h0.blocks[d].segments|
      ensures h0.blocks[d].segments[k] in h0.store && h0.blocks[d].segments[k] in h.store
      ensures h.store[h0.blocks[d].segments[k]] == h0.store[h0.blocks[d].segments[k]]
    {
      assert h0.blocks[d].segments[k] in h0.blocks[d].segments;
    }
  }

  /** Detaching changes no sequence, and leaves the handle alone with its block. */
  lemma DetachedSound<T>(h0: Heap<T>, h: Heap<T>, v: SegmentVector<T>, copy: ControlBlock<T>, n: nat)
    requires Sound(h0, n) && v in h0.handles && h0.handles[v] != null && h0.handles[v] in h0.blocks
    requires h0.blocks[h0.handles[v]].refCount > 1
    requires var o := h0.blocks[h0.handles[v]]; CopiedSoFar(h0, h, copy, o, |o.segments|, n)
    ensures var h' := Detached(h, v, h0.handles[v], copy);
      Sound(h', n) && Values(h', n) == Values(h0, n) && h'.blocks[copy].refCount == 1
  {
    hide BlockValues, Values, RefCounts, Partition, Lengths, Readable, Kept, SameCells;
    var c := h0.handles[v];
    var h' := Detached(h, v, c, copy);
    CopiedValues(h0, h, c, copy, n);
    DetachedCounts(h0.blocks, h0.handles, v, c, copy, h.blocks[copy]);
    SameButCountsPartition(h.blocks, h'.blocks, h.store, h.free);
    CountedSame(h, h', n);
    DetachedLaid(h0, h, v, copy, n);
    ValuesKeys(h0, n);
    ValuesAre(h', n, Values(h0, n));
  }

  lemma DetachedLaid<T>(h0: Heap<T>, h: Heap<T>, v: SegmentVector<T>, copy: ControlBlock<T>, n: nat)
    requires Sound(h0, n) && v in h0.handles && h0.handles[v] != null && h0.handles[v] in h0.blocks
    requires h0.blocks[h0.handles[v]].refCount > 1
    requires var o := h0.blocks[h0.handles[v]]; CopiedSoFar(h0, h, copy, o, |o.segments|, n)
    ensures var h' := Detached(h, v, h0.handles[v], copy); forall d :: d in h'.blocks ==> Laid(h'.blocks[d], n)
  {
    hide RefCounts, Partition, Lengths, Kept, SameCells;
  }

  // ----- Growing and writing -----

  ghost function DoubledIfFull<T>(b: Block<T>): nat {
    if |b.segments| == b.segmentCapacity then b.segmentCapacity * 2 else b.segmentCapacity
  }

  /** The block as `addSegment` leaves it. */
  ghost function Grown<T>(b: Block<T>, a: array<T>, n: nat): Block<T> {
    Block(b.segments + [a], b.size, DoubledIfFull(b), (|b.segments| + 1) * n, b.refCount)
  }

  /** A full block has a free cell once a segment was added, if and only if segments have cells. */
  lemma GrowsExact<T>(b: Block<T>, a: array<T>, n: nat)
    requires b.size == b.capacity == |b.segments| * n
    ensures Grown(b, a, n).size < Grown(b, a, n).capacity <==> n > 0
  {
    assert (|b.segments| + 1) * n == |b.segments| * n + n;
  }

  ghost function SegmentAdded<T>(h: Heap<T>, c: ControlBlock<T>, a: array<T>, data: seq<T>, n: nat): Heap<T>
    requires c in h.blocks
  {
    var h' := WithSegment(h, c, a, data);
    h'.(blocks := h'.blocks[c := Grown(h.blocks[c], a, n)])
  }

  lemma SegmentAddedSound<T>(h: Heap<T>, c: ControlBlock<T>, a: array<T>, data: seq<T>, n: nat)
    requires Sound(h, n) && c in h.blocks && NextSegment(h, a) && |data| == n && h.blocks[c].size == h.blocks[c].capacity
    ensures var h' := SegmentAdded(h, c, a, data, n);
      Sound(h', n) && Values(h', n) == Values(h, n) && h'.blocks[c].capacity == h.blocks[c].capacity + n
  {
    hide BlockValues, Values, RefCounts, Partition, Lengths;
    var h1, h' := WithSegment(h, c, a, data), SegmentAdded(h, c, a, data, n);
    WithSegmentKeeps(h, c, a, data, n);
    SameSegmentsPartition(h1.blocks, h'.blocks, h1.store, h1.free);
    CountsCopied(h.blocks, h'.blocks, h.handles);
    assert (|h.blocks[c].segments| + 1) * n == |h.blocks[c].segments| * n + n;
    forall d | d in h.blocks
      ensures Readable(h.blocks[d], h.store, n) && Readable(h'.blocks[d], h'.store, n)
      ensures BlockValues(h'.blocks[d], h'.store, n) == BlockValues(h.blocks[d], h.store, n)
    {
      SoundReadable(h, n, d);
      SoundReadable(h', n, d);
      MoreCells(h.blocks[d], h.store, h'.blocks[d], h'.store, n);
    }
    ValuesKeys(h, n);
    hide Readable;
    ValuesAre(h', n, Values(h, n));
  }

  lemma SameSegmentsPartition<T>(blocks: Blocks<T>, blocks': Blocks<T>, store: Store<T>, free: seq<array<T>>)
    requires Partition(blocks, store, free)
    requires forall d :: d in blocks <==> d in blocks'
    requires forall d :: d in blocks ==> blocks'[d].segments == blocks[d].segments
    ensures Partition(blocks', store, free)
  {
    hide Distinct;
    forall a | a in store
      ensures a in free || exists d :: d in blocks' && a in blocks'[d].segments
    {
      if a !in free {
        var d :| d in blocks && a in blocks[d].segments;
        assert a in blocks'[d].segments;
      }
    }
  }

  lemma CountsCopied<T>(blocks: Blocks<T>, blocks': Blocks<T>, handles: Handles<T>)
    requires RefCounts(blocks, handles) && forall d :: d in blocks <==> d in blocks'
    requires forall d :: d in blocks ==> blocks'[d].refCount == blocks[d].refCount
    ensures RefCounts(blocks', handles)
  {
    hide SharedBy;
  }

  /** A block that has gained segments, but no elements, holds the same sequence. */
  lemma MoreCells<T>(b: Block<T>, store: Store<T>, b': Block<T>, store': Store<T>, n: nat)
    requires Readable(b, store, n) && Readable(b', store', n) && b.segments <= b'.segments && b'.size == b.size
    requires forall a :: a in b.segments ==> a in store' && store'[a] == store[a]
    ensures BlockValues(b', store', n) == BlockValues(b, store, n)
  {
    forall i | 0 <= i < b.size
      ensures i < b'.capacity && Cell(b', store', n, i) == Cell(b, store, n, i)
    {
      InSegments(i, |b.segments|, n);
    }
  }

  ghost predicate CanWrite<T>(b: Block<T>, i: nat, grow: bool) { i < b.capacity && (grow ==> b.size < b.capacity) }

  /** Cell `i` of a block is written, and its size may grow by one. */
  ghost function Written<T>(h: Heap<T>, c: ControlBlock<T>, i: nat, value: T, grow: bool, n: nat): Heap<T>
    requires c in h.blocks && Readable(h.blocks[c], h.store, n) && CanWrite(h.blocks[c], i, grow)
  {
    var b := h.blocks[c];
    InSegments(i, |b.segments|, n);
    var a := b.segments[i / n];
    h.(blocks := h.blocks[c := b.(size := if grow then b.size + 1 else b.size)],
       store := h.store[a := h.store[a][i % n := value]])
  }

  lemma SameCell(i: nat, j: nat, n: nat)
    requires n > 0 && i / n == j / n && i % n == j % n
    ensures i == j
  {
    assert i == i / n * n + i % n && j == j / n * n + j % n;
  }

  /** The sequence after cell `i` was written. */
  ghost function Rewritten<T>(b: Block<T>, store: Store<T>, i: nat, value: T, grow: bool, n: nat): seq<T>
    requires Readable(b, store, n) && CanWrite(b, i, grow)
  {
    seq(if grow then b.size + 1 else b.size, k requires 0 <= k < b.capacity => if k == i then value else Cell(b, store, n, k))
  }

  /** A cell past the elements does not show; an added element is the value if its cell was written. */
  lemma RewrittenIs<T>(b: Block<T>, store: Store<T>, i: nat, value: T, grow: bool, n: nat)
    requires Readable(b, store, n) && CanWrite(b, i, grow)
    ensures var s, r := BlockValues(b, store, n), Rewritten(b, store, i, value, grow, n);
      && |r| == (if grow then |s| + 1 else |s|) && r[..|s|] == (if i < |s| then s[i := value] else s)
      && (grow && i == |s| ==> r == s + [value])
  {
  }

  lemma WrittenValues<T>(b: Block<T>, store: Store<T>, i: nat, value: T, grow: bool, n: nat)
    requires Readable(b, store, n) && Distinct(b.segments) && CanWrite(b, i, grow)
    ensures 0 <= i / n < |b.segments| && 0 <= i % n < n
    ensures var a := b.segments[i / n];
      var b', store' := b.(size := if grow then b.size + 1 else b.size), store[a := store[a][i % n := value]];
      && Readable(b', store', n)
      && BlockValues(b', store', n) == Rewritten(b, store, i, value, grow, n)
  {
    InSegments(i, |b.segments|, n);
    var a := b.segments[i / n];
    var b', store' := b.(size := if grow then b.size + 1 else b.size), store[a := store[a][i % n := value]];
    forall j: nat | j < b'.size
      ensures Cell(b', store', n, j) == if j == i then value else Cell(b, store, n, j)
    {
      InSegments(j, |b.segments|, n);
      if j / n == i / n && j % n == i % n { SameCell(i, j, n); }
    }
  }

  /** A write to a block with a single handle changes the sequence of that handle, and no other. */
  lemma WrittenSound<T>(h: Heap<T>, v: SegmentVector<T>, i: nat, value: T, grow: bool, n: nat)
    requires Sound(h, n) && v in h.handles && h.handles[v] != null && h.handles[v] in h.blocks
    requires h.blocks[h.handles[v]].refCount == 1
    requires var b := h.blocks[h.handles[v]]; Readable(b, h.store, n) && CanWrite(b, i, grow)
    ensures var h' := Written(h, h.handles[v], i, value, grow, n);
      && Sound(h', n) && v in Values(h, n)
      && Values(h', n) == Values(h, n)[v := Rewritten(h.blocks[h.handles[v]], h.store, i, value, grow, n)]
  {
    hide BlockValues, Values, RefCounts, Lengths;
    var c := h.handles[v];
    var h' := Written(h, c, i, value, grow, n);
    WrittenValues(h.blocks[c], h.store, i, value, grow, n);
    WrittenSame(h, c, i, value, grow, n);
    SizeOfValues(h.blocks[c], h.store, n);
    OnlyHandle(h, v);
    hide Readable, Partition;
    ValuesKeys(h, n);
    hide Rewritten;
    ValuesAre(h', n, Values(h, n)[v := Rewritten(h.blocks[c], h.store, i, value, grow, n)]);
  }

  lemma OnlyHandle<T>(h: Heap<T>, v: SegmentVector<T>)
    requires RefCounts(h.blocks, h.handles) && v in h.handles && h.handles[v] != null && h.blocks[h.handles[v]].refCount == 1
    ensures forall u :: u in h.handles && u != v ==> h.handles[u] != h.handles[v]
  {
    OnlySharer(h.blocks, h.handles, v, h.handles[v]);
  }

  lemma SizeOfValues<T>(b: Block<T>, store: Store<T>, n: nat)
    requires Readable(b, store, n)
    ensures |BlockValues(b, store, n)| == b.size
  {
  }

  lemma WrittenLaid<T>(h: Heap<T>, c: ControlBlock<T>, i: nat, value: T, grow: bool, n: nat)
    requires Sound(h, n) && c in h.blocks && Readable(h.blocks[c], h.store, n) && CanWrite(h.blocks[c], i, grow)
    ensures var h' := Written(h, c, i, value, grow, n);
      && (forall d :: d in h'.blocks ==> Laid(h'.blocks[d], n)) && Lengths(h'.store, n)
      && (forall a :: a in h.store <==> a in h'.store)
      && (forall d :: d in h.blocks && d != c ==> h'.blocks[d] == h.blocks[d])
      && (forall d :: d in h.blocks <==> d in h'.blocks)
      && h'.blocks[c].segments == h.blocks[c].segments && h'.blocks[c].refCount == h.blocks[c].refCount
  {
    hide RefCounts, Partition;
    InSegments(i, |h.blocks[c].segments|, n);
    assert h.blocks[c].segments[i / n] in h.blocks[c].segments;
  }

  lemma WrittenKeepsSound<T>(h: Heap<T>, c: ControlBlock<T>, i: nat, value: T, grow: bool, n: nat)
    requires Sound(h, n) && c in h.blocks && Readable(h.blocks[c], h.store, n) && CanWrite(h.blocks[c], i, grow)
    ensures Sound(Written(h, c, i, value, grow, n), n)
  {
    WrittenLaid(h, c, i, value, grow, n);
    hide RefCounts, Partition, Lengths, Written, Laid;
    var h' := Written(h, c, i, value, grow, n);
    assert h'.handles == h.handles && h'.free == h.free by { WrittenHandles(h, c, i, value, grow, n); }
    SameSegmentsPartition(h.blocks, h'.blocks, h.store, h.free);
    StoreKeys(h'.blocks, h.store, h.free, h'.store);
    CountsCopied(h.blocks, h'.blocks, h.handles);
  }

  lemma WrittenHandles<T>(h: Heap<T>, c: ControlBlock<T>, i: nat, value: T, grow: bool, n: nat)
    requires c in h.blocks && Readable(h.blocks[c], h.store, n) && CanWrite(h.blocks[c], i, grow)
    ensures var h' := Written(h, c, i, value, grow, n); h'.handles == h.handles && h'.free == h.free
  {
  }

  /** A write leaves the other blocks alone. */
  lemma WrittenSame<T>(h: Heap<T>, c: ControlBlock<T>, i: nat, value: T, grow: bool, n: nat)
    requires Sound(h, n) && c in h.blocks && Readable(h.blocks[c], h.store, n) && CanWrite(h.blocks[c], i, grow)
    ensures var h' := Written(h, c, i, value, grow, n);
      && Sound(h', n)
      && forall d :: d in h.blocks && d != c ==>
        Readable(h.blocks[d], h.store, n) && Readable(h'.blocks[d], h'.store, n)
        && BlockValues(h'.blocks[d], h'.store, n) == BlockValues(h.blocks[d], h.store, n)
  {
    WrittenKeepsSound(h, c, i, value, grow, n);
    WrittenLaid(h, c, i, value, grow, n);
    hide BlockValues, Partition, RefCounts, Written, Laid, Lengths, Readable;
    var h' := Written(h, c, i, value, grow, n);
    forall d | d in h.blocks && d != c
      ensures Readable(h.blocks[d], h.store, n) && Readable(h'.blocks[d], h'.store, n)
      ensures BlockValues(h'.blocks[d], h'.store, n) == BlockValues(h.blocks[d], h.store, n)
    {
      SoundReadable(h, n, d);
      UntouchedCells(h, c, i, value, grow, n, d);
      SameValues(h'.blocks[d], h'.store, h.blocks[d], h.store, n);
    }
  }

  lemma UntouchedCells<T>(h: Heap<T>, c: ControlBlock<T>, i: nat, value: T, grow: bool, n: nat, d: ControlBlock<T>)
    requires Sound(h, n) && c in h.blocks && Readable(h.blocks[c], h.store, n) && CanWrite(h.blocks[c], i, grow)
    requires d in h.blocks && d != c
    ensures SameCells(h.blocks[d].segments, Written(h, c, i, value, grow, n).store, h.blocks[d].segments, h.store)
  {
    InSegments(i, |h.blocks[c].segments|, n);
    var a := h.blocks[c].segments[i / n];
    forall k | 0 <= k < |h.blocks[d].segments|
      ensures h.blocks[d].segments[k] in h.store && h.blocks[d].segments[k] != a
    {
      assert h.blocks[d].segments[k] in h.blocks[d].segments && a in h.blocks[c].segments;
    }
  }

  // ----- Positions -----

  lemma {:induction false} ShiftIsQuotient(w: nat, k: nat)
    ensures ShiftRight(w, k) == w / Pow2(k)
  {
    if k > 0 {
      ShiftIsQuotient(w / 2, k - 1);
      HalfQuotient(w, Pow2(k - 1));
    }
  }

  /** Shift and mask find the segment and the place of index `i`. */
  ghost predicate Addressed(i: nat, n: nat, shift: nat)
    requires n > 0
  {
    ShiftRight(i, shift) == i / n && And(i, n - 1) == i % n
  }

  /** The cell that shift and mask find for index `i`. */
  ghost function CellOf(i: nat, n: nat, shift: nat): nat
    requires n > 0
  {
    ShiftRight(i, shift) * n + And(i, n - 1)
  }

  /** It lies in the same segment as the index or an earlier one. */
  lemma CellInside(i: nat, n: nat, shift: nat, count: nat) returns (cell: nat)
    requires n > 0 && LeastPow2(Pow2(shift), n) && i < count * n
    ensures cell == CellOf(i, n, shift) < count * n && cell / n == ShiftRight(i, shift) && cell % n == And(i, n - 1)
    ensures Addressed(i, n, shift) ==> cell == i
  {
    hide And, ShiftRight;
    cell := CellOf(i, n, shift);
    AndBelow(i, n - 1);
    EarlierSegment(i, n, shift, count);
    CellBelow(ShiftRight(i, shift), And(i, n - 1), n, count);
    Decomposed(i, n);
  }

  lemma EarlierSegment(i: nat, n: nat, shift: nat, count: nat)
    requires n > 0 && LeastPow2(Pow2(shift), n) && i < count * n
    ensures ShiftRight(i, shift) < count
  {
    ShiftIsQuotient(i, shift);
    SmallerQuotient(i, n, Pow2(shift));
    InSegments(i, count, n);
  }

  lemma CellBelow(q: nat, r: nat, n: nat, count: nat)
    requires q < count && r < n
    ensures q * n + r < count * n && (q * n + r) / n == q && (q * n + r) % n == r
  {
    MultiplesOrdered(q + 1, count, n);
    Remainder(q * n + r, n, q, r);
  }

  lemma Decomposed(i: nat, n: nat)
    requires n > 0
    ensures i == i / n * n + i % n && 0 <= i % n < n
  {
  }

  lemma SmallerQuotient(i: nat, n: nat, m: nat)
    requires 0 < n <= m
    ensures i / m <= i / n
  {
    var q, p := i / m, i / n;
    Decomposed(i, m);
    Decomposed(i, n);
    if q > p {
      MultiplesOrdered(p + 1, q, m);
      MultiplesOrdered(n, m, if p + 1 >= 0 then p + 1 else 0);
    }
  }

  /** The sequence `r` is `s` after cell `i` was written: a cell past the elements does not show, and an added element is
      known if its cell was written. */
  ghost predicate WrittenAt<T>(s: seq<T>, r: seq<T>, i: nat, value: T, grow: bool) {
    && |r| == (if grow then |s| + 1 else |s|) && r[..|s|] == (if i < |s| then s[i := value] else s)
    && (grow && i == |s| ==> r == s + [value])
  }

  lemma Appended<T>(s: seq<T>, r: seq<T>, value: T)
    requires WrittenAt(s, r, |s|, value, true)
    ensures r == s + [value]
  {
  }

  lemma Replaced<T>(s: seq<T>, r: seq<T>, i: nat, value: T)
    requires WrittenAt(s, r, i, value, false)
    ensures r == if i < |s| then s[i := value] else s
  {
    assert r[..|s|] == r;
  }

  lemma Address(i: nat, n: nat, shift: nat)
    requires n > 0 && IsPow2(n) && LeastPow2(Pow2(shift), n)
    ensures Addressed(i, n, shift)
  {
    hide And, ShiftRight;
    var k: nat :| n == Pow2(k);
    assert Pow2(shift) <= Pow2(k);
    ShiftIsQuotient(i, shift);
    MaskIsRemainder(i, shift);
  }

  lemma Misaddressed(n: nat, shift: nat)
    requires n > 0 && !IsPow2(n) && LeastPow2(Pow2(shift), n)
    ensures !Addressed(n, n, shift)
  {
    hide And;
    ShiftIsQuotient(n, shift);
    assert Pow2(shift) > n;
    Remainder(n, Pow2(shift), 0, n);
    Remainder(n, n, 1, 0);
  }

  /** They do so for every index if and only if the segment size is a power of two. */
  lemma AddressesExact(n: nat, shift: nat)
    requires n > 0 && LeastPow2(Pow2(shift), n)
    ensures (forall i: nat :: Addressed(i, n, shift)) <==> IsPow2(n)
  {
    hide Addressed;
    if IsPow2(n) {
      forall i: nat
        ensures Addressed(i, n, shift)
      {
        Address(i, n, shift);
      }
    } else {
      Misaddressed(n, shift);
    }
  }

  /** The least shift that covers the segment size. */
  method GetSegmentShift(segmentSize: nat) returns (shift: nat)
    requires segmentSize <= WORD_LIMIT / 2
    ensures LeastPow2(Pow2(shift), segmentSize)
  {
    shift := 0;
    Pow2Word();
    assert Pow2(63) == WORD_LIMIT / 2;
    while ShiftedOne(shift) < segmentSize
      invariant shift <= 63
      invariant forall k: nat :: k < shift ==> Pow2(k) < segmentSize
      decreases 63 - shift
    {
      shift := shift + 1;
    }
    forall k: nat | segmentSize <= Pow2(k)
      ensures Pow2(shift) <= Pow2(k)
    {
      Pow2Monotone(shift, k);
    }
  }

  class SegmentVector<T> {
    const shared: Shared<T>
    var ctrl: ControlBlock?<T>

    constructor (shared: Shared<T>)
      requires shared.Valid()
      modifies shared`heap
      ensures this.shared == shared && shared.Valid() && ctrl != null && fresh(ctrl)
      ensures shared.heap.handles.Keys == old(shared.heap.handles.Keys) + {this}
      ensures shared.Sequences() == old(shared.Sequences())[this := []]
      ensures shared.heap.blocks.Keys == old(shared.heap.blocks.Keys) + {ctrl} && shared.heap.store == old(shared.heap.store)
    {
      hide Sound, Values, LeastPow2, Created;
      this.shared := shared;
      ctrl := new ControlBlock(0, 4, 0);
      new;
      CreatedSound(shared.heap, this, ctrl, shared.segmentSize);
      shared.Enroll(this, ctrl);
    }

    /** The copy shares the block. */
    constructor CopyOf(other: SegmentVector<T>)
      requires other.shared.Valid() && other in other.shared.heap.handles && other.ctrl != null
      modifies other.shared`heap, other.ctrl`refCount
      ensures shared == other.shared && shared.Valid() && ctrl == other.ctrl
      ensures shared.heap.handles.Keys == old(other.shared.heap.handles.Keys) + {this}
      ensures other in old(other.shared.Sequences())
      ensures shared.Sequences() == old(other.shared.Sequences())[this := old(other.shared.Sequences())[other]]
      ensures shared.heap.SameMemory(old(other.shared.heap))
    {
      hide Sound, Values;
      shared := other.shared;
      ctrl := other.ctrl;
      new;
      shared.Attach(this, other);
    }

    method Assign(other: SegmentVector<T>)
      requires shared.Valid() && this in shared.heap.handles && other in shared.heap.handles && ctrl != null && other.ctrl != null
      modifies this`ctrl, shared, ctrl`refCount, other.ctrl`refCount
      ensures shared.Valid() && ctrl == other.ctrl && shared.heap.handles.Keys == old(shared.heap.handles.Keys)
      ensures other in old(shared.Sequences())
      ensures shared.Sequences() == old(shared.Sequences())[this := old(shared.Sequences())[other]]
      ensures shared.heap.NoMoreMemory(old(shared.heap))
    {
      hide Sound, Values, Shared.Recorded;
      shared.LengthOf(this);
      shared.LengthOf(other);
      if this != other {
        Release();
        Share(other);
      }
    }

    /** The handle, which has no block, comes to share that of another. */
    method Share(other: SegmentVector<T>)
      requires shared.Valid() && this in shared.heap.handles && other in shared.heap.handles && this != other
      requires other.ctrl != null && ctrl == null
      modifies this`ctrl, shared`heap, other.ctrl`refCount
      ensures shared.Valid() && ctrl == other.ctrl && shared.heap.handles.Keys == old(shared.heap.handles.Keys)
      ensures other in old(shared.Sequences())
      ensures shared.Sequences() == old(shared.Sequences())[this := old(shared.Sequences())[other]]
      ensures shared.heap.SameMemory(old(shared.heap))
    {
      hide Sound, Values;
      ctrl := other.ctrl;
      shared.Attach(this, other);
    }

    /** The block goes over to the new handle, and the old one has none. */
    constructor MovedFrom(other: SegmentVector<T>)
      requires other.shared.Valid() && other in other.shared.heap.handles
      modifies other.shared`heap, other`ctrl
      ensures shared == other.shared && shared.Valid() && ctrl == old(other.ctrl) && other.ctrl == null
      ensures shared.heap.handles.Keys == old(other.shared.heap.handles.Keys) + {this}
      ensures shared.Sequences() == Moved(old(other.shared.Sequences()), other, this)
      ensures shared.heap.SameMemory(old(other.shared.heap))
    {
      hide Sound, Values;
      shared := other.shared;
      ctrl := other.ctrl;
      new;
      TransferredSound(shared.heap, other, this, shared.segmentSize);
      other.ctrl := null;
      shared.heap := Transferred(shared.heap, other, this);
    }

    method MoveAssign(other: SegmentVector<T>)
      requires shared.Valid() && this in shared.heap.handles && other in shared.heap.handles
      modifies this`ctrl, shared, other`ctrl, shared.heap.blocks.Keys`refCount
      ensures shared.Valid() && shared.heap.handles.Keys == old(shared.heap.handles.Keys)
      ensures this != other ==> ctrl == old(other.ctrl) && other.ctrl == null
      ensures shared.Sequences() ==
        if this == other then old(shared.Sequences()) else Moved(old(shared.Sequences()) - {this}, other, this)
      ensures shared.heap.NoMoreMemory(old(shared.heap))
    {
      hide Sound, Values;
      if this != other {
        LetGo();
        TransferredSound(shared.heap, other, this, shared.segmentSize);
        Take(other);
      }
    }

    method Take(other: SegmentVector<T>)
      requires shared.Recorded() && other in shared.heap.handles && this != other && other.shared == shared
      modifies this`ctrl, shared`heap, other`ctrl
      ensures shared.Recorded() && ctrl == old(other.ctrl) && other.ctrl == null
      ensures shared.heap == Transferred(old(shared.heap), other, this)
    {
      ctrl := other.ctrl;
      other.ctrl := null;
      shared.heap := Transferred(shared.heap, other, this);
    }

    /** `if (ctrl && --ctrl->refCount == 0) freeControlBlock(ctrl)` */
    method LetGo()
      requires shared.Valid() && this in shared.heap.handles
      modifies this`ctrl, shared, shared.heap.blocks.Keys`refCount
      ensures shared.Valid() && shared.heap.handles == old(shared.heap.handles)[this := null]
      ensures shared.Sequences() == old(shared.Sequences()) - {this}
      ensures shared.heap.NoMoreMemory(old(shared.heap))
    {
      hide Sound, Values;
      if ctrl != null {
        shared.BlockOf(this);
        Release();
      } else {
        shared.NoSequence(this);
      }
    }

    method Destroy()
      requires shared.Valid() && this in shared.heap.handles
      modifies this`ctrl, shared, shared.heap.blocks.Keys`refCount
      ensures shared.Valid() && shared.heap.handles.Keys == old(shared.heap.handles.Keys) - {this}
      ensures shared.Sequences() == old(shared.Sequences()) - {this}
      ensures shared.heap.NoMoreMemory(old(shared.heap))
    {
      hide Sound, Values;
      LetGo();
      RemovedSound(shared.heap, this, shared.segmentSize);
      shared.heap := shared.heap.(handles := shared.heap.handles - {this});
    }

    /** The count goes down; the last handle frees the block. The source leaves the pointer as it is until it is
        overwritten or dies. */
    method Release()
      requires shared.Valid() && this in shared.heap.handles && ctrl != null
      modifies this`ctrl, shared, ctrl`refCount
      ensures shared.Valid() && ctrl == null && shared.heap.handles == old(shared.heap.handles)[this := null]
      ensures shared.Sequences() == old(shared.Sequences()) - {this}
      ensures shared.heap.NoMoreMemory(old(shared.heap))
    {
      hide Sound, Values, Shared.Recorded;
      shared.BlockOf(this);
      ReleasedSound(shared.heap, this, shared.segmentSize);
      Uncount();
    }

    method Uncount()
      requires shared.Recorded() && this in shared.heap.handles && ctrl != null && ctrl in shared.heap.blocks && ctrl.refCount > 0
      modifies this`ctrl, shared, ctrl`refCount
      ensures shared.Recorded() && ctrl == null
      ensures old(ctrl) == old(shared.heap).handles[this] && old(shared.heap).blocks[old(ctrl)].refCount > 0
      ensures shared.heap == Released(old(shared.heap), this)
    {
      ctrl.refCount := ctrl.refCount - 1;
      if ctrl.refCount == 0 { shared.FreeControlBlock(ctrl); }
      ctrl := null;
      shared.heap := Released(shared.heap, this);
    }

    /** The handle gets a block of its own if it shares one. */
    method Detach()
      requires shared.Valid() && this in shared.heap.handles
      modifies this`ctrl, shared, shared.heap.blocks.Keys`refCount, shared.heap.store.Keys
      ensures shared.Valid() && shared.heap.handles.Keys == old(shared.heap.handles.Keys)
      ensures shared.Sequences() == old(shared.Sequences())
      ensures fresh(shared.heap.blocks.Keys - old(shared.heap.blocks.Keys)) && fresh(shared.heap.store.Keys - old(shared.heap.store.Keys))
      ensures ctrl == null <==> old(ctrl) == null
      ensures ctrl != null ==> ctrl in shared.heap.blocks && ctrl.refCount == 1
      ensures old(ctrl) != null && old(ctrl.refCount) == 1 ==> ctrl == old(ctrl) && shared.heap == old(shared.heap)
    {
      hide Sound, Values;
      if ctrl != null {
        shared.BlockOf(this);
        if ctrl.refCount > 1 { TurnToCopy(); }
      }
    }

    method TurnToCopy()
      requires shared.Valid() && this in shared.heap.handles && ctrl != null && ctrl.refCount > 1
      modifies this`ctrl, shared, shared.heap.blocks.Keys`refCount, shared.heap.store.Keys
      ensures shared.Valid() && shared.heap.handles.Keys == old(shared.heap.handles.Keys)
      ensures shared.Sequences() == old(shared.Sequences())
      ensures fresh(shared.heap.blocks.Keys - old(shared.heap.blocks.Keys)) && fresh(shared.heap.store.Keys - old(shared.heap.store.Keys))
      ensures ctrl != null && ctrl in shared.heap.blocks && ctrl.refCount == 1
    {
      hide Sound, Values, CopiedSoFar, Shared.Recorded, LeastPow2, Readable, Partition, Lengths, Detached;
      shared.BlockOf(this);
      var newCtrl := shared.DeepCopy(ctrl);
      CopiedFacts(old(shared.heap), shared.heap, newCtrl, old(shared.heap).blocks[ctrl], shared.segmentSize);
      DetachedSound(old(shared.heap), shared.heap, this, newCtrl, shared.segmentSize);
      DetachedKeys(shared.heap, this, ctrl, newCtrl);
      Turn(newCtrl);
      shared.SizesOf(newCtrl);
    }

    /** The size grows by one, and the cell that shift and mask find for the new index is written, in a block that no
        other handle shares. Where they find that index, this adds the value at the end. */
    method PushBack(value: T)
      requires shared.Valid() && this in shared.heap.handles && ctrl != null
      modifies this`ctrl, shared, shared.heap.blocks.Keys, shared.heap.store.Keys
      ensures shared.Valid() && ctrl != null && shared.heap.handles.Keys == old(shared.heap.handles.Keys)
      ensures this in old(shared.Sequences()) && this in shared.Sequences()
      ensures shared.Sequences() == old(shared.Sequences())[this := shared.Sequences()[this]]
      ensures var s := old(shared.Sequences())[this];
        && WrittenAt(s, shared.Sequences()[this], CellOf(|s|, shared.segmentSize, shared.segmentShift), value, true)
        && (Addressed(|s|, shared.segmentSize, shared.segmentShift) ==> shared.Sequences()[this] == s + [value])
      ensures fresh(shared.heap.blocks.Keys - old(shared.heap.blocks.Keys)) && fresh(shared.heap.store.Keys - old(shared.heap.store.Keys))
    {
      hide Sound, Values, Shared.Recorded, LeastPow2, WrittenAt, CellOf, Addressed;
      shared.LengthOf(this);
      MakeRoom();
      shared.BlockOf(this);
      shared.LengthOf(this);
      ghost var s := shared.Sequences()[this];
      ghost var i := CellInside(ctrl.size, shared.segmentSize, shared.segmentShift, |ctrl.segments|);
      shared.Write(this, i, ShiftRight(ctrl.size, shared.segmentShift), And(ctrl.size, shared.segmentMask), value, true);
      if i == |s| { Appended(s, shared.Sequences()[this], value); }
    }

    /** A block of its own with a free cell. */
    method MakeRoom()
      requires shared.Valid() && this in shared.heap.handles && ctrl != null
      modifies this`ctrl, shared, shared.heap.blocks.Keys, shared.heap.store.Keys
      ensures shared.Valid() && shared.heap.handles.Keys == old(shared.heap.handles.Keys)
      ensures shared.Sequences() == old(shared.Sequences())
      ensures fresh(shared.heap.blocks.Keys - old(shared.heap.blocks.Keys)) && fresh(shared.heap.store.Keys - old(shared.heap.store.Keys))
      ensures ctrl != null && ctrl in shared.heap.blocks && ctrl.refCount == 1 && ctrl.size < ctrl.capacity
    {
      hide Sound, Values, Shared.Recorded;
      Detach();
      shared.LengthOf(this);
      if ctrl.size == ctrl.capacity { AddSegment(); }
    }

    /** An assignment through the non-const `operator[]` writes the cell that shift and mask find, which shows in the
        sequence if it is one of an element; an index past the end fails the source's assertion. */
    method Set(idx: nat, value: T)
      requires shared.Valid() && this in shared.heap.handles && ctrl != null && idx < ctrl.size
      modifies this`ctrl, shared, shared.heap.blocks.Keys, shared.heap.store.Keys
      ensures shared.Valid() && ctrl != null && shared.heap.handles.Keys == old(shared.heap.handles.Keys)
      ensures this in old(shared.Sequences()) && idx < |old(shared.Sequences())[this]|
      ensures var s, i := old(shared.Sequences())[this], CellOf(idx, shared.segmentSize, shared.segmentShift);
        && shared.Sequences() == old(shared.Sequences())[this := if i < |s| then s[i := value] else s]
        && (Addressed(idx, shared.segmentSize, shared.segmentShift) ==> i == idx)
      ensures fresh(shared.heap.blocks.Keys - old(shared.heap.blocks.Keys)) && fresh(shared.heap.store.Keys - old(shared.heap.store.Keys))
    {
      hide Sound, Values, Shared.Recorded, LeastPow2, WrittenAt, CellOf, Addressed;
      shared.LengthOf(this);
      Detach();
      shared.BlockOf(this);
      shared.LengthOf(this);
      ghost var s := shared.Sequences()[this];
      ghost var i := CellInside(idx, shared.segmentSize, shared.segmentShift, |ctrl.segments|);
      shared.Write(this, i, ShiftRight(idx, shared.segmentShift), And(idx, shared.segmentMask), value, false);
      Replaced(s, shared.Sequences()[this], i, value);
    }

    /** The const `operator[]` reads the cell that shift and mask find; its value is known if it is one of an element. */
    method Get(idx: nat) returns (value: T)
      requires shared.Valid() && this in shared.heap.handles && ctrl != null && idx < ctrl.size
      ensures this in shared.Sequences() && idx < |shared.Sequences()[this]|
      ensures var s, i := shared.Sequences()[this], CellOf(idx, shared.segmentSize, shared.segmentShift);
        && (i < |s| ==> value == s[i])
        && (Addressed(idx, shared.segmentSize, shared.segmentShift) ==> i == idx)
    {
      hide Sound, Values, Shared.Recorded, LeastPow2, CellOf, Addressed;
      shared.BlockOf(this);
      shared.LengthOf(this);
      ghost var i := CellInside(idx, shared.segmentSize, shared.segmentShift, |ctrl.segments|);
      value := shared.Read(this, i, ShiftRight(idx, shared.segmentShift), And(idx, shared.segmentMask));
    }

    /** One more segment, after the pointer array has been doubled if it was full. */
    method AddSegment()
      requires shared.Valid() && this in shared.heap.handles && ctrl != null && ctrl.refCount == 1 && ctrl.size == ctrl.capacity
      modifies this`ctrl, shared, shared.heap.blocks.Keys, shared.heap.store.Keys
      ensures shared.Valid() && shared.heap.handles.Keys == old(shared.heap.handles.Keys)
      ensures shared.Sequences() == old(shared.Sequences())
      ensures fresh(shared.heap.blocks.Keys - old(shared.heap.blocks.Keys)) && fresh(shared.heap.store.Keys - old(shared.heap.store.Keys))
      ensures ctrl != null && ctrl in shared.heap.blocks && ctrl.refCount == 1 && ctrl.size < ctrl.capacity
    {
      hide Sound, Values;
      Detach();
      shared.BlockOf(this);
      shared.AddSegmentTo(ctrl);
    }

    /** The count of the shared block goes down and the handle turns to the copy. */
    method Turn(newCtrl: ControlBlock<T>)
      requires shared.Recorded() && this in shared.heap.handles && ctrl != null && ctrl in shared.heap.blocks
      requires newCtrl in shared.heap.blocks && ctrl.refCount > 0
      modifies this`ctrl, ctrl`refCount, shared`heap
      ensures shared.Recorded() && ctrl == newCtrl && ctrl in shared.heap.blocks
      ensures shared.heap == Detached(old(shared.heap), this, old(ctrl), newCtrl)
    {
      ghost var c := ctrl;
      ctrl.refCount := ctrl.refCount - 1;
      ctrl := newCtrl;
      shared.heap := Detached(shared.heap, this, c, newCtrl);
    }
  }

  lemma SoundParts<T>(h: Heap<T>, n: nat, c: ControlBlock<T>)
    requires Sound(h, n) && c in h.blocks
    ensures Partition(h.blocks, h.store, h.free) && Lengths(h.store, n) && h.blocks[c].size <= h.blocks[c].capacity && n > 0
    ensures Readable(h.blocks[c], h.store, n)
  {
  }

  ghost function Recapped<T>(h: Heap<T>, c: ControlBlock<T>, n: nat): Heap<T>
    requires c in h.blocks
  {
    h.(blocks := h.blocks[c := h.blocks[c].(capacity := |h.blocks[c].segments| * n)])
  }

  lemma GrowSteps<T>(h: Heap<T>, h1: Heap<T>, c: ControlBlock<T>, a: array<T>, data: seq<T>, n: nat)
    requires c in h.blocks
    requires var b := h.blocks[c];
      h1 == h.(blocks := h.blocks[c := b.(segmentCapacity := DoubledIfFull(b))])
    ensures c in WithSegment(h1, c, a, data).blocks
    ensures Recapped(WithSegment(h1, c, a, data), c, n) == SegmentAdded(h, c, a, data, n)
    ensures NextSegment(h1, a) <==> NextSegment(h, a)
  {
  }

  lemma SegmentAddedKeys<T>(h: Heap<T>, c: ControlBlock<T>, a: array<T>, data: seq<T>, n: nat)
    requires c in h.blocks
    ensures var h' := SegmentAdded(h, c, a, data, n);
      && h'.handles == h.handles && h'.blocks.Keys == h.blocks.Keys && h'.store.Keys <= h.store.Keys + {a}
      && h'.blocks[c].size == h.blocks[c].size && h'.blocks[c].refCount == h.blocks[c].refCount
  {
  }

  /** The sequence of one handle goes over to another; a handle without a sequence passes none on. */
  ghost function Moved<T>(sequences: map<SegmentVector<T>, seq<T>>, from: SegmentVector<T>, to: SegmentVector<T>)
    : map<SegmentVector<T>, seq<T>>
  {
    if from in sequences then sequences[to := sequences[from]] - {from} else sequences
  }

  lemma RemovedSound<T>(h: Heap<T>, v: SegmentVector<T>, n: nat)
    requires Sound(h, n) && v in h.handles && h.handles[v] == null
    ensures var h' := h.(handles := h.handles - {v}); Sound(h', n) && Values(h', n) == Values(h, n)
  {
    hide Partition, BlockValues, Readable, Values, Lengths;
    var h' := h.(handles := h.handles - {v});
    forall d | d in h.blocks
      ensures SharedBy(h'.handles, d) == SharedBy(h.handles, d)
    {
    }
    hide RefCounts;
    ValuesKeys(h, n);
    ValuesAre(h', n, Values(h, n));
  }

  lemma DetachedKeys<T>(h: Heap<T>, v: SegmentVector<T>, c: ControlBlock<T>, copy: ControlBlock<T>)
    requires c in h.blocks && h.blocks[c].refCount > 0 && v in h.handles
    ensures var h' := Detached(h, v, c, copy);
      h'.handles.Keys == h.handles.Keys && h'.blocks.Keys == h.blocks.Keys && h'.store == h.store
  {
  }

  lemma CopiedFacts<T>(h0: Heap<T>, h: Heap<T>, c: ControlBlock<T>, o: Block<T>, n: nat)
    requires CopiedSoFar(h0, h, c, o, |o.segments|, n)
    ensures h.handles == h0.handles && h.blocks.Keys == h0.blocks.Keys + {c}
    ensures forall d :: d in h0.blocks ==> h.blocks[d] == h0.blocks[d]
    ensures c !in h0.blocks
  {
  }

  /** The static members. */
  class Shared<T> {
    /** What a default-constructed element is. */
    const blank: T
    const segmentSize: nat
    const segmentShift: nat
    const segmentMask: nat
    var freeSegments: seq<array<T>>
    ghost var heap: Heap<T>

    constructor (segmentSize: nat, blank: T)
      requires 0 < segmentSize <= WORD_LIMIT / 2
      ensures Recorded() && heap == Heap(map[], map[], map[], []) && Sound(heap, segmentSize)
      ensures this.segmentSize == segmentSize && this.blank == blank
      ensures LeastPow2(Pow2(segmentShift), segmentSize) && segmentMask == segmentSize - 1
    {
      var shift := GetSegmentShift(segmentSize);
      this.blank, this.segmentSize, segmentShift, segmentMask := blank, segmentSize, shift, segmentSize - 1;
      freeSegments := [];
      heap := Heap(map[], map[], map[], []);
    }

    ghost predicate Recorded()
      reads this, heap.blocks.Keys, heap.store.Keys, heap.handles.Keys
    {
      && heap.free == freeSegments
      && (forall c :: c in heap.blocks ==> heap.blocks[c] == Block(c.segments, c.size, c.segmentCapacity, c.capacity, c.refCount))
      && (forall a :: a in heap.store ==> heap.store[a] == a[..])
      && (forall v :: v in heap.handles ==> heap.handles[v] == v.ctrl && v.shared == this)
    }

    ghost predicate Valid()
      reads this, heap.blocks.Keys, heap.store.Keys, heap.handles.Keys
    {
      && segmentSize > 0 && LeastPow2(Pow2(segmentShift), segmentSize) && segmentMask == segmentSize - 1
      && Recorded() && Sound(heap, segmentSize)
    }

    /** The sequence of every handle that has not been moved from. */
    ghost function Sequences(): map<SegmentVector<T>, seq<T>>
      requires Valid()
      reads this, heap.blocks.Keys, heap.store.Keys, heap.handles.Keys
    {
      Values(heap, segmentSize)
    }

    lemma BlockOf(v: SegmentVector<T>)
      requires Valid() && v in heap.handles && v.ctrl != null
      ensures heap.handles[v] == v.ctrl && v.ctrl in heap.blocks && v.ctrl.refCount > 0 && heap.blocks[v.ctrl].refCount == v.ctrl.refCount
      ensures Partition(heap.blocks, heap.store, heap.free) && Lengths(heap.store, segmentSize)
      ensures Readable(heap.blocks[v.ctrl], heap.store, segmentSize)
      ensures heap.blocks[v.ctrl] == Block(v.ctrl.segments, v.ctrl.size, v.ctrl.segmentCapacity, v.ctrl.capacity, v.ctrl.refCount)
    {
      SoundReadable(heap, segmentSize, v.ctrl);
    }

    /** A recycled segment if there is one, otherwise a new one. */
    method AllocateSegment() returns (a: array<T>)
      modifies this`freeSegments
      ensures if old(freeSegments) != []
              then a == old(freeSegments)[|old(freeSegments)| - 1] && freeSegments == old(freeSegments)[..|old(freeSegments)| - 1]
              else fresh(a) && a.Length == segmentSize && freeSegments == []
    {
      if |freeSegments| > 0 {
        a := freeSegments[|freeSegments| - 1];
        freeSegments := freeSegments[..|freeSegments| - 1];
      } else {
        a := new T[segmentSize](_ => blank);
      }
    }

    /** `c->segments[c->segmentCount++] = allocateSegment(...)` */
    method AppendSegment(c: ControlBlock<T>) returns (a: array<T>)
      requires Recorded() && c in heap.blocks && Partition(heap.blocks, heap.store, heap.free) && Lengths(heap.store, segmentSize)
      modifies this`freeSegments, this`heap, c`segments
      ensures Recorded() && a in heap.store && heap == WithSegment(old(heap), c, a, heap.store[a])
      ensures NextSegment(old(heap), a) && |heap.store[a]| == segmentSize && (a in old(heap).store || fresh(a))
    {
      hide OnePlace, NotFree, Covered, Lengths;
      a := TakeSegment();
      LinkSegment(c, a);
    }

    /** The record follows the free stack, or notes the new segment. */
    method TakeSegment() returns (a: array<T>)
      requires Recorded() && NotFree(heap.blocks, heap.store, heap.free) && Lengths(heap.store, segmentSize)
      modifies this`freeSegments, this`heap
      ensures Recorded() && NextSegment(old(heap), a) && (a in old(heap).store || fresh(a))
      ensures a in heap.store && |heap.store[a]| == segmentSize && heap == SegmentTaken(old(heap), a, heap.store[a])
    {
      hide NotFree, Lengths;
      a := AllocateSegment();
      NextSegmentLoose(heap, a, segmentSize);
      heap := SegmentTaken(heap, a, a[..]);
    }

    method LinkSegment(c: ControlBlock<T>, a: array<T>)
      requires Recorded() && c in heap.blocks
      modifies this`heap, c`segments
      ensures Recorded() && c in old(heap).blocks
      ensures var b := old(heap).blocks[c]; heap == old(heap).(blocks := old(heap).blocks[c := b.(segments := b.segments + [a])])
    {
      c.segments := c.segments + [a];
      heap := heap.(blocks := heap.blocks[c := heap.blocks[c].(segments := c.segments)]);
    }

    method AddSegmentTo(c: ControlBlock<T>)
      requires Valid() && c in heap.blocks && c.size == c.capacity
      modifies this, c
      ensures Valid() && heap.handles == old(heap.handles) && Sequences() == old(Sequences())
      ensures heap.blocks.Keys == old(heap.blocks.Keys) && fresh(heap.store.Keys - old(heap.store.Keys))
      ensures c.refCount == old(c.refCount) && c.size < c.capacity
    {
      hide Sound, Values, Recorded, SegmentAdded;
      SoundParts(heap, segmentSize, c);
      SizesOf(c);
      var a := Grow(c);
      SegmentAddedSound(old(heap), c, a, heap.store[a], segmentSize);
      SegmentAddedKeys(old(heap), c, a, heap.store[a], segmentSize);
      SizesOf(c);
    }

    lemma SizesOf(c: ControlBlock<T>)
      requires Recorded() && c in heap.blocks
      ensures heap.blocks[c].size == c.size && heap.blocks[c].capacity == c.capacity && heap.blocks[c].refCount == c.refCount
    {
    }

    method Grow(c: ControlBlock<T>) returns (a: array<T>)
      requires Recorded() && c in heap.blocks && Partition(heap.blocks, heap.store, heap.free) && Lengths(heap.store, segmentSize)
      modifies this, c
      ensures Recorded() && a in heap.store && heap == SegmentAdded(old(heap), c, a, heap.store[a], segmentSize)
      ensures NextSegment(old(heap), a) && |heap.store[a]| == segmentSize && (a in old(heap).store || fresh(a))
    {
      hide Partition, Lengths, Recorded, WithSegment;
      ghost var h := heap;
      DoubleIfFull(c);
      ghost var h1 := heap;
      SameSegmentsPartition(h.blocks, h1.blocks, h.store, h.free);
      a := AppendSegment(c);
      GrowSteps(h, h1, c, a, heap.store[a], segmentSize);
      SetCapacity(c);
    }

    /** The cached capacity is brought up to date. */
    method SetCapacity(c: ControlBlock<T>)
      requires Recorded() && c in heap.blocks
      modifies this`heap, c`capacity
      ensures Recorded() && heap == Recapped(old(heap), c, segmentSize)
    {
      c.capacity := |c.segments| * segmentSize;
      heap := Recapped(heap, c, segmentSize);
    }

    /** The pointer array is doubled when it is full; its copying loop is not part of the model. */
    method DoubleIfFull(c: ControlBlock<T>)
      requires Recorded() && c in heap.blocks
      modifies this`heap, c`segmentCapacity
      ensures Recorded() && c in old(heap).blocks
      ensures var b := old(heap).blocks[c];
        heap == old(heap).(blocks := old(heap).blocks[c := b.(segmentCapacity := DoubledIfFull(b))])
    {
      if |c.segments| == c.segmentCapacity {
        c.segmentCapacity := c.segmentCapacity * 2;
      }
      heap := heap.(blocks := heap.blocks[c := heap.blocks[c].(segmentCapacity := c.segmentCapacity)]);
    }

    lemma LengthOf(v: SegmentVector<T>)
      requires Valid() && v in heap.handles && v.ctrl != null
      ensures v in Sequences() && |Sequences()[v]| == v.ctrl.size && v.ctrl.size <= v.ctrl.capacity
    {
      BlockOf(v);
      ValuesKeys(heap, segmentSize);
      SizeOfValues(heap.blocks[v.ctrl], heap.store, segmentSize);
    }

    /** Cell `i` of the block of a handle is written, and its size may grow by one. */
    method Write(v: SegmentVector<T>, ghost i: nat, segIndex: nat, subIndex: nat, value: T, grow: bool)
      requires Valid() && v in heap.handles && v.ctrl != null && v.ctrl.refCount == 1
      requires i < v.ctrl.capacity && (grow ==> v.ctrl.size < v.ctrl.capacity)
      requires segIndex == i / segmentSize && subIndex == i % segmentSize
      modifies this`heap, v.ctrl`size, heap.store.Keys
      ensures Valid() && heap.handles == old(heap.handles)
      ensures heap.blocks.Keys == old(heap.blocks.Keys) && heap.store.Keys == old(heap.store.Keys)
      ensures v in old(Sequences()) && v in Sequences() && Sequences() == old(Sequences())[v := Sequences()[v]]
      ensures WrittenAt(old(Sequences())[v], Sequences()[v], i, value, grow)
    {
      hide Sound, Values, Recorded, Written, Rewritten, CanWrite;
      BlockOf(v);
      LengthOf(v);
      ValuesKeys(heap, segmentSize);
      Writable(v.ctrl, i, grow);
      RewrittenIs(heap.blocks[v.ctrl], heap.store, i, value, grow, segmentSize);
      WrittenSound(heap, v, i, value, grow, segmentSize);
      SoundParts(heap, segmentSize, v.ctrl);
      WriteCell(v.ctrl, i, segIndex, subIndex, value, grow);
    }

    lemma Writable(c: ControlBlock<T>, i: nat, grow: bool)
      requires Recorded() && c in heap.blocks && i < c.capacity && (grow ==> c.size < c.capacity)
      ensures CanWrite(heap.blocks[c], i, grow)
    {
    }

    method WriteCell(c: ControlBlock<T>, ghost i: nat, segIndex: nat, subIndex: nat, value: T, grow: bool)
      requires Recorded() && c in heap.blocks && Readable(heap.blocks[c], heap.store, segmentSize)
      requires CanWrite(heap.blocks[c], i, grow) && segIndex == i / segmentSize && subIndex == i % segmentSize
      modifies this`heap, c`size, heap.store.Keys
      ensures Recorded() && c in old(heap).blocks && CanWrite(old(heap).blocks[c], i, grow)
      ensures heap == Written(old(heap), c, i, value, grow, segmentSize)
      ensures heap.handles == old(heap.handles) && heap.blocks.Keys == old(heap.blocks.Keys) && heap.store.Keys == old(heap.store.Keys)
    {
      InSegments(i, |c.segments|, segmentSize);
      var a := c.segments[segIndex];
      assert a in c.segments;
      StoreCell(a, subIndex, value);
      if grow { SetSize(c, c.size + 1); }
    }

    method StoreCell(a: array<T>, k: nat, value: T)
      requires Recorded() && a in heap.store && k < |heap.store[a]|
      modifies this`heap, a
      ensures Recorded() && heap == old(heap).(store := old(heap).store[a := old(heap).store[a][k := value]])
    {
      a[k] := value;
      heap := heap.(store := heap.store[a := heap.store[a][k := value]]);
    }

    method SetSize(c: ControlBlock<T>, size: nat)
      requires Recorded() && c in heap.blocks
      modifies this`heap, c`size
      ensures Recorded() && c in old(heap).blocks
      ensures heap == old(heap).(blocks := old(heap).blocks[c := old(heap).blocks[c].(size := size)])
    {
      c.size := size;
      heap := heap.(blocks := heap.blocks[c := heap.blocks[c].(size := size)]);
    }

    /** Cell `i` of the block of a handle is read. */
    method Read(v: SegmentVector<T>, ghost i: nat, segIndex: nat, subIndex: nat) returns (value: T)
      requires Valid() && v in heap.handles && v.ctrl != null
      requires i < v.ctrl.capacity && segIndex == i / segmentSize && subIndex == i % segmentSize
      ensures v in Sequences() && (i < |Sequences()[v]| ==> value == Sequences()[v][i])
    {
      hide Sound;
      BlockOf(v);
      LengthOf(v);
      ValuesKeys(heap, segmentSize);
      InSegments(i, |v.ctrl.segments|, segmentSize);
      assert v.ctrl.segments[segIndex] in v.ctrl.segments;
      value := v.ctrl.segments[segIndex][subIndex];
    }

    /** Every segment of the block goes to the free stack. */
    method FreeControlBlock(c: ControlBlock<T>)
      modifies this`freeSegments
      ensures freeSegments == old(freeSegments) + c.segments
    {
      for i := 0 to |c.segments|
        invariant freeSegments == old(freeSegments) + c.segments[..i]
      {
        freeSegments := freeSegments + [c.segments[i]];
      }
      assert c.segments[..|c.segments|] == c.segments;
    }

    /** The count goes up for a handle that has just been given the block of another. */
    method Attach(v: SegmentVector<T>, other: SegmentVector<T>)
      requires Sound(heap, segmentSize) && segmentSize > 0 && LeastPow2(Pow2(segmentShift), segmentSize) && segmentMask == segmentSize - 1
      requires RecordedBut(v) && v != other && other in heap.handles && other.ctrl != null && v.ctrl == other.ctrl && v.shared == this
      requires v in heap.handles ==> heap.handles[v] == null
      modifies this`heap, other.ctrl`refCount
      ensures Valid() && heap.handles.Keys == old(heap.handles.Keys) + {v}
      ensures other in old(Values(heap, segmentSize))
      ensures Sequences() == old(Values(heap, segmentSize))[v := old(Values(heap, segmentSize))[other]]
      ensures heap.SameMemory(old(heap))
    {
      hide Sound, Values, RecordedBut, Recorded;
      OtherBlock(v, other);
      AttachedSound(heap, v, other.ctrl, segmentSize);
      ValuesKeys(heap, segmentSize);
      CountUp(v, other.ctrl);
    }

    /** A new handle with a new block is recorded. */
    ghost method Enroll(v: SegmentVector<T>, c: ControlBlock<T>)
      requires RecordedBut(v) && v.ctrl == c && v.shared == this
      requires Block(c.segments, c.size, c.segmentCapacity, c.capacity, c.refCount) == Block([], 0, 4, 0, 1)
      modifies this`heap
      ensures Recorded() && heap == Created(old(heap), v, c)
      ensures heap.handles.Keys == old(heap.handles.Keys) + {v}
      ensures heap.blocks.Keys == old(heap.blocks.Keys) + {c} && heap.store == old(heap.store)
    {
      heap := Created(heap, v, c);
    }

    method CountUp(v: SegmentVector<T>, c: ControlBlock<T>)
      requires RecordedBut(v) && c in heap.blocks && v.ctrl == c && v.shared == this
      modifies this`heap, c`refCount
      ensures Recorded() && c in old(heap).blocks && heap == Attached(old(heap), v, c)
    {
      c.refCount := c.refCount + 1;
      heap := Attached(heap, v, c);
    }

    lemma OtherBlock(v: SegmentVector<T>, other: SegmentVector<T>)
      requires Sound(heap, segmentSize) && RecordedBut(v) && v != other && other in heap.handles && other.ctrl != null
      ensures heap.handles[other] == other.ctrl && other.ctrl in heap.blocks
    {
    }

    /** The record is right for everything but the handle `v`. */
    ghost predicate RecordedBut(v: SegmentVector<T>)
      reads this, heap.blocks.Keys, heap.store.Keys, heap.handles.Keys
    {
      && heap.free == freeSegments
      && (forall c :: c in heap.blocks ==> heap.blocks[c] == Block(c.segments, c.size, c.segmentCapacity, c.capacity, c.refCount))
      && (forall a :: a in heap.store ==> heap.store[a] == a[..])
      && (forall u :: u in heap.handles && u != v ==> heap.handles[u] == u.ctrl && u.shared == this)
    }

    lemma NoSequence(v: SegmentVector<T>)
      requires Valid() && v in heap.handles && v.ctrl == null
      ensures v !in Sequences() && Sequences() - {v} == Sequences() && heap.handles[v] == null
    {
      ValuesKeys(heap, segmentSize);
    }

    /** `std::copy` of a whole segment. */
    method CopyInto(target: array<T>, source: array<T>)
      requires Recorded() && target in heap.store && source in heap.store && target != source
      requires |heap.store[target]| == |heap.store[source]|
      modifies this`heap, target
      ensures Recorded() && heap == old(heap).(store := old(heap).store[target := old(heap).store[source]])
    {
      for i := 0 to source.Length
        modifies target
        invariant target[..i] == source[..i] && source[..] == old(source[..])
      {
        target[i] := source[i];
      }
      assert target[..] == source[..];
      heap := heap.(store := heap.store[target := source[..]]);
    }

    /** A copy of a block, with a count of one, in segments of its own. */
    method DeepCopy(other: ControlBlock<T>) returns (c: ControlBlock<T>)
      requires Recorded() && other in heap.blocks && Partition(heap.blocks, heap.store, heap.free) && Lengths(heap.store, segmentSize)
      modifies this`freeSegments, this`heap, heap.store.Keys
      ensures Recorded() && fresh(c) && fresh(heap.store.Keys - old(heap.store.Keys))
      ensures var o := old(heap).blocks[other]; CopiedSoFar(old(heap), heap, c, o, |o.segments|, segmentSize)
    {
      hide Partition, Lengths, CopiedSoFar;
      c := new ControlBlock(other.size, other.segmentCapacity, other.capacity);
      ghost var h0, o := heap, heap.blocks[other];
      CopyStarts(heap, c, o, segmentSize);
      heap := heap.(blocks := heap.blocks[c := o.(segments := [], refCount := 1)]);
      for i := 0 to |other.segments|
        invariant Recorded() && other in heap.blocks && heap.blocks[other] == o
        invariant CopiedSoFar(h0, heap, c, o, i, segmentSize)
        invariant fresh(heap.store.Keys - h0.store.Keys)
      {
        CopySegment(c, other, i, h0, o);
      }
    }

    method CopySegment(c: ControlBlock<T>, other: ControlBlock<T>, i: nat, ghost h0: Heap<T>, ghost o: Block<T>)
      requires Recorded() && other in heap.blocks && heap.blocks[other] == o && i < |other.segments|
      requires other in h0.blocks && h0.blocks[other] == o && CopiedSoFar(h0, heap, c, o, i, segmentSize)
      modifies this`freeSegments, this`heap, heap.store.Keys, c`segments
      ensures Recorded() && other in heap.blocks && heap.blocks[other] == o
      ensures CopiedSoFar(h0, heap, c, o, i + 1, segmentSize)
      ensures fresh(heap.store.Keys - old(heap.store.Keys))
    {
      hide Partition, Lengths, SameCells, Kept;
      ghost var h := heap;
      var a := AppendSegment(c);
      CopyStep(h0, h, c, o, i, segmentSize, a, heap.store[a], other);
      CopyInto(a, other.segments[i]);
    }
  }
}
