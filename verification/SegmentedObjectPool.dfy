/** The object pool: a free stack and a bump index over segments whose slots tile their pages. */
module SegmentedObjectPool {
  import opened MathBits
  import opened Wrappers

  /** An address: a byte of a segment. */
  datatype Pointer = Pointer(segment: nat, offset: nat)

  datatype Segment = Segment(bytes: nat, capacity: nat, nextUninit: nat)

  // ----- Slots -----

  ghost predicate SlotAt(p: Pointer, i: nat, slotSize: nat) { p.offset == Times(i, slotSize) }

  /** The pointer is a slot that the bump index has passed. */
  ghost predicate HandedOut(segments: seq<Segment>, slotSize: nat, p: Pointer) {
    p.segment < |segments| && exists i: nat :: i < segments[p.segment].nextUninit && SlotAt(p, i, slotSize)
  }

  lemma SlotsApart(i: nat, j: nat, slotSize: nat)
    requires i < j && slotSize > 0
    ensures 0 <= Times(i, slotSize) && Times(i, slotSize) + slotSize <= Times(j, slotSize)
  {
    assert (j - i) * slotSize == j * slotSize - i * slotSize;
    AtLeastOnce(j - i, slotSize);
  }

  /** The byte ranges of two slots. */
  ghost predicate Disjoint(p: Pointer, q: Pointer, slotSize: nat) {
    p.segment != q.segment || p.offset + slotSize <= q.offset || q.offset + slotSize <= p.offset
  }

  ghost predicate Inside(p: Pointer, segments: seq<Segment>, slotSize: nat) {
    p.segment < |segments| && p.offset + slotSize <= segments[p.segment].bytes
  }

  // ----- Segments -----

  /** Slots fill a segment without remainder. */
  ghost predicate Tiled(s: Segment, slotSize: nat) {
    s.bytes == Times(s.capacity, slotSize) && s.capacity > 0 && s.nextUninit <= s.capacity
  }

  /** Only the newest segment has slots that were never handed out. */
  ghost predicate Segments(segments: seq<Segment>, slotSize: nat) {
    && (forall i :: 0 <= i < |segments| ==> Tiled(segments[i], slotSize))
    && (forall i :: 0 <= i < |segments| - 1 ==> segments[i].nextUninit == segments[i].capacity)
  }

  ghost function UsedTotal(segments: seq<Segment>): nat {
    if segments == [] then 0 else UsedTotal(segments[..|segments| - 1]) + segments[|segments| - 1].nextUninit
  }

  ghost function CapacityTotal(segments: seq<Segment>): nat {
    if segments == [] then 0 else CapacityTotal(segments[..|segments| - 1]) + segments[|segments| - 1].capacity
  }

  /** The slots at the end of the newest segment. */
  ghost function Tail(segments: seq<Segment>): int {
    if segments == [] then 0 else segments[|segments| - 1].capacity - segments[|segments| - 1].nextUninit
  }

  lemma {:induction false} TailCounts(segments: seq<Segment>, slotSize: nat)
    requires Segments(segments, slotSize)
    ensures UsedTotal(segments) + Tail(segments) == CapacityTotal(segments)
  {
    if |segments| > 1 {
      var r := segments[..|segments| - 1];
      assert forall i :: 0 <= i < |r| ==> r[i] == segments[i];
      TailCounts(r, slotSize);
    } else if |segments| == 1 {
      assert segments[..0] == [];
    }
  }

  // ----- Page counts -----

  /** The slots fill `pages` pages without remainder. */
  ghost predicate Fills(pages: nat, pageSize: nat, slotSize: nat) { Divides(slotSize, Times(pages, pageSize)) }

  /** The least page count from `user` on that the slots fill. */
  ghost predicate LeastFill(pages: nat, user: nat, pageSize: nat, slotSize: nat) {
    && pages > 0 && pages >= user && Fills(pages, pageSize, slotSize)
    && forall m: nat :: m > 0 && m >= user && Fills(m, pageSize, slotSize) ==> pages <= m
  }

  /** The least page count that the slots fill and that is not below what the user asks for, if its bytes are a word. */
  method ComputeMinPages(userMinPages: nat, pageSize: nat, slotSize: nat) returns (pages: nat, ghost exact: nat)
    requires 1 < pageSize < WORD_LIMIT && 0 < slotSize < WORD_LIMIT && userMinPages < WORD_LIMIT
    ensures LeastFill(exact, userMinPages, pageSize, slotSize)
    ensures userMinPages == 0 ==> forall m: nat :: Fills(m, pageSize, slotSize) ==> Divides(exact, m)
    ensures Times(exact, pageSize) < WORD_LIMIT ==> pages == exact
  {
    hide Fills, Divides, Times, LeastFill;
    pages, exact := BasePages(pageSize, slotSize);
    LeastOfAll(exact, pageSize, slotSize);
    if userMinPages > 0 {
      ghost var least := exact;
      exact := RaisedPages(userMinPages, least, pageSize, slotSize);
      if pages == 0 { return; }
      pages := RaisedTo(userMinPages, pages);
    }
  }

  /** `l / ps`, which is the least page count that the slots fill if its bytes are a word. */
  method BasePages(pageSize: nat, slotSize: nat) returns (pages: nat, ghost least: nat)
    requires pageSize > 0 && slotSize > 0
    ensures least > 0 && Fills(least, pageSize, slotSize)
    ensures forall m: nat :: Fills(m, pageSize, slotSize) ==> Divides(least, m)
    ensures Times(least, pageSize) < WORD_LIMIT ==> pages == least
  {
    hide Fills, Divides;
    ghost var multiple;
    var l;
    l, multiple := Lcm(pageSize, slotSize);
    WholePages(multiple, pageSize, slotSize);
    least := multiple / pageSize;
    NotNegative(l, pageSize);
    pages := l / pageSize;
  }

  lemma LeastOfAll(least: nat, pageSize: nat, slotSize: nat)
    requires least > 0 && Fills(least, pageSize, slotSize)
    requires forall m: nat :: Fills(m, pageSize, slotSize) ==> Divides(least, m)
    ensures LeastFill(least, 0, pageSize, slotSize)
  {
    LeastPages(0, least, 1, pageSize, slotSize);
  }

  /** The least multiple from `user` on, on unbounded numbers. Nothing wraps around if its bytes are a word. */
  lemma RaisedPages(user: nat, least: nat, pageSize: nat, slotSize: nat) returns (exact: nat)
    requires user > 0 && least > 0 && Fills(least, pageSize, slotSize) && pageSize > 1
    requires forall m: nat :: Fills(m, pageSize, slotSize) ==> Divides(least, m)
    ensures LeastFill(exact, user, pageSize, slotSize) && exact == least * ((user + least - 1) / least)
    ensures Times(exact, pageSize) < WORD_LIMIT ==>
      Times(least, pageSize) < WORD_LIMIT && user + least - 1 < WORD_LIMIT && exact < WORD_LIMIT
  {
    hide Fills, Divides;
    NotNegative(user + least - 1, least);
    var times: nat := (user + least - 1) / least;
    EnoughPages(user, least, times);
    FillsMore(least, times, pageSize, slotSize);
    LeastPages(user, least, times, pageSize, slotSize);
    FewPages(user, least, times, pageSize);
    exact := least * times;
  }

  /** The least multiple that is not below `user`, if nothing wraps around. */
  method RaisedTo(user: nat, pages: nat) returns (raised: nat)
    requires 0 < user < WORD_LIMIT && pages > 0
    ensures user + pages - 1 < WORD_LIMIT && pages * ((user + pages - 1) / pages) < WORD_LIMIT ==>
      raised == pages * ((user + pages - 1) / pages)
  {
    var sum := (user + pages - 1) % WORD_LIMIT;
    assert user + pages - 1 < WORD_LIMIT ==> sum == user + pages - 1;
    var k := sum / pages;
    NotNegative(sum, pages);
    raised := pages * k % WORD_LIMIT;
  }

  lemma NotNegative(a: nat, d: nat)
    requires d > 0
    ensures a / d >= 0
  {
  }

  /** Nothing wraps around on the way to a page count whose bytes are a word. */
  lemma FewPages(user: nat, least: nat, times: nat, pageSize: nat)
    requires user > 0 && least > 0 && times > 0 && pageSize > 1 && least * times < user + least
    requires least * times >= user
    ensures Times(least * times, pageSize) < WORD_LIMIT ==>
      Times(least, pageSize) < WORD_LIMIT && user + least - 1 < WORD_LIMIT && least * times < WORD_LIMIT
  {
    AtLeastOnce(times, least);
    MultiplesOrdered(least, least * times, pageSize);
    MultiplesOrdered(2, pageSize, least * times);
  }

  /** No smaller page count that the slots fill reaches what the user asks for. */
  lemma LeastPages(user: nat, pages: nat, k: nat, pageSize: nat, slotSize: nat)
    requires pages > 0 && (forall m: nat :: Fills(m, pageSize, slotSize) ==> Divides(pages, m))
    requires k == 1 || pages * k < user + pages
    ensures forall m: nat :: m > 0 && m >= user && Fills(m, pageSize, slotSize) ==> pages * k <= m
  {
    hide Fills;
    forall m: nat | m > 0 && m >= user && Fills(m, pageSize, slotSize)
      ensures pages * k <= m
    {
      var t :| Times(t, pages) == m;
      PositiveFactor(t, pages);
      NoFewer(user, pages, k, t);
    }
  }

  lemma NoFewer(user: nat, pages: nat, k: nat, t: nat)
    requires pages > 0 && t > 0 && t * pages >= user && (k == 1 || pages * k < user + pages)
    ensures pages * k <= t * pages
  {
    assert (t - k) * pages == t * pages - pages * k;
    if t > k { AtLeastOnce(t - k, pages); }
    if t < k { AtLeastOnce(k - t, pages); }
  }

  lemma WholePages(l: nat, pageSize: nat, slotSize: nat)
    requires pageSize > 0 && slotSize > 0 && l > 0 && Divides(pageSize, l) && Divides(slotSize, l)
    requires forall m :: Divides(pageSize, m) && Divides(slotSize, m) ==> Divides(l, m)
    ensures l / pageSize > 0 && Fills(l / pageSize, pageSize, slotSize) && Times(l / pageSize, pageSize) == l
    ensures forall m: nat :: Fills(m, pageSize, slotSize) ==> Divides(l / pageSize, m)
  {
    var pages :| Times(pages, pageSize) == l;
    PositiveFactor(pages, pageSize);
    Remainder(l, pageSize, pages, 0);
    forall m: nat | Fills(m, pageSize, slotSize)
      ensures Divides(pages, m)
    {
      assert Divides(pageSize, Times(m, pageSize));
      assert Divides(l, Times(m, pageSize));
      var t :| Times(t, l) == Times(m, pageSize);
      CancelPage(t, pages, m, pageSize);
      assert Times(t, pages) == m;
    }
  }

  lemma CancelPage(t: int, pages: int, m: int, pageSize: nat)
    requires pageSize > 0 && t * (pages * pageSize) == m * pageSize
    ensures t * pages == m
  {
    assert (t * pages - m) * pageSize == 0;
    if t * pages > m { AtLeastOnce(t * pages - m, pageSize); }
    if t * pages < m { AtLeastOnce(m - t * pages, pageSize); }
  }

  lemma EnoughPages(user: nat, pages: nat, k: nat)
    requires user > 0 && pages > 0 && k == (user + pages - 1) / pages
    ensures k > 0 && pages * k >= user && pages * k < user + pages
  {
    assert user + pages - 1 == k * pages + (user + pages - 1) % pages;
    assert k == 0 ==> k * pages == 0;
  }

  /** A multiple of a page count that the slots fill is filled as well. */
  lemma FillsMore(pages: nat, k: nat, pageSize: nat, slotSize: nat)
    requires Fills(pages, pageSize, slotSize)
    ensures Fills(pages * k, pageSize, slotSize)
  {
    var q :| Times(q, slotSize) == Times(pages, pageSize);
    assert (q * k) * slotSize == (q * slotSize) * k;
    assert (pages * k) * pageSize == (pages * pageSize) * k;
    assert Times(q * k, slotSize) == Times(pages * k, pageSize);
  }

  lemma NextDivides(d: nat, n: nat)
    requires Divides(d, n)
    ensures Divides(d, n + d)
  {
    var k: int :| Times(k, d) == n;
    assert Times(k + 1, d) == n + d;
  }

  class SegmentedObjectPool {
    const pageSize: nat
    const slotSize: nat
    const pagesPerSegmentBase: nat
    const growthFactor: real
    /** The product of a page count and a factor, as double arithmetic has it. */
    const product: (nat, real) -> real
    var freeStack: seq<Pointer>
    var segments: seq<Segment>
    var nextPagesHint: nat
    var liveCount: nat
    /** The objects that clients hold. */
    ghost var live: set<Pointer>

    ghost predicate Sized()
      reads this`nextPagesHint, this`segments
    {
      && pageSize > 1 && slotSize > 0 && pagesPerSegmentBase > 0 && Fills(pagesPerSegmentBase, pageSize, slotSize)
      && Times(pagesPerSegmentBase, pageSize) < WORD_LIMIT && (forall n: nat :: product(n, growthFactor) >= 0.0)
      && (segments != [] ==> nextPagesHint > 0 && Divides(pagesPerSegmentBase, nextPagesHint))
    }

    /** Live and free pointers are exactly the slots that were handed out, and no slot is both or twice free. */
    ghost predicate Shared()
      reads this`freeStack, this`segments, this`live
    {
      && Distinct(freeStack) && (forall p :: p in freeStack ==> p !in live)
      && (forall p :: p in live || p in freeStack <==> HandedOut(segments, slotSize, p))
    }

    ghost predicate Valid()
      reads this
    {
      && Sized() && Segments(segments, slotSize) && Shared()
      && liveCount == |live| && |live| + |freeStack| == UsedTotal(segments)
    }

    /** The slots are large and aligned enough if and only if their size is a word; then the pool is as asked for if and
        only if the bytes of the least segment are a word. */
    constructor (pageSize: nat, objectSize: nat, pointerSize: nat, alignment: nat, minPagesPerSegment: nat, growth: real,
                 product: (nat, real) -> real)
      requires 1 < pageSize < WORD_LIMIT && 0 < objectSize < WORD_LIMIT && pointerSize < WORD_LIMIT
      requires 0 < alignment < WORD_LIMIT && minPagesPerSegment < WORD_LIMIT
      requires forall n: nat, factor: real :: factor >= 1.0 ==> product(n, factor) >= 0.0
      ensures live == {} && segments == [] && freeStack == [] && this.pageSize == pageSize && this.product == product
      ensures growthFactor >= 1.0 && (growth >= 1.0 ==> growthFactor == growth)
      ensures slotSize >= objectSize && slotSize >= pointerSize && slotSize % alignment == 0
         <==> NextMultiple(Max(objectSize, pointerSize), alignment) < WORD_LIMIT
      ensures NextMultiple(Max(objectSize, pointerSize), alignment) < WORD_LIMIT ==>
        slotSize == NextMultiple(Max(objectSize, pointerSize), alignment)
      ensures slotSize > 0 ==> forall exact: nat :: LeastFill(exact, minPagesPerSegment, pageSize, slotSize) ==>
        (Valid() && pagesPerSegmentBase >= minPagesPerSegment <==> Times(exact, pageSize) < WORD_LIMIT)
    {
      hide Fills, NextMultiple;
      var size := RoundUpToMultiple(Max(objectSize, pointerSize), alignment);
      RoundedSlot(Max(objectSize, pointerSize), alignment, size);
      var pages := 0;
      ghost var exact := 0;
      if size > 0 { pages, exact := ComputeMinPages(minPagesPerSegment, pageSize, size); }
      this.pageSize, slotSize, pagesPerSegmentBase, this.product := pageSize, size, pages, product;
      growthFactor := if growth > 1.0 then growth else 1.0;
      freeStack, segments, nextPagesHint, liveCount, live := [], [], 0, 0, {};
      new;
      if size > 0 { Started(exact, minPagesPerSegment); }
    }

    lemma Started(exact: nat, min: nat)
      requires slotSize > 0 && pageSize > 1 && LeastFill(exact, min, pageSize, slotSize)
      requires Times(exact, pageSize) < WORD_LIMIT ==> pagesPerSegmentBase == exact
      requires freeStack == [] && segments == [] && liveCount == 0 && live == {}
      requires forall n: nat :: product(n, growthFactor) >= 0.0
      ensures forall e: nat :: LeastFill(e, min, pageSize, slotSize) ==>
        (Valid() && pagesPerSegmentBase >= min <==> Times(e, pageSize) < WORD_LIMIT)
    {
      hide Fills;
      if pagesPerSegmentBase >= exact { MultiplesOrdered(exact, pagesPerSegmentBase, pageSize); }
      forall e: nat | LeastFill(e, min, pageSize, slotSize)
        ensures e == exact
      {
      }
    }

    /** The newest segment has a slot that was never used. */
    ghost predicate SlotLeft()
      reads this`segments
    {
      segments != [] && segments[|segments| - 1].nextUninit < segments[|segments| - 1].capacity
    }

    ghost function NextSlot(): Pointer
      requires SlotLeft()
      reads this`segments
    {
      Pointer(|segments| - 1, segments[|segments| - 1].nextUninit * slotSize)
    }

    /** Something is free, or the newest segment has a slot left, or the bytes of the next segment are a word. */
    ghost predicate CanAllocate()
      requires Sized()
      reads this`freeStack, this`segments, this`nextPagesHint
    {
      freeStack != [] || SlotLeft() || Times(PagesWanted(), pageSize) < WORD_LIMIT
    }

    /** A free object if there is one, then a fresh slot of the newest segment, then one of a new segment. */
    method Allocate() returns (ok: bool, p: Pointer)
      requires Valid()
      modifies this
      ensures ok <==> old(CanAllocate())
      ensures ok ==> Valid() && p !in old(live) && live == old(live) + {p} && liveCount == old(liveCount) + 1
      ensures ok && old(freeStack) != [] ==> p == old(freeStack)[|old(freeStack)| - 1]
      ensures ok ==> freeStack == if old(freeStack) == [] then [] else old(freeStack)[..|old(freeStack)| - 1]
      ensures ok && old(freeStack) != [] ==> segments == old(segments)
      ensures ok && old(freeStack) == [] ==>
        if old(SlotLeft()) then p == old(NextSlot()) && |segments| == |old(segments)|
        else p == Pointer(|old(segments)|, 0) && |segments| == |old(segments)| + 1
      ensures !ok ==> nextPagesHint == old(PagesWanted()) && Times(nextPagesHint, pageSize) >= WORD_LIMIT
      ensures !ok ==> freeStack == old(freeStack) == [] && segments == old(segments) && live == old(live)
    {
      hide Shared, UsedTotal, PagesWanted;
      if freeStack != [] {
        p := Reuse();
        return true, p;
      }
      ok := true;
      if segments == [] || segments[|segments| - 1].nextUninit >= segments[|segments| - 1].capacity {
        ok := AddSegment();
        if !ok { return false, Pointer(0, 0); }
      }
      p := Bump();
    }

    /** The object that was freed last. */
    method Reuse() returns (p: Pointer)
      requires Valid() && freeStack != []
      modifies this`freeStack, this`live, this`liveCount
      ensures Valid() && p == old(freeStack)[|old(freeStack)| - 1] && freeStack == old(freeStack)[..|old(freeStack)| - 1]
      ensures p !in old(live) && live == old(live) + {p} && liveCount == old(liveCount) + 1
    {
      hide Sized, Segments, UsedTotal, HandedOut;
      p := freeStack[|freeStack| - 1];
      freeStack := freeStack[..|freeStack| - 1];
      live := live + {p};
      liveCount := liveCount + 1;
    }

    /** The least segment can always be had. */
    lemma CanStart()
      requires Valid() && segments == []
      ensures CanAllocate()
    {
    }

    /** The next slot of the newest segment. */
    method Bump() returns (p: Pointer)
      requires Valid() && SlotLeft()
      modifies this`segments, this`live, this`liveCount
      ensures Valid() && p !in old(live) && live == old(live) + {p} && liveCount == old(liveCount) + 1
      ensures p == old(NextSlot()) && |segments| == |old(segments)|
    {
      hide Segments, UsedTotal, HandedOut, Distinct;
      var at := |segments| - 1;
      var seg := segments[at];
      BumpedSegments(segments, slotSize);
      ghost var before := segments;
      p := Pointer(at, seg.nextUninit * slotSize);
      BumpedSlots(segments, slotSize, p);
      segments := segments[at := seg.(nextUninit := seg.nextUninit + 1)];
      live := live + {p};
      liveCount := liveCount + 1;
    }

    /** A larger segment than the last one, of a page count that its slots fill, if its bytes are a word. */
    method AddSegment() returns (ok: bool)
      requires Valid() && (segments == [] || segments[|segments| - 1].nextUninit == segments[|segments| - 1].capacity)
      modifies this`segments, this`nextPagesHint
      ensures nextPagesHint == old(PagesWanted()) && (ok <==> Times(nextPagesHint, pageSize) < WORD_LIMIT)
      ensures old(segments) != [] ==> nextPagesHint >= old(nextPagesHint) + pagesPerSegmentBase
      ensures old(segments) != [] ==> old(Aim()) - 1.0 < nextPagesHint as real < old(Aim()) + pagesPerSegmentBase as real
      ensures ok ==> Valid() && |segments| == |old(segments)| + 1 && segments[..|old(segments)|] == old(segments)
      ensures ok ==> segments[|segments| - 1].nextUninit == 0 && segments[|segments| - 1].capacity > 0
      ensures ok ==> segments[|segments| - 1].bytes == Times(nextPagesHint, pageSize)
      ensures !ok ==> segments == old(segments)
    {
      hide Segments, UsedTotal, HandedOut, Distinct, Fills;
      if segments == [] {
        nextPagesHint := pagesPerSegmentBase;
        DividesItself(pagesPerSegmentBase);
      } else {
        nextPagesHint := NextPages();
      }
      var segBytes := nextPagesHint * pageSize % WORD_LIMIT;
      ok := segBytes == nextPagesHint * pageSize;
      BytesWrapped(nextPagesHint * pageSize);
      if !ok { return; }
      var capacity := segBytes / slotSize;
      SegmentTiles(nextPagesHint, pagesPerSegmentBase, pageSize, slotSize);
      AddedSegment(segments, slotSize, Segment(segBytes, capacity, 0));
      segments := segments + [Segment(segBytes, capacity, 0)];
    }

    /** The grown page count as double arithmetic has it, or one base count more, whichever is larger. */
    ghost function Aim(): real
      reads this`nextPagesHint
    {
      var grown, added := product(nextPagesHint, growthFactor), (nextPagesHint + pagesPerSegmentBase) as real;
      if grown < added then added else grown
    }

    /** The page count of the next segment. */
    ghost function PagesWanted(): nat
      requires Sized()
      reads this`nextPagesHint, this`segments
    {
      if segments == [] then pagesPerSegmentBase
      else NextMultiple(Max(product(nextPagesHint, growthFactor).Floor, nextPagesHint + pagesPerSegmentBase), pagesPerSegmentBase)
    }

    /** Where the product is at most one base count more, as with the growth factor 1, the next segment has exactly one
        base count more than the last. */
    lemma PlainGrowth()
      requires Sized() && segments != [] && product(nextPagesHint, growthFactor) <= (nextPagesHint + pagesPerSegmentBase) as real
      ensures PagesWanted() == nextPagesHint + pagesPerSegmentBase
    {
      hide Fills;
      NextDivides(pagesPerSegmentBase, nextPagesHint);
      NextMultipleLeast(nextPagesHint + pagesPerSegmentBase, pagesPerSegmentBase, nextPagesHint + pagesPerSegmentBase);
    }

    /** The aim, cut off to a whole number and rounded up to a multiple of the base. */
    method NextPages() returns (pages: nat)
      requires Sized() && segments != []
      ensures pages == PagesWanted() && Divides(pagesPerSegmentBase, pages) && pages >= nextPagesHint + pagesPerSegmentBase
      ensures Aim() - 1.0 < pages as real < Aim() + pagesPerSegmentBase as real
    {
      hide Fills, Divides, Times;
      var target := product(nextPagesHint, growthFactor);
      pages := target.Floor;
      if pages < nextPagesHint + pagesPerSegmentBase { pages := nextPagesHint + pagesPerSegmentBase; }
      ghost var least: nat := pages;
      var rem := pages % pagesPerSegmentBase;
      RoundedPages(pages, pagesPerSegmentBase);
      if rem != 0 { pages := pages + (pagesPerSegmentBase - rem); }
      RoundedTarget(target, nextPagesHint + pagesPerSegmentBase, least, pagesPerSegmentBase, pages);
    }

    /** Nothing checks that the object is live, so the pool is valid afterwards exactly when it was;
        a null pointer is ignored. */
    method Deallocate(pointer: Option<Pointer>)
      requires Valid()
      modifies this`freeStack, this`live, this`liveCount
      ensures Valid() <==> pointer == None || pointer.value in old(live)
      ensures pointer == None ==> live == old(live) && freeStack == old(freeStack) && liveCount == old(liveCount)
      ensures pointer.Some? ==> live == old(live) - {pointer.value} && freeStack == old(freeStack) + [pointer.value]
      ensures pointer.Some? ==> liveCount == if old(liveCount) == 0 then WORD_LIMIT - 1 else old(liveCount) - 1
    {
      hide Sized, Segments, UsedTotal, HandedOut;
      if pointer == None { return; }
      var p := pointer.value;
      PushedTwice(p);
      freeStack := freeStack + [p];
      live := live - {p};
      liveCount := if liveCount == 0 then WORD_LIMIT - 1 else liveCount - 1;
    }

    lemma PushedTwice(p: Pointer)
      requires Valid()
      ensures p !in live && Distinct(freeStack + [p]) ==> !HandedOut(segments, slotSize, p)
    {
      hide Sized, Segments, UsedTotal, HandedOut;
      if p in freeStack {
        var i :| 0 <= i < |freeStack| && freeStack[i] == p;
        assert (freeStack + [p])[i] == (freeStack + [p])[|freeStack|];
      }
    }

    /** The segments go but the free stack stays, so the pool is valid afterwards exactly when nothing was free. */
    method Clear()
      requires Valid()
      modifies this
      ensures segments == [] && liveCount == 0 && live == {} && freeStack == old(freeStack)
      ensures nextPagesHint == pagesPerSegmentBase && (Valid() <==> old(freeStack) == [])
    {
      segments, liveCount, nextPagesHint, live := [], 0, pagesPerSegmentBase, {};
      if freeStack != [] { assert freeStack[0] in freeStack; }
    }

    /** Live objects are distinct slots: their bytes do not overlap, and they lie inside their segments. */
    lemma LiveApart(p: Pointer, q: Pointer)
      requires Valid() && p in live && q in live
      ensures Inside(p, segments, slotSize) && (p != q ==> Disjoint(p, q, slotSize))
    {
      assert HandedOut(segments, slotSize, p) && HandedOut(segments, slotSize, q);
      var i: nat :| i < segments[p.segment].nextUninit && SlotAt(p, i, slotSize);
      var j: nat :| j < segments[q.segment].nextUninit && SlotAt(q, j, slotSize);
      SlotsApart(i, segments[p.segment].capacity, slotSize);
      if i < j { SlotsApart(i, j, slotSize); } else if j < i { SlotsApart(j, i, slotSize); }
    }

    /** Nothing is lost: live, free and never used slots make up the whole capacity. */
    lemma Conserved()
      requires Valid()
      ensures liveCount + |freeStack| + Tail(segments) == CapacityTotal(segments)
    {
      TailCounts(segments, slotSize);
    }
  }

  // ----- Pools that go wrong -----

  /** A pool of 64-byte slots on pages of 4096 bytes. */
  method SmallPool() returns (pool: SegmentedObjectPool)
    ensures fresh(pool) && pool.Valid() && pool.segments == [] && pool.freeStack == [] && pool.live == {} && pool.CanAllocate()
  {
    hide SegmentedObjectPool.Valid;
    OnePage();
    pool := new SegmentedObjectPool(4096, 64, 8, 8, 1, 1.0, (n: nat, factor: real) => n as real);
    pool.CanStart();
  }

  lemma OnePage()
    ensures NextMultiple(64, 8) == 64 && LeastFill(1, 1, 4096, 64)
  {
    assert Times(64, 64) == Times(1, 4096);
  }

  /** A concrete pool that `clear` leaves with a pointer into a segment that is gone. */
  method DanglingAfterClear() returns (pool: SegmentedObjectPool)
    ensures fresh(pool) && pool.segments == [] && pool.freeStack != [] && !pool.Valid()
  {
    pool := SmallPool();
    var ok, p := pool.Allocate();
    pool.Deallocate(Some(p));
    pool.Clear();
  }

  /** A concrete pool in which an object that was given back twice is free twice. */
  method FreedTwice() returns (pool: SegmentedObjectPool)
    ensures fresh(pool) && |pool.freeStack| == 2 && pool.freeStack[0] == pool.freeStack[1] && !pool.Valid()
  {
    pool := SmallPool();
    var ok, p := pool.Allocate();
    pool.Deallocate(Some(p));
    pool.Deallocate(Some(p));
  }

  // ----- Runs -----

  /** An operation of a client, which names an object by the number of its allocation. */
  datatype Op = Allocate | Deallocate(object: nat) | Clear

  /** How many objects were allocated, which of them are held, and the most that were held at a time. */
  datatype Usage = Usage(made: nat, held: set<nat>, peak: nat)

  /** Only held objects are given back, and the pool is cleared only while nothing is free. */
  ghost predicate Admissible(u: Usage, op: Op) {
    match op
    case Allocate => true
    case Deallocate(k) => k in u.held
    case Clear => |u.held| == u.peak
  }

  ghost function Use(u: Usage, op: Op): Usage {
    match op
    case Allocate => Usage(u.made + 1, u.held + {u.made}, Max(u.peak, |u.held + {u.made}|))
    case Deallocate(k) => u.(held := u.held - {k})
    case Clear => Usage(u.made, {}, 0)
  }

  ghost function UsageOf(ops: seq<Op>): Usage {
    if ops == [] then Usage(0, {}, 0) else Use(UsageOf(ops[..|ops| - 1]), ops[|ops| - 1])
  }

  ghost predicate AllAdmissible(ops: seq<Op>) {
    forall i :: 0 <= i < |ops| ==> Admissible(UsageOf(ops[..i]), ops[i])
  }

  /** The live pointers are those of the held objects, all different, and with the free ones as many as the peak. */
  ghost predicate Holds(live: set<Pointer>, free: seq<Pointer>, pointers: seq<Pointer>, u: Usage) {
    && |pointers| == u.made && (forall k :: k in u.held ==> k < u.made && pointers[k] in live)
    && (forall j, k :: j in u.held && k in u.held && j != k ==> pointers[j] != pointers[k])
    && |live| == |u.held| && |live| + |free| == u.peak
  }

  lemma HoldsOneMore(live: set<Pointer>, free: seq<Pointer>, pointers: seq<Pointer>, u: Usage, p: Pointer)
    requires Holds(live, free, pointers, u) && p !in live
    ensures Holds(live + {p}, if free == [] then [] else free[..|free| - 1], pointers + [p], Use(u, Allocate))
  {
    assert |live + {p}| == |live| + 1;
  }

  lemma HoldsOneLess(live: set<Pointer>, free: seq<Pointer>, pointers: seq<Pointer>, u: Usage, k: nat)
    requires Holds(live, free, pointers, u) && k in u.held
    ensures Holds(live - {pointers[k]}, free + [pointers[k]], pointers, Use(u, Deallocate(k)))
  {
    assert |live - {pointers[k]}| == |live| - 1;
  }

  /** Any run, up to the first allocation for which there is no word of bytes, if there is one: held objects lie apart in
      their segments, and the pool has handed out no more slots than the most objects that were held at a time. */
  method Replay(pool: SegmentedObjectPool, ops: seq<Op>) returns (pointers: seq<Pointer>, done: nat)
    requires pool.Valid() && pool.live == {} && pool.freeStack == [] && AllAdmissible(ops)
    modifies pool
    ensures done <= |ops| && (done < |ops| ==> ops[done] == Allocate && Times(pool.nextPagesHint, pool.pageSize) >= WORD_LIMIT)
    ensures Holds(pool.live, pool.freeStack, pointers, UsageOf(ops[..done])) && (done < |ops| ==> pool.freeStack == [])
    ensures done == |ops| ==> pool.Valid() && Holds(pool.live, pool.freeStack, pointers, UsageOf(ops))
    ensures done == |ops| ==> pool.liveCount == |UsageOf(ops).held| && UsedTotal(pool.segments) == UsageOf(ops).peak
    ensures done == |ops| ==> Apart(pool, pointers, UsageOf(ops).held)
  {
    hide SegmentedObjectPool.Valid, Holds, Apart;
    pointers := [];
    StartsEmpty(pool);
    for i := 0 to |ops|
      invariant pool.Valid() && Holds(pool.live, pool.freeStack, pointers, UsageOf(ops[..i]))
    {
      assert ops[..i + 1][..i] == ops[..i];
      var ok;
      pointers, ok := Step(pool, pointers, ops[i], UsageOf(ops[..i]));
      if !ok { return pointers, i; }
    }
    assert ops[..|ops|] == ops;
    AllApart(pool, pointers, UsageOf(ops));
    done := |ops|;
  }

  lemma StartsEmpty(pool: SegmentedObjectPool)
    requires pool.live == {} && pool.freeStack == []
    ensures Holds(pool.live, pool.freeStack, [], UsageOf([]))
  {
  }

  /** Held objects do not overlap and lie inside their segments. */
  ghost predicate Apart(pool: SegmentedObjectPool, pointers: seq<Pointer>, held: set<nat>)
    reads pool
  {
    && (forall k :: k in held ==> k < |pointers| && Inside(pointers[k], pool.segments, pool.slotSize))
    && (forall j, k :: j in held && k in held && j != k ==> Disjoint(pointers[j], pointers[k], pool.slotSize))
  }

  method Step(pool: SegmentedObjectPool, pointers: seq<Pointer>, op: Op, ghost u: Usage)
    returns (pointers': seq<Pointer>, ok: bool)
    requires pool.Valid() && Holds(pool.live, pool.freeStack, pointers, u) && Admissible(u, op)
    modifies pool
    ensures ok ==> pool.Valid() && Holds(pool.live, pool.freeStack, pointers', Use(u, op))
    ensures !ok ==> op == Allocate && Times(pool.nextPagesHint, pool.pageSize) >= WORD_LIMIT
    ensures !ok ==> pool.freeStack == [] && Holds(pool.live, pool.freeStack, pointers', u)
  {
    hide SegmentedObjectPool.Valid, Holds;
    ok, pointers' := true, pointers;
    match op {
      case Allocate =>
        ghost var live, free := pool.live, pool.freeStack;
        var p;
        ok, p := pool.Allocate();
        if ok {
          HoldsOneMore(live, free, pointers, u, p);
          pointers' := pointers + [p];
        }
      case Deallocate(k) =>
        HeldIsLive(pool.live, pool.freeStack, pointers, u, k);
        HoldsOneLess(pool.live, pool.freeStack, pointers, u, k);
        pool.Deallocate(Some(pointers[k]));
      case Clear =>
        HoldsNothing(pool.live, pool.freeStack, pointers, u);
        pool.Clear();
    }
  }

  lemma HeldIsLive(live: set<Pointer>, free: seq<Pointer>, pointers: seq<Pointer>, u: Usage, k: nat)
    requires Holds(live, free, pointers, u) && k in u.held
    ensures k < |pointers| && pointers[k] in live
  {
  }

  lemma HoldsNothing(live: set<Pointer>, free: seq<Pointer>, pointers: seq<Pointer>, u: Usage)
    requires Holds(live, free, pointers, u) && |u.held| == u.peak
    ensures free == [] && Holds({}, [], pointers, Use(u, Clear))
  {
  }

  lemma AllApart(pool: SegmentedObjectPool, pointers: seq<Pointer>, u: Usage)
    requires pool.Valid() && Holds(pool.live, pool.freeStack, pointers, u)
    ensures Apart(pool, pointers, u.held)
    ensures pool.liveCount == |u.held| && UsedTotal(pool.segments) == u.peak
  {
    hide Inside, Disjoint;
    forall j, k | j in u.held && k in u.held
      ensures Inside(pointers[k], pool.segments, pool.slotSize)
      ensures j != k ==> Disjoint(pointers[j], pointers[k], pool.slotSize)
    {
      pool.LiveApart(pointers[j], pointers[k]);
      pool.LiveApart(pointers[k], pointers[k]);
    }
  }

  lemma BytesWrapped(bytes: nat)
    ensures bytes % WORD_LIMIT == bytes <==> bytes < WORD_LIMIT
  {
  }

  lemma RoundedSlot(value: nat, alignment: nat, size: nat)
    requires 0 < value < WORD_LIMIT && 0 < alignment < WORD_LIMIT && size == RoundUpToMultiple(value, alignment)
    ensures size >= value && size % alignment == 0 <==> NextMultiple(value, alignment) < WORD_LIMIT
    ensures NextMultiple(value, alignment) < WORD_LIMIT ==> size == NextMultiple(value, alignment)
  {
    var exact := NextMultiple(value, alignment);
    if exact >= WORD_LIMIT { assert exact < 2 * WORD_LIMIT && exact % WORD_LIMIT == exact - WORD_LIMIT; }
  }

  lemma RoundedPages(pages: nat, base: nat)
    requires base > 0
    ensures Divides(base, if pages % base == 0 then pages else pages + (base - pages % base))
  {
    assert pages == (pages / base) * base + pages % base;
    assert (pages / base + 1) * base == (pages / base) * base + base;
    assert Times(if pages % base == 0 then pages / base else pages / base + 1, base)
        == if pages % base == 0 then pages else pages + (base - pages % base);
  }

  /** Cutting off the fraction loses less than one page, and rounding up adds less than one base count. */
  lemma RoundedTarget(target: real, added: nat, pages: nat, base: nat, rounded: nat)
    requires pages == if target.Floor < added then added else target.Floor
    requires pages <= rounded < pages + base
    ensures var aim := if target < added as real then added as real else target;
      aim - 1.0 < rounded as real < aim + base as real
  {
  }

  lemma DividesItself(n: nat)
    ensures Divides(n, n)
  {
    assert Times(1, n) == n;
  }

  lemma SegmentTiles(pages: nat, base: nat, pageSize: nat, slotSize: nat)
    requires pages > 0 && pageSize > 0 && slotSize > 0 && Divides(base, pages) && Fills(base, pageSize, slotSize) && base > 0
    ensures 0 < pages * pageSize && Tiled(Segment(pages * pageSize, pages * pageSize / slotSize, 0), slotSize)
  {
    AtLeastOnce(pages, pageSize);
    var t :| Times(t, base) == pages;
    PositiveFactor(t, base);
    FillsMore(base, t, pageSize, slotSize);
    assert base * t == pages;
    var c :| Times(c, slotSize) == Times(pages, pageSize);
    PositiveFactor(c, slotSize);
    Remainder(pages * pageSize, slotSize, c, 0);
  }

  lemma AddedSegment(segments: seq<Segment>, slotSize: nat, s: Segment)
    requires Segments(segments, slotSize) && Tiled(s, slotSize) && s.nextUninit == 0
    requires segments == [] || segments[|segments| - 1].nextUninit == segments[|segments| - 1].capacity
    ensures Segments(segments + [s], slotSize) && UsedTotal(segments + [s]) == UsedTotal(segments)
    ensures forall p :: HandedOut(segments + [s], slotSize, p) <==> HandedOut(segments, slotSize, p)
  {
    AddedTotal(segments, s);
    AddedSlots(segments, slotSize, s);
    hide Tiled, HandedOut, UsedTotal;
  }

  lemma AddedTotal(segments: seq<Segment>, s: Segment)
    requires s.nextUninit == 0
    ensures UsedTotal(segments + [s]) == UsedTotal(segments)
  {
    assert (segments + [s])[..|segments|] == segments;
  }

  lemma AddedSlots(segments: seq<Segment>, slotSize: nat, s: Segment)
    requires s.nextUninit == 0
    ensures forall p :: HandedOut(segments + [s], slotSize, p) <==> HandedOut(segments, slotSize, p)
  {
    hide SlotAt;
  }

  lemma BumpedSegments(segments: seq<Segment>, slotSize: nat)
    requires Segments(segments, slotSize) && segments != []
    requires segments[|segments| - 1].nextUninit < segments[|segments| - 1].capacity
    ensures var s := segments[|segments| - 1];
      var segments' := segments[|segments| - 1 := s.(nextUninit := s.nextUninit + 1)];
      Segments(segments', slotSize) && UsedTotal(segments') == UsedTotal(segments) + 1
  {
    var s := segments[|segments| - 1];
    var segments' := segments[|segments| - 1 := s.(nextUninit := s.nextUninit + 1)];
    assert segments'[..|segments| - 1] == segments[..|segments| - 1];
  }

  lemma BumpedSlots(segments: seq<Segment>, slotSize: nat, p: Pointer)
    requires segments != [] && slotSize > 0
    requires p == Pointer(|segments| - 1, segments[|segments| - 1].nextUninit * slotSize)
    ensures var s := segments[|segments| - 1];
      var segments' := segments[|segments| - 1 := s.(nextUninit := s.nextUninit + 1)];
      && !HandedOut(segments, slotSize, p)
      && forall q :: HandedOut(segments', slotSize, q) <==> HandedOut(segments, slotSize, q) || q == p
  {
    var s := segments[|segments| - 1];
    var segments' := segments[|segments| - 1 := s.(nextUninit := s.nextUninit + 1)];
    assert SlotAt(p, s.nextUninit, slotSize);
    forall i: nat | i < s.nextUninit
      ensures !SlotAt(p, i, slotSize)
    {
      SlotsApart(i, s.nextUninit, slotSize);
    }
    forall q
      ensures HandedOut(segments', slotSize, q) <==> HandedOut(segments, slotSize, q) || q == p
    {
      if HandedOut(segments', slotSize, q) {
        var i: nat :| i < segments'[q.segment].nextUninit && SlotAt(q, i, slotSize);
        if q.segment == |segments| - 1 && i == s.nextUninit { assert q == p; }
      }
    }
  }
}
