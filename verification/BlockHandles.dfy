/** Threads that allocate, copy, move and drop block handles, as interleaved atomic steps on one bucket.
    A step is one locked section or one atomic read-modify-write of a count. */
module BlockHandles {
  import opened SlotBitmap
  import opened BlockMemPool

  datatype Slot = Slot(segment: nat, index: nat)

  /** A live handle, with the number of the allocation that its slot was acquired for. */
  datatype Handle = Handle(slot: Slot, allocation: nat)

  /** Where a thread is between two of its steps. */
  datatype Pc =
    | Idle
    | Scanning(left: nat)
    | Fresh
    | Found(slot: Slot)
    | Acquired(slot: Slot)
    | Copying(source: nat)
    | Returning(slot: Slot)

  datatype Lock = Free | HeldBy(thread: nat)

  datatype State = State(
    segments: seq<SegmentState>,
    handles: map<nat, Handle>,
    threads: map<nat, Pc>,
    lock: Lock,
    owner: map<Slot, nat>,
    issued: nat,
    returned: set<nat>)

  datatype Step =
    | TakeLock(thread: nat)
    | Try(thread: nat, index: nat)
    | Create(thread: nat, capacity: nat)
    | TryFresh(thread: nat, index: nat)
    | DropLock(thread: nat)
    | Retain(thread: nat, handle: nat)
    | StartCopy(thread: nat, source: nat)
    | EndCopy(thread: nat, handle: nat)
    | Move(thread: nat, from: nat, to: nat)
    | Drop(thread: nat, handle: nat)
    | GiveBack(thread: nat)

  const COUNT_LIMIT: nat := 0x1_0000_0000

  // ----- Slots -----

  ghost predicate Owned(segments: seq<SegmentState>, slot: Slot) {
    slot.segment < |segments| && slot.index in segments[slot.segment].used
  }

  ghost predicate Counted(segments: seq<SegmentState>, slot: Slot) {
    slot.segment < |segments| && slot.index < |segments[slot.segment].counts|
  }

  ghost function Count(segments: seq<SegmentState>, slot: Slot): nat
    requires Counted(segments, slot)
  {
    segments[slot.segment].counts[slot.index]
  }

  /** A 32-bit count after one more or one less. */
  ghost function WithCount(segments: seq<SegmentState>, slot: Slot, count: nat): seq<SegmentState>
    requires Counted(segments, slot)
  {
    var s := segments[slot.segment];
    segments[slot.segment := s.(counts := s.counts[slot.index := count % COUNT_LIMIT])]
  }

  ghost function HandlesOf(handles: map<nat, Handle>, slot: Slot): set<nat> {
    set h | h in handles && handles[h].slot == slot
  }

  /** The window in which a thread owns a slot that no handle refers to. */
  ghost predicate Holds(pc: Pc, slot: Slot) {
    (pc.Found? || pc.Acquired? || pc.Returning?) && pc.slot == slot
  }

  ghost predicate HoldsAny(pc: Pc) { pc.Found? || pc.Acquired? || pc.Returning? }

  ghost predicate SameSlot(p: Pc, q: Pc) { HoldsAny(p) && HoldsAny(q) && p.slot == q.slot }

  ghost predicate Locking(pc: Pc) { pc.Scanning? || pc.Fresh? || pc.Found? }

  // ----- Steps -----

  ghost predicate Pinned(s: State, h: nat) { exists t :: t in s.threads && s.threads[t] == Copying(h) }

  ghost predicate At(s: State, t: nat, pc: Pc) { t in s.threads && s.threads[t] == pc }

  /** What `tryAcquireSlot` on segment `g` does when it succeeds: a new allocation owns the slot. */
  ghost predicate TakesSlot(s: State, s': State, t: nat, g: nat, index: nat) {
    && t in s.threads && g < |s.segments| == |s'.segments|
    && SlotTaken(s.segments[g], s'.segments[g], index)
    && s' == s.(segments := s.segments[g := s'.segments[g]], threads := s.threads[t := Found(Slot(g, index))],
                owner := s.owner[Slot(g, index) := s.issued], issued := s.issued + 1)
  }

  ghost predicate Next(s: State, step: Step, s': State) {
    match step
    case TakeLock(t) =>
      At(s, t, Idle) && s.lock == Free
      && s' == s.(threads := s.threads[t := Scanning(|s.segments|)], lock := HeldBy(t))
    case Try(t, index) =>
      t in s.threads && s.threads[t].Scanning? && 0 < s.threads[t].left <= |s.segments|
      && (var g := s.threads[t].left - 1;
          if Full(s.segments[g]) then s' == s.(threads := s.threads[t := Scanning(g)])
          else TakesSlot(s, s', t, g, index))
    case Create(t, capacity) =>
      At(s, t, Scanning(0)) && capacity > 0
      && s' == s.(segments := s.segments + [SegmentState(capacity, {}, seq(capacity, _ => 0))], threads := s.threads[t := Fresh])
    case TryFresh(t, index) =>
      At(s, t, Fresh) && |s.segments| > 0 && TakesSlot(s, s', t, |s.segments| - 1, index)
    case DropLock(t) =>
      t in s.threads && s.threads[t].Found?
      && s' == s.(threads := s.threads[t := Acquired(s.threads[t].slot)], lock := Free)
    case Retain(t, h) =>
      t in s.threads && s.threads[t].Acquired? && h !in s.handles
      && (var slot := s.threads[t].slot;
          Counted(s.segments, slot) && slot in s.owner
          && s' == s.(segments := WithCount(s.segments, slot, Count(s.segments, slot) + 1),
                      handles := s.handles[h := Handle(slot, s.owner[slot])], threads := s.threads[t := Idle]))
    case StartCopy(t, source) =>
      At(s, t, Idle) && source in s.handles && s' == s.(threads := s.threads[t := Copying(source)])
    case EndCopy(t, h) =>
      t in s.threads && s.threads[t].Copying? && s.threads[t].source in s.handles && h !in s.handles
      && (var slot := s.handles[s.threads[t].source].slot;
          Counted(s.segments, slot)
          && s' == s.(segments := WithCount(s.segments, slot, Count(s.segments, slot) + 1),
                      handles := s.handles[h := s.handles[s.threads[t].source]], threads := s.threads[t := Idle]))
    case Move(t, from, to) =>
      At(s, t, Idle) && from in s.handles && !Pinned(s, from) && to !in s.handles
      && s' == s.(handles := (s.handles - {from})[to := s.handles[from]])
    case Drop(t, h) =>
      At(s, t, Idle) && h in s.handles && !Pinned(s, h)
      && (var slot := s.handles[h].slot;
          Counted(s.segments, slot)
          && s' == s.(segments := WithCount(s.segments, slot, Count(s.segments, slot) + COUNT_LIMIT - 1),
                      handles := s.handles - {h},
                      threads := s.threads[t := if Count(s.segments, slot) == 1 then Returning(slot) else Idle]))
    case GiveBack(t) =>
      t in s.threads && s.threads[t].Returning?
      && (var slot := s.threads[t].slot;
          && slot in s.owner && slot.segment < |s.segments| == |s'.segments|
          && SlotReturned(s.segments[slot.segment], s'.segments[slot.segment], slot.index)
          && s' == s.(segments := s.segments[slot.segment := s'.segments[slot.segment]], threads := s.threads[t := Idle],
                      owner := s.owner - {slot}, returned := s.returned + {s.owner[slot]}))
  }

  // ----- The invariant -----

  ghost predicate Segments(segments: seq<SegmentState>) {
    forall g :: 0 <= g < |segments| ==>
      segments[g].capacity > 0 && |segments[g].counts| == segments[g].capacity
      && forall i :: i in segments[g].used ==> i < segments[g].capacity
  }

  /** The owned slots are those of the allocations that have not been returned. */
  ghost predicate Owners(segments: seq<SegmentState>, owner: map<Slot, nat>, issued: nat, returned: set<nat>) {
    && (forall slot :: slot in owner <==> Owned(segments, slot))
    && (forall slot :: slot in owner ==> owner[slot] < issued && owner[slot] !in returned)
    && (forall a, b :: a in owner && b in owner && owner[a] == owner[b] ==> a == b)
    && (forall n: nat :: n < issued ==> n in returned || n in owner.Values)
    && (forall n :: n in returned ==> n < issued)
  }

  /** The count of an owned slot is the number of its live handles, as far as 32 bits can tell. */
  ghost predicate Counts(segments: seq<SegmentState>, owner: map<Slot, nat>, handles: map<nat, Handle>) {
    forall slot :: slot in owner ==>
      Counted(segments, slot) && Count(segments, slot) == |HandlesOf(handles, slot)| % COUNT_LIMIT
  }

  ghost predicate Handles(owner: map<Slot, nat>, handles: map<nat, Handle>) {
    forall h :: h in handles ==> handles[h].slot in owner && owner[handles[h].slot] == handles[h].allocation
  }

  /** A slot without handles is held by exactly one thread, and a thread holds only such a slot. */
  ghost predicate Windows(threads: map<nat, Pc>, owner: map<Slot, nat>, handles: map<nat, Handle>) {
    && (forall t :: t in threads && HoldsAny(threads[t]) ==>
        threads[t].slot in owner && HandlesOf(handles, threads[t].slot) == {})
    && (forall t, u :: t in threads && u in threads && SameSlot(threads[t], threads[u]) ==> t == u)
    && (forall slot :: slot in owner && HandlesOf(handles, slot) == {} ==>
        exists t :: t in threads && Holds(threads[t], slot))
  }

  ghost predicate Locks(threads: map<nat, Pc>, lock: Lock, segments: seq<SegmentState>, handles: map<nat, Handle>) {
    && (forall t :: t in threads ==> (Locking(threads[t]) <==> lock == HeldBy(t)))
    && (forall t :: t in threads && threads[t].Fresh? ==> |segments| > 0 && segments[|segments| - 1].used == {})
    && (forall t :: t in threads && threads[t].Scanning? ==> threads[t].left <= |segments|)
    && (forall t :: t in threads && threads[t].Copying? ==> threads[t].source in handles)
  }

  ghost predicate Inv(s: State) {
    && Segments(s.segments) && Owners(s.segments, s.owner, s.issued, s.returned)
    && Counts(s.segments, s.owner, s.handles) && Handles(s.owner, s.handles)
    && Windows(s.threads, s.owner, s.handles) && Locks(s.threads, s.lock, s.segments, s.handles)
  }

  ghost predicate Init(s: State) {
    && s.segments == [] && s.handles == map[] && s.lock == Free && s.owner == map[] && s.issued == 0 && s.returned == {}
    && forall t :: t in s.threads ==> s.threads[t] == Idle
  }

  lemma InitHolds(s: State)
    requires Init(s)
    ensures Inv(s)
  {
  }

  // ----- Steps that move one thread only -----

  lemma ThreadMoves(threads: map<nat, Pc>, owner: map<Slot, nat>, handles: map<nat, Handle>, t: nat, pc: Pc)
    requires Windows(threads, owner, handles) && t in threads
    requires HoldsAny(threads[t]) <==> HoldsAny(pc)
    requires HoldsAny(pc) ==> threads[t].slot == pc.slot
    ensures Windows(threads[t := pc], owner, handles)
  {
    var threads' := threads[t := pc];
    forall slot | slot in owner && HandlesOf(handles, slot) == {}
      ensures exists u :: u in threads' && Holds(threads'[u], slot)
    {
      var u :| u in threads && Holds(threads[u], slot);
      assert Holds(threads'[u], slot);
    }
  }

  lemma TakeLockKeeps(s: State, s': State, t: nat)
    requires Inv(s) && Next(s, TakeLock(t), s')
    ensures Inv(s')
  {
    hide Segments, Owners, Counts, Handles, Windows;
    ThreadMoves(s.threads, s.owner, s.handles, t, s'.threads[t]);
  }

  lemma DropLockKeeps(s: State, s': State, t: nat)
    requires Inv(s) && Next(s, DropLock(t), s')
    ensures Inv(s')
  {
    hide Segments, Owners, Counts, Handles, Windows;
    ThreadMoves(s.threads, s.owner, s.handles, t, s'.threads[t]);
  }

  lemma StartCopyKeeps(s: State, s': State, t: nat, source: nat)
    requires Inv(s) && Next(s, StartCopy(t, source), s')
    ensures Inv(s')
  {
    hide Segments, Owners, Counts, Handles, Windows;
    ThreadMoves(s.threads, s.owner, s.handles, t, s'.threads[t]);
  }

  // ----- Acquiring a slot -----

  lemma ValuesAdded(owner: map<Slot, nat>, slot: Slot, n: nat)
    requires slot !in owner
    ensures owner[slot := n].Values == owner.Values + {n}
  {
    var owner' := owner[slot := n];
    assert owner'[slot] == n;
    forall v | v in owner.Values
      ensures v in owner'.Values
    {
      var x :| x in owner && owner[x] == v;
      assert owner'[x] == v;
    }
  }

  lemma OwnersTaken(segments: seq<SegmentState>, segments': seq<SegmentState>,
          owner: map<Slot, nat>, issued: nat, returned: set<nat>, slot: Slot)
    requires Owners(segments, owner, issued, returned) && !Owned(segments, slot)
    requires forall x :: Owned(segments', x) <==> Owned(segments, x) || x == slot
    ensures Owners(segments', owner[slot := issued], issued + 1, returned)
  {
    ValuesAdded(owner, slot, issued);
  }

  lemma CountsTaken(segments: seq<SegmentState>, segments': seq<SegmentState>,
          owner: map<Slot, nat>, handles: map<nat, Handle>, slot: Slot, n: nat)
    requires Counts(segments, owner, handles) && HandlesOf(handles, slot) == {}
    requires forall x :: x in owner ==> Counted(segments', x) && Count(segments', x) == Count(segments, x)
    requires Counted(segments', slot) && Count(segments', slot) == 0
    ensures Counts(segments', owner[slot := n], handles)
  {
  }

  lemma WindowOpened(threads: map<nat, Pc>, owner: map<Slot, nat>, handles: map<nat, Handle>, t: nat, slot: Slot, n: nat)
    requires Windows(threads, owner, handles) && t in threads && !HoldsAny(threads[t]) && slot !in owner
    requires HandlesOf(handles, slot) == {}
    ensures Windows(threads[t := Found(slot)], owner[slot := n], handles)
  {
    var threads' := threads[t := Found(slot)];
    forall x | x in owner[slot := n] && HandlesOf(handles, x) == {}
      ensures exists u :: u in threads' && Holds(threads'[u], x)
    {
      if x == slot {
        assert Holds(threads'[t], x);
      } else {
        var u :| u in threads && Holds(threads[u], x);
        assert Holds(threads'[u], x);
      }
    }
  }

  lemma NoHandles(owner: map<Slot, nat>, handles: map<nat, Handle>, slot: Slot)
    requires Handles(owner, handles) && slot !in owner
    ensures HandlesOf(handles, slot) == {}
  {
  }

  /** How one segment's change shows in the slots. */
  lemma SlotsTaken(segments: seq<SegmentState>, g: nat, after: SegmentState, index: nat)
    requires g < |segments| && SlotTaken(segments[g], after, index) && Segments(segments)
    ensures var slot, segments' := Slot(g, index), segments[g := after];
      && Segments(segments') && !Owned(segments, slot) && Counted(segments', slot) && Count(segments', slot) == 0
      && (forall x :: Owned(segments', x) <==> Owned(segments, x) || x == slot)
      && (forall x :: Owned(segments, x) ==> Counted(segments, x) && Counted(segments', x) && Count(segments', x) == Count(segments, x))
  {
  }

  lemma TakesSlotKeeps(s: State, s': State, t: nat, g: nat, index: nat)
    requires Inv(s) && TakesSlot(s, s', t, g, index) && (s.threads[t].Scanning? || s.threads[t].Fresh?)
    ensures Inv(s') && Slot(g, index) !in s.owner && HandlesOf(s.handles, Slot(g, index)) == {}
  {
    hide SlotTaken, Owners, Counts, Windows, Handles, Segments, HandlesOf, Locks, Count, Counted;
    var slot := Slot(g, index);
    SlotsTaken(s.segments, g, s'.segments[g], index);
    OwnedSlots(s);
    NoHandles(s.owner, s.handles, slot);
    OwnersTaken(s.segments, s'.segments, s.owner, s.issued, s.returned, slot);
    CountsTaken(s.segments, s'.segments, s.owner, s.handles, slot, s.issued);
    WindowOpened(s.threads, s.owner, s.handles, t, slot, s.issued);
    HandlesKept(s.owner, s.handles, slot, s.issued);
    LocksFound(s.threads, s.lock, s.segments, s'.segments, s.handles, t, slot);
  }

  lemma OwnedSlots(s: State)
    requires Owners(s.segments, s.owner, s.issued, s.returned)
    ensures forall slot :: slot in s.owner <==> Owned(s.segments, slot)
  {
  }

  lemma HandlesKept(owner: map<Slot, nat>, handles: map<nat, Handle>, slot: Slot, n: nat)
    requires Handles(owner, handles) && slot !in owner
    ensures Handles(owner[slot := n], handles)
  {
  }

  /** Only the thread with the lock changes which slots are taken, so a fresh segment stays empty for it. */
  lemma LocksFound(threads: map<nat, Pc>, lock: Lock, segments: seq<SegmentState>,
          segments': seq<SegmentState>, handles: map<nat, Handle>, t: nat, slot: Slot)
    requires Locks(threads, lock, segments, handles) && t in threads && Locking(threads[t]) && |segments| == |segments'|
    ensures Locks(threads[t := Found(slot)], lock, segments', handles)
  {
  }

  lemma TryKeeps(s: State, s': State, t: nat, index: nat)
    requires Inv(s) && Next(s, Try(t, index), s')
    ensures Inv(s')
  {
    hide TakesSlot, Owners, Counts, Handles, Segments;
    var g := s.threads[t].left - 1;
    if Full(s.segments[g]) {
      ThreadMoves(s.threads, s.owner, s.handles, t, Scanning(g));
    } else {
      TakesSlotKeeps(s, s', t, g, index);
    }
  }

  lemma CreateKeeps(s: State, s': State, t: nat, capacity: nat)
    requires Inv(s) && Next(s, Create(t, capacity), s')
    ensures Inv(s')
  {
    hide Windows, HandlesOf, Handles;
    ThreadMoves(s.threads, s.owner, s.handles, t, Fresh);
    assert forall x :: Owned(s'.segments, x) <==> Owned(s.segments, x);
    assert forall x :: Counted(s.segments, x) ==> Counted(s'.segments, x) && Count(s'.segments, x) == Count(s.segments, x);
  }

  // ----- Handles come and go -----

  lemma HandleAdded(handles: map<nat, Handle>, h: nat, x: Handle)
    requires h !in handles
    ensures forall slot ::
      HandlesOf(handles[h := x], slot) == if slot == x.slot then HandlesOf(handles, slot) + {h} else HandlesOf(handles, slot)
    ensures h !in HandlesOf(handles, x.slot)
  {
  }

  lemma HandleRemoved(handles: map<nat, Handle>, h: nat)
    requires h in handles
    ensures forall slot ::
      HandlesOf(handles - {h}, slot) == if slot == handles[h].slot then HandlesOf(handles, slot) - {h} else HandlesOf(handles, slot)
    ensures h in HandlesOf(handles, handles[h].slot)
  {
  }

  /** How the change of one count shows in the slots. */
  lemma SlotsCounted(segments: seq<SegmentState>, slot: Slot, n: nat)
    requires Counted(segments, slot) && Segments(segments)
    ensures var segments' := WithCount(segments, slot, n);
      && Segments(segments') && |segments'| == |segments| && Counted(segments', slot) && Count(segments', slot) == n % COUNT_LIMIT
      && (forall x :: Owned(segments', x) <==> Owned(segments, x))
      && (forall g :: 0 <= g < |segments| ==> segments'[g].used == segments[g].used)
      && (forall x :: x != slot && Counted(segments, x) ==> Counted(segments', x) && Count(segments', x) == Count(segments, x))
  {
  }

  lemma OwnersKept(segments: seq<SegmentState>, segments': seq<SegmentState>, owner: map<Slot, nat>, issued: nat, returned: set<nat>)
    requires Owners(segments, owner, issued, returned) && forall x :: Owned(segments', x) <==> Owned(segments, x)
    ensures Owners(segments', owner, issued, returned)
  {
  }

  lemma CountsMore(segments: seq<SegmentState>, segments': seq<SegmentState>,
          owner: map<Slot, nat>, handles: map<nat, Handle>, h: nat, x: Handle)
    requires Counts(segments, owner, handles) && h !in handles && x.slot in owner
    requires Counted(segments', x.slot) && Count(segments', x.slot) == (Count(segments, x.slot) + 1) % COUNT_LIMIT
    requires forall y :: y in owner && y != x.slot ==> Counted(segments', y) && Count(segments', y) == Count(segments, y)
    ensures Counts(segments', owner, handles[h := x])
  {
    hide HandlesOf, Count, Counted;
    HandleAdded(handles, h, x);
    OneMore(|HandlesOf(handles, x.slot)|);
  }

  lemma CountsFewer(segments: seq<SegmentState>, segments': seq<SegmentState>,
          owner: map<Slot, nat>, handles: map<nat, Handle>, h: nat)
    requires Counts(segments, owner, handles) && h in handles && handles[h].slot in owner
    requires Counted(segments', handles[h].slot)
    requires Count(segments', handles[h].slot) == (Count(segments, handles[h].slot) + COUNT_LIMIT - 1) % COUNT_LIMIT
    requires forall y :: y in owner && y != handles[h].slot ==> Counted(segments', y) && Count(segments', y) == Count(segments, y)
    ensures Counts(segments', owner, handles - {h})
  {
    hide HandlesOf, Count, Counted;
    HandleRemoved(handles, h);
    LastHandle(HandlesOf(handles, handles[h].slot), h);
    OneLess(|HandlesOf(handles, handles[h].slot)|);
  }

  /** Wrapping counts follow the number of handles. */
  lemma OneMore(n: nat)
    ensures (n % COUNT_LIMIT + 1) % COUNT_LIMIT == (n + 1) % COUNT_LIMIT
  {
  }

  lemma OneLess(n: nat)
    requires n > 0
    ensures (n % COUNT_LIMIT + COUNT_LIMIT - 1) % COUNT_LIMIT == (n - 1) % COUNT_LIMIT
  {
  }

  lemma HandlesMore(owner: map<Slot, nat>, handles: map<nat, Handle>, h: nat, x: Handle)
    requires Handles(owner, handles) && x.slot in owner && owner[x.slot] == x.allocation
    ensures Handles(owner, handles[h := x])
  {
  }

  lemma HandlesFewer(owner: map<Slot, nat>, handles: map<nat, Handle>, h: nat)
    requires Handles(owner, handles)
    ensures Handles(owner, handles - {h})
  {
  }

  lemma LocksIdle(threads: map<nat, Pc>, lock: Lock, segments: seq<SegmentState>, segments': seq<SegmentState>,
          handles: map<nat, Handle>, handles': map<nat, Handle>, t: nat, pc: Pc)
    requires Locks(threads, lock, segments, handles) && t in threads && !Locking(threads[t]) && !Locking(pc) && !pc.Copying?
    requires |segments'| == |segments| && forall g :: 0 <= g < |segments| ==> segments'[g].used <= segments[g].used
    requires forall h, u :: h in handles && u in threads && u != t && threads[u] == Copying(h) ==> h in handles'
    ensures Locks(threads[t := pc], lock, segments', handles')
  {
  }

  /** The first handle closes the window between `tryAcquireSlot` and `retain`. */
  lemma WindowClosed(threads: map<nat, Pc>, owner: map<Slot, nat>, handles: map<nat, Handle>, t: nat, h: nat, x: Handle)
    requires Windows(threads, owner, handles) && t in threads && Holds(threads[t], x.slot) && h !in handles
    ensures Windows(threads[t := Idle], owner, handles[h := x])
  {
    hide HandlesOf;
    HandleAdded(handles, h, x);
    var threads', handles' := threads[t := Idle], handles[h := x];
    forall y | y in owner && HandlesOf(handles', y) == {}
      ensures exists u :: u in threads' && Holds(threads'[u], y)
    {
      assert h in HandlesOf(handles', x.slot);
      var u :| u in threads && Holds(threads[u], y);
      assert Holds(threads'[u], y);
    }
  }

  lemma RetainKeeps(s: State, s': State, t: nat, h: nat)
    requires Inv(s) && Next(s, Retain(t, h), s')
    ensures Inv(s')
  {
    hide HandlesOf, Windows, Locks, Counts, Owners, Handles, Segments, Counted, Count, WithCount;
    var slot := s.threads[t].slot;
    var x := Handle(slot, s.owner[slot]);
    HeldSlot(s, t);
    SlotsCounted(s.segments, slot, Count(s.segments, slot) + 1);
    OwnedCounted(s);
    OwnersKept(s.segments, s'.segments, s.owner, s.issued, s.returned);
    CountsMore(s.segments, s'.segments, s.owner, s.handles, h, x);
    HandlesMore(s.owner, s.handles, h, x);
    LocksIdle(s.threads, s.lock, s.segments, s'.segments, s.handles, s'.handles, t, Idle);
    WindowClosed(s.threads, s.owner, s.handles, t, h, x);
  }

  lemma HeldSlot(s: State, t: nat)
    requires Inv(s) && t in s.threads && HoldsAny(s.threads[t])
    ensures s.threads[t].slot in s.owner && HandlesOf(s.handles, s.threads[t].slot) == {}
    ensures Counted(s.segments, s.threads[t].slot) && Count(s.segments, s.threads[t].slot) == 0
  {
    hide Segments, Owners, Handles, Locks;
  }

  lemma OwnedCounted(s: State)
    requires Inv(s)
    ensures forall y :: y in s.owner ==>
      Counted(s.segments, y) && Count(s.segments, y) == |HandlesOf(s.handles, y)| % COUNT_LIMIT
    ensures forall y :: y in s.owner <==> Owned(s.segments, y)
  {
  }

  /** One more handle on a slot that has handles. */
  lemma WindowsMore(threads: map<nat, Pc>, owner: map<Slot, nat>, handles: map<nat, Handle>, t: nat, h: nat, x: Handle)
    requires Windows(threads, owner, handles) && t in threads && !HoldsAny(threads[t]) && h !in handles
    requires HandlesOf(handles, x.slot) != {}
    ensures Windows(threads[t := Idle], owner, handles[h := x])
  {
    ThreadMoves(threads, owner, handles, t, Idle);
    hide HandlesOf;
    HandleAdded(handles, h, x);
  }

  lemma EndCopyKeeps(s: State, s': State, t: nat, h: nat)
    requires Inv(s) && Next(s, EndCopy(t, h), s')
    ensures Inv(s')
  {
    hide HandlesOf, Windows, Locks, Counts, Owners, Handles, Segments, Counted, Count, WithCount;
    var x := s.handles[s.threads[t].source];
    OwnedHandle(s, s.threads[t].source);
    SlotsCounted(s.segments, x.slot, Count(s.segments, x.slot) + 1);
    OwnedCounted(s);
    OwnersKept(s.segments, s'.segments, s.owner, s.issued, s.returned);
    CountsMore(s.segments, s'.segments, s.owner, s.handles, h, x);
    HandlesMore(s.owner, s.handles, h, x);
    LocksIdle(s.threads, s.lock, s.segments, s'.segments, s.handles, s'.handles, t, Idle);
    WindowsMore(s.threads, s.owner, s.handles, t, h, x);
  }

  lemma OwnedHandle(s: State, h: nat)
    requires Inv(s) && h in s.handles
    ensures s.handles[h].slot in s.owner && s.owner[s.handles[h].slot] == s.handles[h].allocation
    ensures h in HandlesOf(s.handles, s.handles[h].slot)
    ensures Counted(s.segments, s.handles[h].slot)
  {
  }

  /** A moved handle keeps the number of handles of every slot. */
  lemma HandleMoved(handles: map<nat, Handle>, from: nat, to: nat)
    requires from in handles && to !in handles
    ensures forall slot :: |HandlesOf((handles - {from})[to := handles[from]], slot)| == |HandlesOf(handles, slot)|
  {
    hide HandlesOf;
    HandleRemoved(handles, from);
    HandleAdded(handles - {from}, to, handles[from]);
  }

  lemma MoveKeeps(s: State, s': State, t: nat, from: nat, to: nat)
    requires Inv(s) && Next(s, Move(t, from, to), s')
    ensures Inv(s')
  {
    hide HandlesOf, Owners, Segments, Counted, Count, Handles, Pinned;
    HandleMoved(s.handles, from, to);
    OwnedHandle(s, from);
    HandlesFewer(s.owner, s.handles, from);
    HandlesMore(s.owner, s.handles - {from}, to, s.handles[from]);
    SameSizes(s.threads, s.owner, s.handles, s'.handles);
    NotPinned(s, from);
  }

  lemma NotPinned(s: State, h: nat)
    requires !Pinned(s, h)
    ensures forall t :: t in s.threads ==> s.threads[t] != Copying(h)
  {
  }

  lemma SameSizes(threads: map<nat, Pc>, owner: map<Slot, nat>, handles: map<nat, Handle>, handles': map<nat, Handle>)
    requires Windows(threads, owner, handles)
    requires forall slot :: |HandlesOf(handles', slot)| == |HandlesOf(handles, slot)|
    ensures Windows(threads, owner, handles')
  {
    hide HandlesOf;
    forall slot
      ensures HandlesOf(handles', slot) == {} <==> HandlesOf(handles, slot) == {}
    {
      assert |HandlesOf(handles', slot)| == |HandlesOf(handles, slot)|;
    }
  }

  /** The drop of the last handle opens the window before `releaseSlot`; any other drop opens none. */
  lemma WindowsFewer(threads: map<nat, Pc>, owner: map<Slot, nat>, handles: map<nat, Handle>, t: nat, h: nat, last: bool)
    requires Windows(threads, owner, handles) && t in threads && threads[t] == Idle && h in handles && handles[h].slot in owner
    requires last <==> HandlesOf(handles, handles[h].slot) == {h}
    ensures Windows(threads[t := if last then Returning(handles[h].slot) else Idle], owner, handles - {h})
  {
    hide HandlesOf;
    HandleRemoved(handles, h);
    var slot := handles[h].slot;
    var threads', handles' := threads[t := if last then Returning(slot) else Idle], handles - {h};
    forall y | y in owner && HandlesOf(handles', y) == {}
      ensures exists u :: u in threads' && Holds(threads'[u], y)
    {
      if y == slot {
        assert HandlesOf(handles, slot) - {h} == {};
        assert Holds(threads'[t], y);
      } else {
        var u :| u in threads && Holds(threads[u], y);
        assert Holds(threads'[u], y);
      }
    }
  }

  /** Dropping the handle sends the slot back with its last handle, and not before. */
  ghost predicate SafeDrop(s: State, h: nat)
    requires h in s.handles
  {
    var n := |HandlesOf(s.handles, s.handles[h].slot)|;
    n == 1 || n % COUNT_LIMIT != 1
  }

  /** The drop sends the slot back exactly when the count reads 1, and that is the last handle exactly when it is safe. */
  lemma DropReturns(s: State, s': State, t: nat, h: nat)
    requires Next(s, Drop(t, h), s')
    requires Count(s.segments, s.handles[h].slot) == |HandlesOf(s.handles, s.handles[h].slot)| % COUNT_LIMIT
    ensures s'.threads[t].Returning? <==> |HandlesOf(s.handles, s.handles[h].slot)| % COUNT_LIMIT == 1
    ensures (s'.threads[t].Returning? <==> HandlesOf(s'.handles, s.handles[h].slot) == {}) <==> SafeDrop(s, h)
  {
    hide HandlesOf, WithCount, Counted, Pinned;
    HandleRemoved(s.handles, h);
    LastHandle(HandlesOf(s.handles, s.handles[h].slot), h);
  }

  lemma DropKeeps(s: State, s': State, t: nat, h: nat)
    requires Inv(s) && Next(s, Drop(t, h), s') && SafeDrop(s, h)
    ensures Inv(s')
  {
    hide HandlesOf, Windows, Locks, Counts, Owners, Handles, Segments, Counted, Count, WithCount, Pinned;
    var slot := s.handles[h].slot;
    OwnedHandle(s, h);
    OwnedCounted(s);
    LastHandle(HandlesOf(s.handles, slot), h);
    SlotsCounted(s.segments, slot, Count(s.segments, slot) + COUNT_LIMIT - 1);
    OwnersKept(s.segments, s'.segments, s.owner, s.issued, s.returned);
    CountsFewer(s.segments, s'.segments, s.owner, s.handles, h);
    HandlesFewer(s.owner, s.handles, h);
    NotPinned(s, h);
    LocksIdle(s.threads, s.lock, s.segments, s'.segments, s.handles, s'.handles, t, s'.threads[t]);
    WindowsFewer(s.threads, s.owner, s.handles, t, h, Count(s.segments, slot) == 1);
  }

  /** A drop keeps the invariant if and only if it is safe. */
  lemma DropExact(s: State, s': State, t: nat, h: nat)
    requires Inv(s) && Next(s, Drop(t, h), s')
    ensures Inv(s') <==> SafeDrop(s, h)
  {
    if SafeDrop(s, h) {
      DropKeeps(s, s', t, h);
    } else {
      OwnedCounted(s);
      OwnedHandle(s, h);
      DropReturns(s, s', t, h);
      hide HandlesOf, Locks, Counts, Owners, Handles, Segments, Counted, Count, WithCount, Pinned;
      assert HoldsAny(s'.threads[t]) && s'.threads[t].slot == s.handles[h].slot;
    }
  }

  lemma LastHandle(hs: set<nat>, h: nat)
    requires h in hs
    ensures |hs| >= 1 && (|hs| == 1 <==> hs == {h})
  {
    SubsetSize({h}, hs);
  }

  // ----- Returning a slot -----

  lemma ValuesRemoved(owner: map<Slot, nat>, slot: Slot)
    requires slot in owner && forall a, b :: a in owner && b in owner && owner[a] == owner[b] ==> a == b
    ensures (owner - {slot}).Values == owner.Values - {owner[slot]}
  {
    var owner' := owner - {slot};
    forall v | v in owner.Values && v != owner[slot]
      ensures v in owner'.Values
    {
      var x :| x in owner && owner[x] == v;
      assert x in owner' && owner'[x] == v;
    }
  }

  lemma OwnersReturned(segments: seq<SegmentState>, segments': seq<SegmentState>,
          owner: map<Slot, nat>, issued: nat, returned: set<nat>, slot: Slot)
    requires Owners(segments, owner, issued, returned) && slot in owner
    requires forall x :: Owned(segments', x) <==> Owned(segments, x) && x != slot
    ensures Owners(segments', owner - {slot}, issued, returned + {owner[slot]})
  {
    ValuesRemoved(owner, slot);
  }

  lemma SlotsReturned(segments: seq<SegmentState>, g: nat, after: SegmentState, index: nat)
    requires g < |segments| && SlotReturned(segments[g], after, index) && Segments(segments)
    ensures var slot, segments' := Slot(g, index), segments[g := after];
      && Segments(segments') && (forall x :: Owned(segments', x) <==> Owned(segments, x) && x != slot)
      && (forall i :: 0 <= i < |segments| ==> segments'[i].used <= segments[i].used)
      && (forall x :: x != slot && Counted(segments, x) ==> Counted(segments', x) && Count(segments', x) == Count(segments, x))
  {
  }

  lemma WindowReturned(threads: map<nat, Pc>, owner: map<Slot, nat>, handles: map<nat, Handle>, t: nat)
    requires Windows(threads, owner, handles) && t in threads && HoldsAny(threads[t])
    ensures Windows(threads[t := Idle], owner - {threads[t].slot}, handles)
  {
    hide HandlesOf;
    var threads', slot := threads[t := Idle], threads[t].slot;
    forall u | u in threads' && HoldsAny(threads'[u])
      ensures threads'[u].slot in owner - {slot}
    {
      assert SameSlot(threads[u], threads[t]) <==> threads[u].slot == slot;
    }
    forall y | y in owner - {slot} && HandlesOf(handles, y) == {}
      ensures exists u :: u in threads' && Holds(threads'[u], y)
    {
      var u :| u in threads && Holds(threads[u], y);
      assert Holds(threads'[u], y);
    }
  }

  lemma HandlesWithout(owner: map<Slot, nat>, handles: map<nat, Handle>, slot: Slot)
    requires Handles(owner, handles) && HandlesOf(handles, slot) == {}
    ensures Handles(owner - {slot}, handles)
  {
    forall h | h in handles
      ensures handles[h].slot != slot
    {
      assert h !in HandlesOf(handles, slot);
    }
  }

  lemma CountsWithout(segments: seq<SegmentState>, segments': seq<SegmentState>,
          owner: map<Slot, nat>, handles: map<nat, Handle>, slot: Slot)
    requires Counts(segments, owner, handles)
    requires forall y :: y != slot && Counted(segments, y) ==> Counted(segments', y) && Count(segments', y) == Count(segments, y)
    ensures Counts(segments', owner - {slot}, handles)
  {
    hide Counted, Count, HandlesOf;
  }

  /** A slot is given back once: its allocation had not been returned before. */
  lemma GiveBackKeeps(s: State, s': State, t: nat)
    requires Inv(s) && Next(s, GiveBack(t), s')
    ensures Inv(s')
    ensures s.threads[t].slot in s.owner && s.owner[s.threads[t].slot] !in s.returned
    ensures HandlesOf(s.handles, s.threads[t].slot) == {}
  {
    hide HandlesOf, Windows, Locks, Counts, Handles, Segments, Counted, Count, SlotReturned, Owned;
    var slot := s.threads[t].slot;
    HeldSlot(s, t);
    SlotsReturned(s.segments, slot.segment, s'.segments[slot.segment], slot.index);
    OwnersReturned(s.segments, s'.segments, s.owner, s.issued, s.returned, slot);
    CountsWithout(s.segments, s'.segments, s.owner, s.handles, slot);
    HandlesWithout(s.owner, s.handles, slot);
    LocksIdle(s.threads, s.lock, s.segments, s'.segments, s.handles, s'.handles, t, Idle);
    WindowReturned(s.threads, s.owner, s.handles, t);
  }

  lemma TryFreshKeeps(s: State, s': State, t: nat, index: nat)
    requires Inv(s) && Next(s, TryFresh(t, index), s')
    ensures Inv(s')
  {
    hide TakesSlot, Segments, Owners, Counts, Handles, Windows, Locks;
    TakesSlotKeeps(s, s', t, |s.segments| - 1, index);
  }

  // ----- Runs -----

  /** Every step but a drop that is not safe keeps the invariant. */
  lemma StepExact(s: State, step: Step, s': State)
    requires Inv(s) && Next(s, step, s')
    ensures step.Drop? ==> step.handle in s.handles
    ensures Inv(s') <==> (step.Drop? ==> SafeDrop(s, step.handle))
  {
    hide Inv, SafeDrop;
    if step.Drop? { DropExact(s, s', step.thread, step.handle); }
    hide Next;
    match step {
      case TakeLock(t) => TakeLockKeeps(s, s', t);
      case Try(t, index) => TryKeeps(s, s', t, index);
      case Create(t, capacity) => CreateKeeps(s, s', t, capacity);
      case TryFresh(t, index) => TryFreshKeeps(s, s', t, index);
      case DropLock(t) => DropLockKeeps(s, s', t);
      case Retain(t, h) => RetainKeeps(s, s', t, h);
      case StartCopy(t, source) => StartCopyKeeps(s, s', t, source);
      case EndCopy(t, h) => EndCopyKeeps(s, s', t, h);
      case Move(t, from, to) => MoveKeeps(s, s', t, from, to);
      case Drop(t, h) =>
      case GiveBack(t) => GiveBackKeeps(s, s', t);
    }
  }

  ghost predicate Run(states: seq<State>, steps: seq<Step>) {
    && |states| == |steps| + 1 && Init(states[0])
    && forall i :: 0 <= i < |steps| ==> Next(states[i], steps[i], states[i + 1])
  }

  ghost predicate SafeStep(s: State, step: Step) {
    step.Drop? && step.handle in s.handles ==> SafeDrop(s, step.handle)
  }

  /** A run in which no drop is mistaken for the drop of the last handle. */
  ghost predicate SafeRun(states: seq<State>, steps: seq<Step>) {
    Run(states, steps) && forall i :: 0 <= i < |steps| ==> SafeStep(states[i], steps[i])
  }

  /** Every state of every safe interleaving keeps the invariant. */
  lemma {:induction false} RunKeeps(states: seq<State>, steps: seq<Step>, n: nat)
    requires SafeRun(states, steps) && n <= |steps|
    ensures Inv(states[n])
  {
    hide Inv, Init, Next, SafeDrop;
    if n == 0 {
      InitHolds(states[0]);
    } else {
      RunKeeps(states, steps, n - 1);
      assert SafeStep(states[n - 1], steps[n - 1]);
      StepExact(states[n - 1], steps[n - 1], states[n]);
    }
  }

  /** An interleaving keeps the invariant throughout if and only if it is safe. */
  lemma RunExact(states: seq<State>, steps: seq<Step>)
    requires Run(states, steps)
    ensures (forall n :: 0 <= n <= |steps| ==> Inv(states[n])) <==> SafeRun(states, steps)
  {
    hide Inv, Init, Next, SafeDrop;
    if SafeRun(states, steps) {
      forall n | 0 <= n <= |steps|
        ensures Inv(states[n])
      {
        RunKeeps(states, steps, n);
      }
    } else {
      var i :| 0 <= i < |steps| && !SafeStep(states[i], steps[i]);
      if Inv(states[i]) { StepExact(states[i], steps[i], states[i + 1]); }
    }
  }

  /** While no slot has more than 2^32 handles, every interleaving is safe. */
  lemma FewHandlesSafe(states: seq<State>, steps: seq<Step>)
    requires Run(states, steps)
    requires forall n, slot :: 0 <= n <= |steps| ==> |HandlesOf(states[n].handles, slot)| <= COUNT_LIMIT
    ensures SafeRun(states, steps)
  {
    hide Next, Init, HandlesOf;
    forall i | 0 <= i < |steps|
      ensures SafeStep(states[i], steps[i])
    {
      if steps[i].Drop? && steps[i].handle in states[i].handles {
        var slot := states[i].handles[steps[i].handle].slot;
        assert |HandlesOf(states[i].handles, slot)| <= COUNT_LIMIT;
        assert steps[i].handle in HandlesOf(states[i].handles, slot) by { HandleRemoved(states[i].handles, steps[i].handle); }
      }
    }
  }

  /** Handles of one slot stem from one allocation. */
  ghost predicate OneAllocation(s: State) {
    forall h, k :: h in s.handles && k in s.handles && SlotOf(s, h) == SlotOf(s, k) ==> s.handles[h].allocation == s.handles[k].allocation
  }

  ghost function SlotOf(s: State, h: nat): Slot
    requires h in s.handles
  {
    s.handles[h].slot
  }

  /** The count of the slot of a handle is the number of its handles modulo 2^32. */
  ghost predicate CountIsHandles(s: State) {
    forall h :: h in s.handles ==>
      Counted(s.segments, SlotOf(s, h)) && Count(s.segments, SlotOf(s, h)) == |HandlesOf(s.handles, SlotOf(s, h))| % COUNT_LIMIT
  }

  ghost predicate OnlyHolder(s: State, t: nat, slot: Slot) {
    t in s.threads && Holds(s.threads[t], slot) && forall u :: u in s.threads && Holds(s.threads[u], slot) ==> u == t
  }

  /** A taken slot without handles is in the hands of exactly one thread. */
  ghost predicate OneHolder(s: State) {
    forall slot :: Owned(s.segments, slot) && HandlesOf(s.handles, slot) == {} ==> exists t :: OnlyHolder(s, t, slot)
  }

  /** What clients can rely on in every reachable state. */
  lemma Exclusive(states: seq<State>, steps: seq<Step>, n: nat)
    requires SafeRun(states, steps) && n <= |steps|
    ensures OneAllocation(states[n]) && CountIsHandles(states[n]) && OneHolder(states[n])
  {
    hide Inv, OneAllocation, CountIsHandles, OneHolder;
    RunKeeps(states, steps, n);
    HoldersUnique(states[n]);
    CountsOfHandles(states[n]);
  }

  lemma HoldersUnique(s: State)
    requires Inv(s)
    ensures OneHolder(s)
  {
    hide HandlesOf, Counts, Handles, Locks, Segments;
    forall slot | Owned(s.segments, slot) && HandlesOf(s.handles, slot) == {}
      ensures exists t :: OnlyHolder(s, t, slot)
    {
      var t :| t in s.threads && Holds(s.threads[t], slot);
      assert forall u :: u in s.threads && Holds(s.threads[u], slot) ==> SameSlot(s.threads[t], s.threads[u]);
      assert OnlyHolder(s, t, slot);
    }
  }

  lemma CountsOfHandles(s: State)
    requires Inv(s)
    ensures OneAllocation(s) && CountIsHandles(s)
  {
    hide HandlesOf, Windows, Locks, Segments, Count, Counted;
  }

  /** An acquisition never takes a slot that another allocation still owns or that a handle refers to. */
  lemma NeverTwice(states: seq<State>, steps: seq<Step>, n: nat, t: nat, g: nat, index: nat)
    requires SafeRun(states, steps) && n < |steps| && TakesSlot(states[n], states[n + 1], t, g, index)
    requires steps[n] == Try(t, index) || steps[n] == TryFresh(t, index)
    ensures Slot(g, index) !in states[n].owner && HandlesOf(states[n].handles, Slot(g, index)) == {}
  {
    hide Inv, TakesSlot;
    RunKeeps(states, steps, n);
    TakesSlotKeeps(states[n], states[n + 1], t, g, index);
  }

  /** A segment that was just created always has a free slot, so the source's exception is never thrown. */
  lemma FreshSegmentHasRoom(states: seq<State>, steps: seq<Step>, n: nat, t: nat)
    requires SafeRun(states, steps) && n <= |steps| && t in states[n].threads && states[n].threads[t] == Fresh
    ensures |states[n].segments| > 0 && !Full(states[n].segments[|states[n].segments| - 1])
  {
    RunKeeps(states, steps, n);
  }

  lemma {:induction false} ReturnedStays(states: seq<State>, steps: seq<Step>, i: nat, j: nat)
    requires Run(states, steps) && i <= j <= |steps|
    ensures states[i].returned <= states[j].returned
    decreases j
  {
    hide Init;
    if i < j {
      ReturnedStays(states, steps, i, j - 1);
      ReturnedGrows(states[j - 1], steps[j - 1], states[j]);
    }
  }

  lemma ReturnedGrows(s: State, step: Step, s': State)
    requires Next(s, step, s')
    ensures s.returned <= s'.returned
    ensures step.GiveBack? ==> s.threads[step.thread].slot in s.owner && s.owner[s.threads[step.thread].slot] in s'.returned
  {
    hide HandlesOf, SlotReturned, SlotTaken, Count, Counted, WithCount;
  }

  /** No allocation gives its slot back twice. */
  lemma ReturnedOnce(states: seq<State>, steps: seq<Step>, i: nat, j: nat)
    requires SafeRun(states, steps) && i < j < |steps| && steps[i].GiveBack? && steps[j].GiveBack?
    ensures Allocation(states[i], steps[i].thread) != Allocation(states[j], steps[j].thread)
  {
    hide Inv;
    RunKeeps(states, steps, i);
    RunKeeps(states, steps, j);
    ReturnedGrows(states[i], steps[i], states[i + 1]);
    ReturnedStays(states, steps, i + 1, j);
    GiveBackKeeps(states[i], states[i + 1], steps[i].thread);
    GiveBackKeeps(states[j], states[j + 1], steps[j].thread);
  }

  /** The allocation whose slot the thread is about to give back. */
  ghost function Allocation(s: State, t: nat): int {
    if t in s.threads && HoldsAny(s.threads[t]) && s.threads[t].slot in s.owner then s.owner[s.threads[t].slot] else -1
  }

  /** Once all threads are idle and no handle is left, every allocation has been returned and no slot is taken. */
  lemma AllReturned(states: seq<State>, steps: seq<Step>, n: nat)
    requires SafeRun(states, steps) && n <= |steps|
    requires states[n].handles == map[] && forall t :: t in states[n].threads ==> states[n].threads[t] == Idle
    ensures forall a: nat :: a < states[n].issued <==> a in states[n].returned
    ensures forall slot :: !Owned(states[n].segments, slot)
  {
    RunKeeps(states, steps, n);
    assert forall slot :: HandlesOf(states[n].handles, slot) == {};
  }

  // ----- A run that is not safe -----

  const FIRST := Slot(0, 0)

  ghost function Copies(n: nat): (handles: map<nat, Handle>)
    ensures forall h: nat :: h in handles <==> h < n
    ensures forall h: nat :: h < n ==> handles[h] == Handle(FIRST, 0)
  {
    if n == 0 then map[] else Copies(n - 1)[n - 1 := Handle(FIRST, 0)]
  }

  /** One thread holds `n` handles of the only slot. */
  ghost function Holding(n: nat): State {
    State([SegmentState(1, {0}, [n % COUNT_LIMIT])], Copies(n), map[0 := Idle], Free, map[FIRST := 0], 1, {})
  }

  lemma {:induction false} CopiesCount(n: nat)
    ensures |HandlesOf(Copies(n), FIRST)| == n
  {
    if n == 0 {
      assert HandlesOf(Copies(0), FIRST) == {};
    } else {
      CopiesCount(n - 1);
      HandleAdded(Copies(n - 1), n - 1, Handle(FIRST, 0));
    }
  }

  /** A bucket with one slot. */
  ghost function OneSlot(used: set<nat>, count: nat): seq<SegmentState> { [SegmentState(1, used, [count])] }

  lemma OneSlotCounted(used: set<nat>, count: nat, n: nat)
    ensures Counted(OneSlot(used, count), FIRST) && Count(OneSlot(used, count), FIRST) == count
    ensures WithCount(OneSlot(used, count), FIRST, n) == OneSlot(used, n % COUNT_LIMIT)
  {
    assert [count][0 := n % COUNT_LIMIT] == [n % COUNT_LIMIT];
  }

  ghost function Start(): State { State([], map[], map[0 := Idle], Free, map[], 0, {}) }

  /** The thread has created the slot and taken it. */
  ghost function Taken1(pc: Pc, lock: Lock): State { State(OneSlot({0}, 0), map[], map[0 := pc], lock, map[FIRST := 0], 1, {}) }

  lemma Taking() returns (states: seq<State>, steps: seq<Step>)
    ensures Run(states, steps) && states[|steps|] == Taken1(Found(FIRST), HeldBy(0))
  {
    var s0 := Start();
    var s1 := s0.(threads := map[0 := Scanning(0)], lock := HeldBy(0));
    var s2 := s1.(segments := OneSlot({}, 0), threads := map[0 := Fresh]);
    states := [s0, s1, s2, Taken1(Found(FIRST), HeldBy(0))];
    steps := [TakeLock(0), Create(0, 1), TryFresh(0, 0)];
    assert seq(1, _ => 0) == [0];
  }

  lemma Extended(states: seq<State>, steps: seq<Step>, step: Step, s: State)
    requires Run(states, steps) && Next(states[|steps|], step, s)
    ensures Run(states + [s], steps + [step]) && (states + [s])[|steps| + 1] == s
  {
    hide Next, Init;
    var states', steps' := states + [s], steps + [step];
    forall i | 0 <= i < |steps'|
      ensures Next(states'[i], steps'[i], states'[i + 1])
    {
      if i < |steps| { assert Next(states[i], steps[i], states[i + 1]); }
    }
  }

  lemma FirstRetained()
    ensures Next(Taken1(Found(FIRST), HeldBy(0)), DropLock(0), Taken1(Acquired(FIRST), Free))
    ensures Next(Taken1(Acquired(FIRST), Free), Retain(0, 0), Holding(1))
  {
    OneSlotCounted({0}, 0, 1);
    assert Copies(1) == map[][0 := Handle(FIRST, 0)];
    hide WithCount;
  }

  lemma FirstHandle() returns (states: seq<State>, steps: seq<Step>)
    ensures Run(states, steps) && states[|steps|] == Holding(1)
  {
    hide Next, Init, Holding, Run;
    states, steps := Taking();
    FirstRetained();
    Extended(states, steps, DropLock(0), Taken1(Acquired(FIRST), Free));
    states, steps := states + [Taken1(Acquired(FIRST), Free)], steps + [DropLock(0)];
    Extended(states, steps, Retain(0, 0), Holding(1));
    states, steps := states + [Holding(1)], steps + [Retain(0, 0)];
  }

  /** The thread is about to copy the first of its `n` handles. */
  ghost function Copying1(n: nat): State { Holding(n).(threads := map[0 := Copying(0)]) }

  lemma CopyOnce(n: nat)
    requires n > 0
    ensures Next(Holding(n), StartCopy(0, 0), Copying1(n)) && Next(Copying1(n), EndCopy(0, n), Holding(n + 1))
  {
    OneMore(n);
    OneSlotCounted({0}, n % COUNT_LIMIT, n % COUNT_LIMIT + 1);
    hide WithCount, Counted, Count;
    assert Copies(n + 1) == Copies(n)[n := Handle(FIRST, 0)];
  }

  lemma {:induction false} Reach(n: nat) returns (states: seq<State>, steps: seq<Step>)
    requires n > 0
    ensures Run(states, steps) && states[|steps|] == Holding(n)
  {
    hide Next, Init, Holding, Run;
    if n == 1 {
      states, steps := FirstHandle();
    } else {
      states, steps := Reach(n - 1);
      CopyOnce(n - 1);
      Extended(states, steps, StartCopy(0, 0), Copying1(n - 1));
      states, steps := states + [Copying1(n - 1)], steps + [StartCopy(0, 0)];
      Extended(states, steps, EndCopy(0, n - 1), Holding(n));
      states, steps := states + [Holding(n)], steps + [EndCopy(0, n - 1)];
    }
  }

  /** What one drop too early makes of `n` handles: the slot is on its way back, then it is free. */
  ghost function Dropped(n: nat): State
    requires n > 0
  {
    Holding(n).(segments := OneSlot({0}, (n - 1) % COUNT_LIMIT), handles := Copies(n) - {0}, threads := map[0 := Returning(FIRST)])
  }

  ghost function Freed(n: nat): State {
    State(OneSlot({}, 0), Copies(n) - {0}, map[0 := Idle], Free, map[], 1, {0})
  }

  lemma DroppedEarly(n: nat)
    requires n > 1 && n % COUNT_LIMIT == 1
    ensures Next(Holding(n), Drop(0, 0), Dropped(n)) && !SafeStep(Holding(n), Drop(0, 0))
  {
    CopiesCount(n);
    OneSlotCounted({0}, 1, COUNT_LIMIT);
    hide WithCount, Counted, Count;
    assert !Pinned(Holding(n), 0);
  }

  lemma FreedEarly(n: nat)
    requires n > 1 && n % COUNT_LIMIT == 1
    ensures Next(Dropped(n), GiveBack(0), Freed(n))
    ensures !Owned(Freed(n).segments, FIRST) && |HandlesOf(Freed(n).handles, FIRST)| == n - 1
  {
    CopiesCount(n);
    HandleRemoved(Copies(n), 0);
    assert {0} - {0} == {};
    assert map[FIRST := 0] - {FIRST} == map[];
  }

  /** A run that copies one handle 2^32 times: dropping one of the 2^32 + 1 handles gives the slot back while all
      the others still refer to it. */
  lemma WrapFrees() returns (states: seq<State>, steps: seq<Step>)
    ensures Run(states, steps) && !SafeRun(states, steps)
    ensures !Owned(states[|steps|].segments, FIRST) && |HandlesOf(states[|steps|].handles, FIRST)| == COUNT_LIMIT
  {
    hide Next, Init, Holding, Run, SafeStep, HandlesOf, Freed, Dropped;
    var n := COUNT_LIMIT + 1;
    states, steps := Reach(n);
    ghost var last := |steps|;
    DroppedEarly(n);
    FreedEarly(n);
    Extended(states, steps, Drop(0, 0), Dropped(n));
    states, steps := states + [Dropped(n)], steps + [Drop(0, 0)];
    Extended(states, steps, GiveBack(0), Freed(n));
    states, steps := states + [Freed(n)], steps + [GiveBack(0)];
    assert !SafeStep(states[last], steps[last]) by { RunLength(states, steps); }
  }

  lemma RunLength(states: seq<State>, steps: seq<Step>)
    requires Run(states, steps)
    ensures |states| == |steps| + 1
  {
  }
}
