/** What an allocation does while it holds the bucket lock, in any interleaving of any number of threads. */
module BlockScans {
  import opened BlockHandles
  import opened BlockMemPool
  import opened SlotBitmap

  // ----- The lock -----

  /** Exactly the holder of the lock is between taking and dropping it. */
  ghost predicate Section(s: State) {
    forall t :: t in s.threads ==> (Locking(s.threads[t]) <==> s.lock == HeldBy(t))
  }

  /** A step moves its own thread only. */
  lemma OneThread(s: State, step: Step, s': State)
    requires Next(s, step, s')
    ensures step.thread in s.threads && s'.threads.Keys == s.threads.Keys
    ensures forall t :: t in s.threads && t != step.thread ==> s'.threads[t] == s.threads[t]
  {
    hide WithCount, SlotReturned, Pinned, Counted, Count, SlotTaken, Full;
  }

  lemma SectionStep(s: State, step: Step, s': State)
    requires Section(s) && Next(s, step, s')
    ensures Section(s')
  {
    hide WithCount, SlotReturned, Pinned, Counted, Count, SlotTaken, Full;
  }

  lemma {:induction false} SectionRun(states: seq<State>, steps: seq<Step>, n: nat)
    requires Run(states, steps) && n <= |steps|
    ensures Section(states[n])
  {
    hide Next;
    if n > 0 {
      SectionRun(states, steps, n - 1);
      SectionStep(states[n - 1], steps[n - 1], states[n]);
    }
  }

  // ----- Scans -----

  /** Thread `t` tries segment `g` and finds it full. */
  ghost predicate FindsFull(s: State, step: Step, t: nat, g: nat) {
    step.Try? && step.thread == t && At(s, t, Scanning(g + 1)) && g < |s.segments| && Full(s.segments[g])
  }

  /** It does so between step `i` and step `n`. */
  ghost predicate FoundFull(states: seq<State>, steps: seq<Step>, i: nat, n: nat, t: nat, g: nat)
    requires n <= |steps| && |states| == |steps| + 1
  {
    exists m: nat :: i < m < n && FindsFull(states[m], steps[m], t, g)
  }

  /** Step `i` is the last before `n` with which thread `t` takes the lock. */
  ghost predicate LastTake(steps: seq<Step>, i: nat, n: nat, t: nat) {
    i < n <= |steps| && steps[i] == TakeLock(t) && forall m :: i < m < n ==> steps[m] != TakeLock(t)
  }

  ghost predicate ScansAt(s: State, t: nat) { t in s.threads && s.threads[t].Scanning? }

  /** A thread that scans has passed no segment but by finding it full, and meanwhile no segment is added. */
  lemma ScanStep(s: State, step: Step, s': State, t: nat)
    requires Section(s) && Next(s, step, s') && step != TakeLock(t) && ScansAt(s', t)
    ensures ScansAt(s, t) && |s'.segments| == |s.segments|
    ensures s'.threads[t] == s.threads[t] || FindsFull(s, step, t, s'.threads[t].left)
    ensures s.threads[t].left <= s'.threads[t].left + 1
  {
    hide SlotReturned, Pinned, Count, SlotTaken, Full;
  }

  /** All segments that the scan has left behind were found full since the lock was taken. */
  lemma {:induction false} Scanned(states: seq<State>, steps: seq<Step>, n: nat, t: nat) returns (i: nat)
    requires Run(states, steps) && n <= |steps| && ScansAt(states[n], t)
    ensures LastTake(steps, i, n, t)
    ensures forall g: nat :: states[n].threads[t].left <= g < |states[n].segments| ==> FoundFull(states, steps, i, n, t, g)
  {
    hide Next, FindsFull;
    if n == 0 {
      assert false;
    } else if steps[n - 1] == TakeLock(t) {
      i := n - 1;
      FullScanAhead(states[n - 1], t, states[n]);
    } else {
      SectionRun(states, steps, n - 1);
      ScanStep(states[n - 1], steps[n - 1], states[n], t);
      i := Scanned(states, steps, n - 1, t);
      forall g: nat | states[n].threads[t].left <= g < |states[n].segments|
        ensures FoundFull(states, steps, i, n, t, g)
      {
        if states[n - 1].threads[t].left <= g {
          assert FoundFull(states, steps, i, n - 1, t, g);
          var m: nat :| i < m < n - 1 && FindsFull(states[m], steps[m], t, g);
        } else {
          assert FindsFull(states[n - 1], steps[n - 1], t, g);
        }
      }
    }
  }

  /** A scan starts at the newest segment. */
  lemma FullScanAhead(s: State, t: nat, s': State)
    requires Next(s, TakeLock(t), s')
    ensures t in s'.threads && s'.threads[t] == Scanning(|s'.segments|)
  {
  }

  /** A segment is created only by a thread that has found every segment full since it took the lock. */
  lemma CreatesWhenAllFull(states: seq<State>, steps: seq<Step>, n: nat, t: nat, capacity: nat) returns (i: nat)
    requires Run(states, steps) && n < |steps| && steps[n] == Create(t, capacity)
    ensures LastTake(steps, i, n, t)
    ensures forall g: nat :: g < |states[n].segments| ==> FoundFull(states, steps, i, n, t, g)
  {
    assert Next(states[n], steps[n], states[n + 1]);
    i := Scanned(states, steps, n, t);
  }

  /** A slot of an existing segment is taken only by a thread that has found every newer segment full since it took
      the lock. */
  lemma TakesNewestFree(states: seq<State>, steps: seq<Step>, n: nat, t: nat, index: nat) returns (i: nat, g: nat)
    requires Run(states, steps) && n < |steps| && steps[n] == Try(t, index)
    ensures LastTake(steps, i, n, t) && g < |states[n].segments| && At(states[n], t, Scanning(g + 1))
    ensures forall h: nat :: g < h < |states[n].segments| ==> FoundFull(states, steps, i, n, t, h)
    ensures Full(states[n].segments[g]) || At(states[n + 1], t, Found(Slot(g, index)))
  {
    assert Next(states[n], steps[n], states[n + 1]);
    g := states[n].threads[t].left - 1;
    i := Scanned(states, steps, n, t);
  }

  // ----- Progress -----

  lemma LowestFreeSlot(used: set<nat>, capacity: nat) returns (index: nat)
    requires |used| < capacity
    ensures index < capacity && Acquires(used, used + {index}, capacity, true, index)
  {
    index := 0;
    while index in used
      invariant UpTo(index) <= used && index < capacity
      decreases capacity - index
    {
      assert UpTo(index + 1) <= used;
      SubsetSize(UpTo(index + 1), used);
      index := index + 1;
    }
  }

  lemma Takes(s: State, t: nat, g: nat) returns (index: nat, s': State)
    requires Inv(s) && t in s.threads && g < |s.segments| && !Full(s.segments[g])
    ensures TakesSlot(s, s', t, g, index)
  {
    var a := s.segments[g];
    index := LowestFreeSlot(a.used, a.capacity);
    var b := SegmentState(a.capacity, a.used + {index}, a.counts[index := 0]);
    s' := s.(segments := s.segments[g := b], threads := s.threads[t := Found(Slot(g, index))],
             owner := s.owner[Slot(g, index) := s.issued], issued := s.issued + 1);
  }

  lemma NewHandle(handles: map<nat, Handle>) returns (h: nat)
    ensures h !in handles
  {
    h := Above(handles.Keys);
  }

  ghost function Above(s: set<nat>): (b: nat)
    ensures forall x :: x in s ==> x < b
  {
    if s == {} then 0
    else
      var x :| x in s;
      assert forall y :: y in s ==> y == x || y in s - {x};
      var b := Above(s - {x});
      if x < b then b else x + 1
  }

  /** The slot that a thread holds can be counted and given back. */
  lemma HeldFacts(s: State, t: nat)
    requires Inv(s) && t in s.threads && HoldsAny(s.threads[t])
    ensures var slot := s.threads[t].slot;
      slot in s.owner && Counted(s.segments, slot) && slot.index in s.segments[slot.segment].used
  {
    assert Owned(s.segments, s.threads[t].slot);
  }

  lemma ScanProgress(s: State, t: nat) returns (step: Step, s': State)
    requires Inv(s) && ScansAt(s, t)
    ensures step.thread == t && Next(s, step, s')
  {
    hide Owners, Counts, Handles, Windows;
    var left := s.threads[t].left;
    if left == 0 {
      step := Create(t, 1);
      s' := s.(segments := s.segments + [SegmentState(1, {}, seq(1, _ => 0))], threads := s.threads[t := Fresh]);
    } else if Full(s.segments[left - 1]) {
      step, s' := Try(t, 0), s.(threads := s.threads[t := Scanning(left - 1)]);
    } else {
      var index;
      index, s' := Takes(s, t, left - 1);
      step := Try(t, index);
    }
  }

  lemma FreshProgress(s: State, t: nat) returns (step: Step, s': State)
    requires Inv(s) && t in s.threads && s.threads[t] == Fresh
    ensures step.thread == t && Next(s, step, s')
  {
    hide Owners, Counts, Handles, Windows;
    var index;
    index, s' := Takes(s, t, |s.segments| - 1);
    step := TryFresh(t, index);
  }

  lemma RetainProgress(s: State, t: nat) returns (step: Step, s': State)
    requires Inv(s) && t in s.threads && s.threads[t].Acquired?
    ensures step.thread == t && Next(s, step, s')
  {
    hide Inv, WithCount, Counted, Count;
    HeldFacts(s, t);
    var slot := s.threads[t].slot;
    var h := NewHandle(s.handles);
    step := Retain(t, h);
    s' := s.(segments := WithCount(s.segments, slot, Count(s.segments, slot) + 1),
             handles := s.handles[h := Handle(slot, s.owner[slot])], threads := s.threads[t := Idle]);
  }

  lemma CopiedFacts(s: State, t: nat)
    requires Inv(s) && t in s.threads && s.threads[t].Copying?
    ensures s.threads[t].source in s.handles && Counted(s.segments, s.handles[s.threads[t].source].slot)
  {
    hide Windows, Segments, Owners;
  }

  lemma CopyProgress(s: State, t: nat) returns (step: Step, s': State)
    requires Inv(s) && t in s.threads && s.threads[t].Copying?
    ensures step.thread == t && Next(s, step, s')
  {
    hide Inv, WithCount, Counted, Count;
    CopiedFacts(s, t);
    var h := NewHandle(s.handles);
    var x := s.handles[s.threads[t].source];
    step := EndCopy(t, h);
    s' := s.(segments := WithCount(s.segments, x.slot, Count(s.segments, x.slot) + 1),
             handles := s.handles[h := x], threads := s.threads[t := Idle]);
  }

  lemma ReturnProgress(s: State, t: nat) returns (step: Step, s': State)
    requires Inv(s) && t in s.threads && s.threads[t].Returning?
    ensures step.thread == t && Next(s, step, s')
  {
    hide Inv;
    HeldFacts(s, t);
    var slot := s.threads[t].slot;
    var a := s.segments[slot.segment];
    var b := SegmentState(a.capacity, a.used - {slot.index}, a.counts[slot.index := 0]);
    step := GiveBack(t);
    s' := s.(segments := s.segments[slot.segment := b], threads := s.threads[t := Idle],
             owner := s.owner - {slot}, returned := s.returned + {s.owner[slot]});
  }

  /** Nothing blocks a thread but the bucket lock: every thread that is in the middle of an operation has a next step,
      and an idle one can start an allocation while the lock is free. */
  lemma Progress(s: State, t: nat) returns (step: Step, s': State)
    requires Inv(s) && t in s.threads && (s.threads[t] == Idle ==> s.lock == Free)
    ensures step.thread == t && Next(s, step, s')
  {
    match s.threads[t] {
      case Idle =>
        hide Inv;
        step, s' := TakeLock(t), s.(threads := s.threads[t := Scanning(|s.segments|)], lock := HeldBy(t));
      case Scanning(left) => step, s' := ScanProgress(s, t);
      case Fresh => step, s' := FreshProgress(s, t);
      case Found(slot) =>
        step, s' := DropLock(t), s.(threads := s.threads[t := Acquired(slot)], lock := Free);
      case Acquired(slot) => step, s' := RetainProgress(s, t);
      case Copying(source) => step, s' := CopyProgress(s, t);
      case Returning(slot) => step, s' := ReturnProgress(s, t);
    }
  }
}
