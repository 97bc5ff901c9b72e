/** Runs over any number of segmented vectors: sharing cannot be seen, and nothing is lost. */
module SegVectorRuns {
  import opened MathBits
  import opened SegVector
  import opened Wrappers

  /** A vector variable as its user sees it: a sequence of its own, or moved from, or destroyed. */
  datatype Variable<T> = Held(elements: seq<T>) | MovedFrom | Gone

  /** An operation on variables that are named by the order of their construction. */
  datatype Op<T> =
    | New
    | Copy(from: nat)
    | Move(from: nat)
    | Assign(to: nat, from: nat)
    | MoveAssign(to: nat, from: nat)
    | Destroy(variable: nat)
    | PushBack(variable: nat, value: T)
    | Set(variable: nat, index: nat, value: T)
    | Get(variable: nat, index: nat)

  ghost predicate Holding<T>(s: seq<Variable<T>>, k: nat) { k < |s| && s[k].Held? }

  ghost predicate Existing<T>(s: seq<Variable<T>>, k: nat) { k < |s| && !s[k].Gone? }

  /** What the code asks of its callers; element access also asks that shift and mask find the index. */
  ghost predicate Admissible<T>(s: seq<Variable<T>>, op: Op<T>, n: nat, shift: nat)
    requires n > 0
  {
    match op
    case New => true
    case Copy(k) => Holding(s, k)
    case Move(k) => Existing(s, k)
    case Assign(j, k) => Holding(s, j) && Holding(s, k)
    case MoveAssign(j, k) => Existing(s, j) && Existing(s, k)
    case Destroy(k) => Existing(s, k)
    case PushBack(k, _) => Holding(s, k) && Addressed(|s[k].elements|, n, shift)
    case Set(k, i, _) => Holding(s, k) && i < |s[k].elements| && Addressed(i, n, shift)
    case Get(k, i) => Holding(s, k) && i < |s[k].elements| && Addressed(i, n, shift)
  }

  /** Every variable has a sequence of its own. */
  ghost function Execute<T>(s: seq<Variable<T>>, op: Op<T>, n: nat, shift: nat): seq<Variable<T>>
    requires n > 0 && Admissible(s, op, n, shift)
  {
    match op
    case New => s + [Held([])]
    case Copy(k) => s + [s[k]]
    case Move(k) => s[k := MovedFrom] + [s[k]]
    case Assign(j, k) => s[j := s[k]]
    case MoveAssign(j, k) => if j == k then s else s[j := s[k]][k := MovedFrom]
    case Destroy(k) => s[k := Gone]
    case PushBack(k, x) => s[k := Held(s[k].elements + [x])]
    case Set(k, i, x) => s[k := Held(s[k].elements[i := x])]
    case Get(_, _) => s
  }

  ghost function Answer<T>(s: seq<Variable<T>>, op: Op<T>, n: nat, shift: nat): Option<T>
    requires n > 0 && Admissible(s, op, n, shift)
  {
    if op.Get? then Some(s[op.variable].elements[op.index]) else None
  }

  /** Every operation of the run is admissible where it is executed. */
  ghost predicate AllAdmissible<T>(s: seq<Variable<T>>, ops: seq<Op<T>>, n: nat, shift: nat)
    requires n > 0
    decreases |ops|
  {
    ops == [] || (Admissible(s, ops[0], n, shift) && AllAdmissible(Execute(s, ops[0], n, shift), ops[1..], n, shift))
  }

  ghost function After<T>(s: seq<Variable<T>>, ops: seq<Op<T>>, n: nat, shift: nat): seq<Variable<T>>
    requires n > 0 && AllAdmissible(s, ops, n, shift)
    decreases |ops|
  {
    if ops == [] then s else After(Execute(s, ops[0], n, shift), ops[1..], n, shift)
  }

  ghost function Answers<T>(s: seq<Variable<T>>, ops: seq<Op<T>>, n: nat, shift: nat): seq<Option<T>>
    requires n > 0 && AllAdmissible(s, ops, n, shift)
    decreases |ops|
  {
    if ops == [] then []
    else [Answer(s, ops[0], n, shift)] + Answers(Execute(s, ops[0], n, shift), ops[1..], n, shift)
  }

  // ----- Handles and variables -----

  /** Handle `k` is variable `k`: the existing handles are those of existing variables, and each holds the sequence of its own. */
  ghost predicate Mirrors<T>(handles: set<SegmentVector<T>>, sequences: map<SegmentVector<T>, seq<T>>,
                             vectors: seq<SegmentVector<T>>, s: seq<Variable<T>>) {
    && |vectors| == |s| && Distinct(vectors)
    && (forall k :: 0 <= k < |s| ==> (vectors[k] in handles <==> !s[k].Gone?))
    && (forall k :: 0 <= k < |s| ==> (vectors[k] in sequences <==> s[k].Held?))
    && (forall k :: 0 <= k < |s| && s[k].Held? ==> sequences[vectors[k]] == s[k].elements)
    && (forall v :: v in handles ==> v in vectors) && sequences.Keys <= handles
  }

  lemma MirrorsMore<T>(handles: set<SegmentVector<T>>, sequences: map<SegmentVector<T>, seq<T>>,
          vectors: seq<SegmentVector<T>>, s: seq<Variable<T>>, v: SegmentVector<T>, elements: seq<T>)
    requires Mirrors(handles, sequences, vectors, s) && v !in vectors
    ensures Mirrors(handles + {v}, sequences[v := elements], vectors + [v], s + [Held(elements)])
  {
  }

  lemma MirrorsMoved<T>(handles: set<SegmentVector<T>>, sequences: map<SegmentVector<T>, seq<T>>,
          vectors: seq<SegmentVector<T>>, s: seq<Variable<T>>, v: SegmentVector<T>, k: nat)
    requires Mirrors(handles, sequences, vectors, s) && v !in vectors && Existing(s, k)
    ensures Mirrors(handles + {v}, Moved(sequences, vectors[k], v), vectors + [v], s[k := MovedFrom] + [s[k]])
  {
  }

  lemma MirrorsSet<T>(handles: set<SegmentVector<T>>, sequences: map<SegmentVector<T>, seq<T>>,
          vectors: seq<SegmentVector<T>>, s: seq<Variable<T>>, k: nat, elements: seq<T>)
    requires Mirrors(handles, sequences, vectors, s) && Existing(s, k)
    ensures Mirrors(handles, sequences[vectors[k] := elements], vectors, s[k := Held(elements)])
  {
  }

  lemma MirrorsMoveAssigned<T>(handles: set<SegmentVector<T>>, sequences: map<SegmentVector<T>, seq<T>>,
          vectors: seq<SegmentVector<T>>, s: seq<Variable<T>>, j: nat, k: nat)
    requires Mirrors(handles, sequences, vectors, s) && Existing(s, j) && Existing(s, k) && j != k
    ensures Mirrors(handles, Moved(sequences - {vectors[j]}, vectors[k], vectors[j]), vectors, s[j := s[k]][k := MovedFrom])
  {
  }

  lemma MirrorsGone<T>(handles: set<SegmentVector<T>>, sequences: map<SegmentVector<T>, seq<T>>,
          vectors: seq<SegmentVector<T>>, s: seq<Variable<T>>, k: nat)
    requires Mirrors(handles, sequences, vectors, s) && Existing(s, k)
    ensures Mirrors(handles - {vectors[k]}, sequences - {vectors[k]}, vectors, s[k := Gone])
  {
  }

  // ----- Running -----

  ghost predicate Mirroring<T>(shared: Shared<T>, vectors: seq<SegmentVector<T>>, s: seq<Variable<T>>)
    reads shared, shared.heap.blocks.Keys, shared.heap.store.Keys, shared.heap.handles.Keys
  {
    shared.Valid() && Mirrors(shared.heap.handles.Keys, shared.Sequences(), vectors, s)
  }

  /** Any run: every element read, and in the end every vector, is that of variables that share nothing. When all
      are destroyed, no control block is left and every segment is on the free stack. */
  method Replay<T>(shared: Shared<T>, ops: seq<Op<T>>) returns (vectors: seq<SegmentVector<T>>, answers: seq<Option<T>>)
    requires shared.Valid() && shared.heap.blocks == map[] && shared.heap.store == map[] && shared.heap.handles == map[]
    requires AllAdmissible([], ops, shared.segmentSize, shared.segmentShift)
    modifies shared
    ensures shared.Valid() && answers == Answers([], ops, shared.segmentSize, shared.segmentShift)
    ensures Mirrors(shared.heap.handles.Keys, shared.Sequences(), vectors, After([], ops, shared.segmentSize, shared.segmentShift))
    ensures (forall x :: x in After([], ops, shared.segmentSize, shared.segmentShift) ==> x.Gone?) ==>
      shared.heap.blocks == map[] && forall a :: a in shared.heap.store ==> a in shared.freeSegments
  {
    hide Shared.Valid, Mirrors, Shared.Sequences, Admissible, Execute, Answer;
    vectors, answers := [], [];
    MirrorsNothing(shared);
    ghost var n, shift := shared.segmentSize, shared.segmentShift;
    ghost var s: seq<Variable<T>> := [];
    for i := 0 to |ops|
      invariant Mirroring(shared, vectors, s)
      invariant fresh(vectors)
      invariant fresh(shared.heap.blocks.Keys) && fresh(shared.heap.store.Keys)
      invariant AllAdmissible(s, ops[i..], n, shift)
      invariant After(s, ops[i..], n, shift) == After([], ops, n, shift)
      invariant answers + Answers(s, ops[i..], n, shift) == Answers([], ops, n, shift)
    {
      assert ops[i..][1..] == ops[i + 1..];
      var answer;
      vectors, answer := Step(shared, vectors, ops[i], s);
      answers := answers + [answer];
      s := Execute(s, ops[i], n, shift);
    }
    if forall x :: x in s ==> x.Gone? { NothingLeft(shared, vectors, s); }
  }

  lemma MirrorsNothing<T>(shared: Shared<T>)
    requires shared.Valid() && shared.heap.handles == map[]
    ensures Mirroring(shared, [], []) && shared.segmentSize > 0
  {
    ValuesKeys(shared.heap, shared.segmentSize);
  }

  lemma NothingLeft<T>(shared: Shared<T>, vectors: seq<SegmentVector<T>>, s: seq<Variable<T>>)
    requires Mirroring(shared, vectors, s) && forall x :: x in s ==> x.Gone?
    ensures shared.heap.blocks == map[] && forall a :: a in shared.heap.store ==> a in shared.freeSegments
  {
    hide Values, Lengths, Laid, OnePlace, NotFree;
    var h := shared.heap;
    assert forall k :: 0 <= k < |s| ==> s[k] in s;
    assert h.handles.Keys == {};
    forall c | c in h.blocks
      ensures SharedBy(h.handles, c) == {}
    {
      NoSharers(h.handles, c);
    }
  }

  lemma NoSharers<T>(handles: Handles<T>, c: ControlBlock<T>)
    requires handles.Keys == {}
    ensures SharedBy(handles, c) == {}
  {
  }

  method Step<T>(shared: Shared<T>, vectors: seq<SegmentVector<T>>, op: Op<T>, ghost s: seq<Variable<T>>)
    returns (vectors': seq<SegmentVector<T>>, answer: Option<T>)
    requires Mirroring(shared, vectors, s) && Admissible(s, op, shared.segmentSize, shared.segmentShift)
    modifies shared, vectors, shared.heap.blocks.Keys, shared.heap.store.Keys
    ensures Mirroring(shared, vectors', Execute(s, op, shared.segmentSize, shared.segmentShift))
    ensures answer == Answer(s, op, shared.segmentSize, shared.segmentShift)
    ensures forall i :: 0 <= i < |vectors'| ==> (i < |vectors| && vectors'[i] == vectors[i]) || fresh(vectors'[i])
    ensures forall c :: c in shared.heap.blocks ==> c in old(shared.heap.blocks) || fresh(c)
    ensures forall a :: a in shared.heap.store ==> a in old(shared.heap.store) || fresh(a)
  {
    hide Shared.Valid, Mirrors, Addressed, Shared.Sequences;
    vectors', answer := vectors, None;
    match op {
      case New =>
        var v := new SegmentVector(shared);
        MirrorsMore(old(shared.heap.handles.Keys), old(shared.Sequences()), vectors, s, v, []);
        vectors' := vectors + [v];
      case Copy(k) =>
        vectors' := CopyVariable(shared, vectors, s, k);
      case Move(k) =>
        vectors' := MoveVariable(shared, vectors, s, k);
      case Assign(j, k) =>
        HandleOf(shared, vectors, s, j);
        HandleOf(shared, vectors, s, k);
        MirrorsSet(shared.heap.handles.Keys, shared.Sequences(), vectors, s, j, s[k].elements);
        vectors[j].Assign(vectors[k]);
      case MoveAssign(j, k) =>
        HandleOf(shared, vectors, s, j);
        HandleOf(shared, vectors, s, k);
        OtherHandle(shared, vectors, s, j, k);
        if j != k { MirrorsMoveAssigned(shared.heap.handles.Keys, shared.Sequences(), vectors, s, j, k); }
        vectors[j].MoveAssign(vectors[k]);
      case Destroy(k) =>
        HandleOf(shared, vectors, s, k);
        MirrorsGone(shared.heap.handles.Keys, shared.Sequences(), vectors, s, k);
        vectors[k].Destroy();
      case PushBack(k, x) =>
        HandleOf(shared, vectors, s, k);
        MirrorsSet(shared.heap.handles.Keys, shared.Sequences(), vectors, s, k, s[k].elements + [x]);
        vectors[k].PushBack(x);
      case Set(k, i, x) =>
        HandleOf(shared, vectors, s, k);
        MirrorsSet(shared.heap.handles.Keys, shared.Sequences(), vectors, s, k, s[k].elements[i := x]);
        vectors[k].Set(i, x);
      case Get(k, i) =>
        HandleOf(shared, vectors, s, k);
        var value := vectors[k].Get(i);
        answer := Some(value);
    }
  }

  method CopyVariable<T>(shared: Shared<T>, vectors: seq<SegmentVector<T>>, ghost s: seq<Variable<T>>, k: nat)
    returns (vectors': seq<SegmentVector<T>>)
    requires Mirroring(shared, vectors, s) && Holding(s, k)
    modifies shared, shared.heap.blocks.Keys
    ensures Mirroring(shared, vectors', s + [s[k]])
    ensures |vectors'| == |vectors| + 1 && vectors'[..|vectors|] == vectors && fresh(vectors'[|vectors|])
    ensures shared.heap.SameMemory(old(shared.heap))
  {
    hide Shared.Valid, Mirrors, Shared.Sequences;
    HandleOf(shared, vectors, s, k);
    var v := new SegmentVector.CopyOf(vectors[k]);
    MirrorsMore(old(shared.heap.handles.Keys), old(shared.Sequences()), vectors, s, v, s[k].elements);
    vectors' := vectors + [v];
  }

  method MoveVariable<T>(shared: Shared<T>, vectors: seq<SegmentVector<T>>, ghost s: seq<Variable<T>>, k: nat)
    returns (vectors': seq<SegmentVector<T>>)
    requires Mirroring(shared, vectors, s) && Existing(s, k)
    modifies shared, vectors
    ensures Mirroring(shared, vectors', s[k := MovedFrom] + [s[k]])
    ensures |vectors'| == |vectors| + 1 && vectors'[..|vectors|] == vectors && fresh(vectors'[|vectors|])
    ensures shared.heap.SameMemory(old(shared.heap))
  {
    hide Shared.Valid, Mirrors, Shared.Sequences;
    HandleOf(shared, vectors, s, k);
    var v := new SegmentVector.MovedFrom(vectors[k]);
    MirrorsMoved(old(shared.heap.handles.Keys), old(shared.Sequences()), vectors, s, v, k);
    vectors' := vectors + [v];
  }

  lemma HandleOf<T>(shared: Shared<T>, vectors: seq<SegmentVector<T>>, s: seq<Variable<T>>, k: nat)
    requires Mirroring(shared, vectors, s) && Existing(s, k)
    ensures k < |vectors| && vectors[k] in shared.heap.handles && vectors[k].shared == shared
    ensures s[k].Held? ==> vectors[k].ctrl != null && vectors[k].ctrl in shared.heap.blocks
    ensures s[k].Held? ==> vectors[k] in shared.Sequences() && shared.Sequences()[vectors[k]] == s[k].elements
    ensures s[k].Held? ==> vectors[k].ctrl.size == |s[k].elements|
  {
    hide Sound, Values;
    if s[k].Held? {
      ValuesKeys(shared.heap, shared.segmentSize);
      shared.LengthOf(vectors[k]);
      shared.BlockOf(vectors[k]);
    }
  }

  lemma OtherHandle<T>(shared: Shared<T>, vectors: seq<SegmentVector<T>>, s: seq<Variable<T>>, j: nat, k: nat)
    requires Mirroring(shared, vectors, s) && j < |s| && k < |s|
    ensures j < |vectors| && k < |vectors| && (vectors[j] == vectors[k] <==> j == k)
  {
    hide Shared.Valid;
  }
}
