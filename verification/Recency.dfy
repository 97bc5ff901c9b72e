/** The linked hash list as a sequence of pairs, and the order that a run of uses leaves it in. */
module Recency {
  import opened Wrappers

  type Items<K, V> = seq<(K, V)>

  ghost predicate HasKey<K, V>(items: Items<K, V>, key: K) {
    exists i :: 0 <= i < |items| && items[i].0 == key
  }

  ghost predicate UniqueKeys<K, V>(items: Items<K, V>) {
    forall i, j :: 0 <= i < j < |items| ==> items[i].0 != items[j].0
  }

  /** Everything but the pairs of `key`, in the same order. */
  ghost function Without<K, V>(items: Items<K, V>, key: K): Items<K, V> {
    if items == [] then []
    else if items[0].0 == key then Without(items[1..], key)
    else [items[0]] + Without(items[1..], key)
  }

  ghost function Lookup<K, V>(items: Items<K, V>, key: K): (r: Option<V>)
    ensures r.Some? <==> HasKey(items, key)
  {
    if items == [] then None
    else if items[0].0 == key then
      assert HasKey(items, key);
      Some(items[0].1)
    else
      assert HasKey(items[1..], key) ==> HasKey(items, key) by {
        if i :| 0 <= i < |items| - 1 && items[1..][i].0 == key { assert items[i + 1].0 == key; }
      }
      Lookup(items[1..], key)
  }

  /** The operations; the source's `touch` is `MoveToFront`. */
  datatype Op<+K, +V> =
    | AssignFront(key: K, value: V)
    | AssignBack(key: K, value: V)
    | EmplaceFront(key: K, value: V)
    | EmplaceBack(key: K, value: V)
    | MoveToFront(key: K)
    | MoveToBack(key: K)
    | Erase(key: K)
    | PopFront
    | PopBack
    | Get(key: K)
    | Clear

  /** What an operation answers: a truth value, the pair that was removed, or the value that was found. */
  datatype Reply<+K, +V> = Done | Flag(flag: bool) | Pair(pair: Option<(K, V)>) | Value(found: Option<V>)

  ghost function Answer<K, V>(items: Items<K, V>, op: Op<K, V>): Reply<K, V> {
    match op
    case AssignFront(k, v) => Flag(!HasKey(items, k))
    case AssignBack(k, v) => Flag(!HasKey(items, k))
    case EmplaceFront(k, v) => Flag(!HasKey(items, k))
    case EmplaceBack(k, v) => Flag(!HasKey(items, k))
    case MoveToFront(k) => Flag(HasKey(items, k))
    case MoveToBack(k) => Flag(HasKey(items, k))
    case Erase(k) => Flag(HasKey(items, k))
    case PopFront => Pair(if items == [] then None else Some(items[0]))
    case PopBack => Pair(if items == [] then None else Some(items[|items| - 1]))
    case Get(k) => Value(Lookup(items, k))
    case Clear => Done
  }

  ghost function Apply<K, V>(items: Items<K, V>, op: Op<K, V>): Items<K, V> {
    match op
    case AssignFront(k, v) => [(k, v)] + Without(items, k)
    case AssignBack(k, v) => Without(items, k) + [(k, v)]
    case EmplaceFront(k, v) => if HasKey(items, k) then items else [(k, v)] + items
    case EmplaceBack(k, v) => if HasKey(items, k) then items else items + [(k, v)]
    case MoveToFront(k) => if HasKey(items, k) then [(k, Lookup(items, k).value)] + Without(items, k) else items
    case MoveToBack(k) => if HasKey(items, k) then Without(items, k) + [(k, Lookup(items, k).value)] else items
    case Erase(k) => Without(items, k)
    case PopFront => if items == [] then [] else items[1..]
    case PopBack => if items == [] then [] else items[..|items| - 1]
    case Get(k) => items
    case Clear => []
  }

  ghost function Run<K, V>(ops: seq<Op<K, V>>): Items<K, V> {
    if ops == [] then [] else Apply(Run(ops[..|ops| - 1]), ops[|ops| - 1])
  }

  /** Every reply is the answer of its operation in its state. */
  ghost predicate Answered<K, V>(replies: seq<Reply<K, V>>, ops: seq<Op<K, V>>) {
    |replies| <= |ops| && forall i :: 0 <= i < |replies| ==> replies[i] == Answer(Run(ops[..i]), ops[i])
  }

  lemma AnsweredNothing<K, V>(ops: seq<Op<K, V>>)
    ensures Answered([], ops)
  {
  }

  lemma AnsweredMore<K, V>(replies: seq<Reply<K, V>>, ops: seq<Op<K, V>>, reply: Reply<K, V>)
    requires Answered(replies, ops) && |replies| < |ops| && reply == Answer(Run(ops[..|replies|]), ops[|replies|])
    ensures Answered(replies + [reply], ops)
  {
  }

  lemma RunStep<K, V>(ops: seq<Op<K, V>>, i: nat)
    requires i < |ops|
    ensures Run(ops[..i + 1]) == Apply(Run(ops[..i]), ops[i])
  {
    assert ops[..i + 1][..i] == ops[..i];
  }

  lemma RunNothing<K, V>()
    ensures Run<K, V>([]) == []
  {
  }

  // ----- Removing a key -----

  lemma {:induction false} WithoutNone<K, V>(items: Items<K, V>, key: K)
    requires !HasKey(items, key)
    ensures Without(items, key) == items && Lookup(items, key) == None
  {
    if items != [] {
      assert items[0].0 != key;
      forall i | 0 <= i < |items| - 1
        ensures items[1..][i].0 != key
      {
        assert items[i + 1].0 != key;
      }
      WithoutNone(items[1..], key);
    }
  }

  lemma {:induction false} WithoutAt<K, V>(items: Items<K, V>, i: nat)
    requires UniqueKeys(items) && i < |items|
    ensures Without(items, items[i].0) == items[..i] + items[i + 1..]
    ensures Lookup(items, items[i].0) == Some(items[i].1) && HasKey(items, items[i].0)
  {
    var r := items[1..];
    assert forall a, b :: 0 <= a < b < |r| ==> r[a].0 != r[b].0 by {
      assert forall a, b :: 0 <= a < b < |r| ==> r[a] == items[a + 1] && r[b] == items[b + 1];
    }
    if i == 0 {
      forall a | 0 <= a < |r|
        ensures r[a].0 != items[0].0
      {
        assert r[a] == items[a + 1];
      }
      WithoutNone(r, items[0].0);
    } else {
      WithoutAt(r, i - 1);
      assert items[..i] + items[i + 1..] == [items[0]] + (r[..i - 1] + r[i..]);
    }
  }

  /** Removing a key keeps the order of the rest. */
  lemma WithoutKeys<K, V>(items: Items<K, V>, key: K, i: nat, j: nat) returns (a: nat, b: nat)
    requires UniqueKeys(items) && i <= j < |Without(items, key)|
    ensures a <= b < |items| && (i < j ==> a < b)
    ensures Without(items, key)[i] == items[a] && Without(items, key)[j] == items[b]
    ensures items[a].0 != key && items[b].0 != key
  {
    if HasKey(items, key) {
      var p: nat :| p < |items| && items[p].0 == key;
      WithoutAt(items, p);
      a := if i < p then i else i + 1;
      b := if j < p then j else j + 1;
    } else {
      WithoutNone(items, key);
      a, b := i, j;
    }
  }

  // ----- Recency -----

  /** The runs of a least-recently-used cache: insert or assign, touch, look up, erase, evict from the back, clear. */
  ghost predicate CacheOp<K, V>(op: Op<K, V>) {
    op.AssignFront? || op.MoveToFront? || op.Get? || op.Erase? || op.PopBack? || op.Clear?
  }

  ghost predicate Uses<K, V>(op: Op<K, V>, key: K) {
    (op.AssignFront? || op.MoveToFront?) && op.key == key
  }

  /** When the key was last inserted, assigned or touched, or -1. */
  ghost function LastUse<K, V>(ops: seq<Op<K, V>>, key: K): (t: int)
    ensures -1 <= t < |ops|
  {
    if ops == [] then -1
    else if Uses(ops[|ops| - 1], key) then |ops| - 1
    else LastUse(ops[..|ops| - 1], key)
  }

  /** The value that the key was last inserted or assigned with. */
  ghost function LastValue<K, V>(ops: seq<Op<K, V>>, key: K): Option<V> {
    if ops == [] then None
    else
      var op := ops[|ops| - 1];
      if op.AssignFront? && op.key == key then Some(op.value) else LastValue(ops[..|ops| - 1], key)
  }

  /** The items are in order of most recent use, and carry the values assigned last. */
  ghost predicate ByRecency<K, V>(items: Items<K, V>, ops: seq<Op<K, V>>) {
    && (forall i, j :: 0 <= i < j < |items| ==> LastUse(ops, items[i].0) > LastUse(ops, items[j].0))
    && (forall i :: 0 <= i < |items| ==> LastUse(ops, items[i].0) >= 0 && LastValue(ops, items[i].0) == Some(items[i].1))
  }

  lemma RecencyUnique<K, V>(items: Items<K, V>, ops: seq<Op<K, V>>)
    requires ByRecency(items, ops)
    ensures UniqueKeys(items)
  {
  }

  /** Over every run of a cache, the list order is the order of most recent use. */
  lemma {:induction false} OrderedByUse<K, V>(ops: seq<Op<K, V>>)
    requires forall i :: 0 <= i < |ops| ==> CacheOp(ops[i])
    ensures ByRecency(Run(ops), ops)
  {
    if ops != [] {
      var before, op := ops[..|ops| - 1], ops[|ops| - 1];
      OrderedByUse(before);
      hide ByRecency, CacheOp, Apply;
      assert before + [op] == ops;
      StepKeepsOrder(Run(before), before, op);
    }
  }

  lemma StepKeepsOrder<K, V>(items: Items<K, V>, ops: seq<Op<K, V>>, op: Op<K, V>)
    requires ByRecency(items, ops) && CacheOp(op)
    ensures ByRecency(Apply(items, op), ops + [op])
  {
    RecencyUnique(items, ops);
    hide ByRecency, LastUse, LastValue, UniqueKeys, Without, HasKey, Lookup;
    match op {
      case AssignFront(k, v) =>
        ValueNow(ops, op);
        UsedNow(items, ops, op, v);
      case MoveToFront(k) => Touched(items, ops, op);
      case Erase(k) => Dropped(items, ops, op, k);
      case PopBack => Evicted(items, ops);
      case Get(k) => Unused(items, ops, op);
      case Clear => NothingLeft(ops + [op]);
    }
  }

  lemma ValueNow<K, V>(ops: seq<Op<K, V>>, op: Op<K, V>)
    requires op.AssignFront?
    ensures LastValue(ops + [op], op.key) == Some(op.value)
  {
  }

  lemma NothingLeft<K, V>(ops: seq<Op<K, V>>)
    ensures ByRecency([], ops)
  {
  }

  lemma UsedNow<K, V>(items: Items<K, V>, ops: seq<Op<K, V>>, op: Op<K, V>, v: V)
    requires ByRecency(items, ops) && UniqueKeys(items) && (op.AssignFront? || op.MoveToFront?)
    requires LastValue(ops + [op], op.key) == Some(v)
    ensures ByRecency([(op.key, v)] + Without(items, op.key), ops + [op])
  {
    var r, ops' := Without(items, op.key), ops + [op];
    assert ops'[..|ops|] == ops;
    forall i, j | 0 <= i < j < |[(op.key, v)] + r|
      ensures LastUse(ops', ([(op.key, v)] + r)[i].0) > LastUse(ops', ([(op.key, v)] + r)[j].0)
    {
      var a, b := WithoutKeys(items, op.key, if i == 0 then 0 else i - 1, j - 1);
    }
    forall i | 0 <= i < |[(op.key, v)] + r|
      ensures LastUse(ops', ([(op.key, v)] + r)[i].0) >= 0 && LastValue(ops', ([(op.key, v)] + r)[i].0) == Some(([(op.key, v)] + r)[i].1)
    {
      if i > 0 { var a, b := WithoutKeys(items, op.key, i - 1, i - 1); }
    }
  }

  lemma Touched<K, V>(items: Items<K, V>, ops: seq<Op<K, V>>, op: Op<K, V>)
    requires ByRecency(items, ops) && UniqueKeys(items) && op.MoveToFront?
    ensures ByRecency(Apply(items, op), ops + [op])
  {
    var ops' := ops + [op];
    assert ops'[..|ops|] == ops;
    if HasKey(items, op.key) {
      var i: nat :| i < |items| && items[i].0 == op.key;
      WithoutAt(items, i);
      UsedNow(items, ops, op, items[i].1);
    } else {
      assert forall i :: 0 <= i < |items| ==> items[i].0 != op.key;
    }
  }

  lemma Dropped<K, V>(items: Items<K, V>, ops: seq<Op<K, V>>, op: Op<K, V>, k: K)
    requires ByRecency(items, ops) && UniqueKeys(items) && op == Erase(k)
    ensures ByRecency(Without(items, k), ops + [op])
  {
    var r, ops' := Without(items, k), ops + [op];
    assert ops'[..|ops|] == ops;
    forall i, j | 0 <= i < j < |r|
      ensures LastUse(ops', r[i].0) > LastUse(ops', r[j].0)
    {
      var a, b := WithoutKeys(items, k, i, j);
    }
    forall i | 0 <= i < |r|
      ensures LastUse(ops', r[i].0) >= 0 && LastValue(ops', r[i].0) == Some(r[i].1)
    {
      var a, b := WithoutKeys(items, k, i, i);
    }
  }

  /** A lookup is not a use. */
  lemma Unused<K, V>(items: Items<K, V>, ops: seq<Op<K, V>>, op: Op<K, V>)
    requires ByRecency(items, ops) && op.Get?
    ensures ByRecency(items, ops + [op])
  {
    assert (ops + [op])[..|ops|] == ops;
  }

  lemma Evicted<K, V>(items: Items<K, V>, ops: seq<Op<K, V>>)
    requires ByRecency(items, ops)
    ensures ByRecency(Apply(items, PopBack), ops + [PopBack])
  {
    var ops' := ops + [PopBack];
    assert ops'[..|ops|] == ops;
  }

  /** `pop_back` removes the key whose last use lies furthest back, and only that key. */
  lemma EvictsLeastRecent<K, V>(ops: seq<Op<K, V>>, key: K)
    requires (forall i :: 0 <= i < |ops| ==> CacheOp(ops[i])) && HasKey(Run(ops), key)
    ensures HasKey(Run(ops + [PopBack]), key)
      <==> exists other :: HasKey(Run(ops), other) && LastUse(ops, other) < LastUse(ops, key)
  {
    hide *;
    OrderedByUse(ops);
    RunStep(ops + [PopBack], |ops|);
    assert (ops + [PopBack])[..|ops|] == ops && (ops + [PopBack])[..|ops| + 1] == ops + [PopBack];
    LastIsLeastRecent(Run(ops), ops, key);
  }

  lemma LastIsLeastRecent<K, V>(items: Items<K, V>, ops: seq<Op<K, V>>, key: K)
    requires ByRecency(items, ops) && HasKey(items, key)
    ensures items != [] && Apply(items, PopBack) == items[..|items| - 1]
    ensures HasKey(items[..|items| - 1], key) <==> exists other :: HasKey(items, other) && LastUse(ops, other) < LastUse(ops, key)
  {
    hide LastUse, LastValue;
    var i: nat :| i < |items| && items[i].0 == key;
    if i < |items| - 1 {
      assert items[..|items| - 1][i].0 == key;
      assert HasKey(items, items[|items| - 1].0);
    } else {
      LastOfAll(items, ops);
    }
  }

  lemma LastOfAll<K, V>(items: Items<K, V>, ops: seq<Op<K, V>>)
    requires ByRecency(items, ops) && items != []
    ensures forall other :: HasKey(items, other) ==> LastUse(ops, other) >= LastUse(ops, items[|items| - 1].0)
    ensures !HasKey(items[..|items| - 1], items[|items| - 1].0)
  {
    hide LastUse, LastValue;
  }

  // ----- The order of any run -----

  /** Where a key was last put, and its value: to the front at -t or to the back at t, in operation number t. */
  datatype Entry<+V> = Entry(stamp: int, value: V)

  ghost predicate Foremost<K, V>(ledger: map<K, Entry<V>>, key: K)
    requires key in ledger
  {
    forall k :: k in ledger ==> ledger[key].stamp <= ledger[k].stamp
  }

  ghost predicate Hindmost<K, V>(ledger: map<K, Entry<V>>, key: K)
    requires key in ledger
  {
    forall k :: k in ledger ==> ledger[key].stamp >= ledger[k].stamp
  }

  ghost function FrontTaken<K, V>(ledger: map<K, Entry<V>>): map<K, Entry<V>> {
    map k | k in ledger && !Foremost(ledger, k) :: ledger[k]
  }

  ghost function BackTaken<K, V>(ledger: map<K, Entry<V>>): map<K, Entry<V>> {
    map k | k in ledger && !Hindmost(ledger, k) :: ledger[k]
  }

  /** One operation on a ledger, which knows of no list: the keys that are there, when each was last put to an end,
      and the value it was last given. */
  ghost function Recorded<K, V>(ledger: map<K, Entry<V>>, op: Op<K, V>, t: int): map<K, Entry<V>> {
    match op
    case AssignFront(k, v) => ledger[k := Entry(-t, v)]
    case AssignBack(k, v) => ledger[k := Entry(t, v)]
    case EmplaceFront(k, v) => if k in ledger then ledger else ledger[k := Entry(-t, v)]
    case EmplaceBack(k, v) => if k in ledger then ledger else ledger[k := Entry(t, v)]
    case MoveToFront(k) => if k in ledger then ledger[k := Entry(-t, ledger[k].value)] else ledger
    case MoveToBack(k) => if k in ledger then ledger[k := Entry(t, ledger[k].value)] else ledger
    case Erase(k) => ledger - {k}
    case PopFront => FrontTaken(ledger)
    case PopBack => BackTaken(ledger)
    case Get(_) => ledger
    case Clear => map[]
  }

  ghost function Ledger<K, V>(ops: seq<Op<K, V>>): map<K, Entry<V>> {
    if ops == [] then map[] else Recorded(Ledger(ops[..|ops| - 1]), ops[|ops| - 1], |ops|)
  }

  /** The items are those of the ledger, in the order of its stamps. */
  ghost predicate InOrder<K, V>(items: Items<K, V>, ledger: map<K, Entry<V>>) {
    && (forall i :: 0 <= i < |items| ==> Holds(ledger, items[i]))
    && (forall i, j :: 0 <= i < j < |items| ==> Ahead(ledger, items[i].0, items[j].0))
    && (forall k :: k in ledger ==> HasKey(items, k))
  }

  ghost predicate Holds<K, V>(ledger: map<K, Entry<V>>, pair: (K, V)) {
    pair.0 in ledger && ledger[pair.0].value == pair.1
  }

  ghost predicate Ahead<K, V>(ledger: map<K, Entry<V>>, key: K, other: K) {
    key in ledger && other in ledger && ledger[key].stamp < ledger[other].stamp
  }

  ghost predicate Before<K, V>(ledger: map<K, Entry<V>>, t: int) {
    forall k :: k in ledger ==> -t < ledger[k].stamp < t
  }

  /** Over any run of all operations, the list holds exactly the keys and values of the ledger, ordered by where each
      key was last put: the one put last to the front first, the one put last to the back last. */
  lemma {:induction false} OrderedByPlace<K, V>(ops: seq<Op<K, V>>)
    ensures InOrder(Run(ops), Ledger(ops)) && Before(Ledger(ops), |ops| + 1)
  {
    if ops != [] {
      var n := |ops| - 1;
      OrderedByPlace(ops[..n]);
      EntryKeepsOrder(Run(ops[..n]), Ledger(ops[..n]), ops[n], |ops|);
    }
  }

  lemma EntryKeepsOrder<K, V>(items: Items<K, V>, ledger: map<K, Entry<V>>, op: Op<K, V>, t: int)
    requires InOrder(items, ledger) && Before(ledger, t) && t > 0
    ensures InOrder(Apply(items, op), Recorded(ledger, op, t)) && Before(Recorded(ledger, op, t), t + 1)
  {
    hide InOrder, UniqueKeys, Without, Lookup, HasKey, Foremost, Hindmost;
    match op {
      case AssignFront(k, v) => PutAtEnd(items, ledger, k, v, t, true);
      case AssignBack(k, v) => PutAtEnd(items, ledger, k, v, t, false);
      case EmplaceFront(k, v) => PutIfAbsent(items, ledger, k, v, t, true);
      case EmplaceBack(k, v) => PutIfAbsent(items, ledger, k, v, t, false);
      case MoveToFront(k) => PutIfPresent(items, ledger, k, t, true);
      case MoveToBack(k) => PutIfPresent(items, ledger, k, t, false);
      case Erase(k) => Removed(items, ledger, k);
      case PopFront => FirstRemoved(items, ledger);
      case PopBack => LastRemoved(items, ledger);
      case Get(_) =>
      case Clear => EmptyInOrder<K, V>();
    }
  }

  lemma EmptyInOrder<K, V>()
    ensures InOrder<K, V>([], map[])
  {
  }

  lemma OrderUnique<K, V>(items: Items<K, V>, ledger: map<K, Entry<V>>)
    requires InOrder(items, ledger)
    ensures UniqueKeys(items)
  {
  }

  lemma SameKeys<K, V>(items: Items<K, V>, ledger: map<K, Entry<V>>, key: K)
    requires InOrder(items, ledger)
    ensures key in ledger <==> HasKey(items, key)
    ensures key in ledger ==> Lookup(items, key) == Some(ledger[key].value)
  {
    if HasKey(items, key) {
      var i: nat :| i < |items| && items[i].0 == key;
      OrderUnique(items, ledger);
      WithoutAt(items, i);
    }
  }

  lemma Removed<K, V>(items: Items<K, V>, ledger: map<K, Entry<V>>, key: K)
    requires InOrder(items, ledger)
    ensures InOrder(Without(items, key), ledger - {key})
  {
    OrderUnique(items, ledger);
    SameKeys(items, ledger, key);
    if HasKey(items, key) {
      var p: nat :| p < |items| && items[p].0 == key;
      WithoutAt(items, p);
      hide Without, UniqueKeys, Lookup;
      RemovedAt(items, ledger, p);
    } else {
      WithoutNone(items, key);
      assert ledger - {key} == ledger;
    }
  }

  lemma KeptKey<K, V>(items: Items<K, V>, p: nat, key: K)
    requires p < |items| && HasKey(items, key) && items[p].0 != key
    ensures HasKey(items[..p] + items[p + 1..], key)
  {
    var i: nat :| i < |items| && items[i].0 == key;
    assert (items[..p] + items[p + 1..])[if i < p then i else i - 1] == items[i];
  }

  lemma RemovedAt<K, V>(items: Items<K, V>, ledger: map<K, Entry<V>>, p: nat)
    requires InOrder(items, ledger) && p < |items|
    ensures InOrder(items[..p] + items[p + 1..], ledger - {items[p].0})
  {
    var r, key := items[..p] + items[p + 1..], items[p].0;
    hide HasKey;
    assert forall i :: 0 <= i < |r| ==> r[i] == items[if i < p then i else i + 1];
    forall k | k in ledger - {key}
      ensures HasKey(r, k)
    {
      assert HasKey(items, k);
      KeptKey(items, p, k);
    }
    forall i | 0 <= i < |r|
      ensures Holds(ledger - {key}, r[i])
    {
      var a := if i < p then i else i + 1;
      assert Holds(ledger, items[a]) && Ahead(ledger, items[Min(a, p)].0, items[Max(a, p)].0);
    }
    forall i, j | 0 <= i < j < |r|
      ensures Ahead(ledger - {key}, r[i].0, r[j].0)
    {
      var a, b := if i < p then i else i + 1, if j < p then j else j + 1;
      assert Ahead(ledger, items[a].0, items[b].0);
      assert Holds(ledger - {key}, r[i]) && Holds(ledger - {key}, r[j]);
    }
  }

  lemma PutAtEnd<K, V>(items: Items<K, V>, ledger: map<K, Entry<V>>, key: K, value: V, t: int, front: bool)
    requires InOrder(items, ledger) && Before(ledger, t)
    ensures var rest := Without(items, key);
      InOrder(if front then [(key, value)] + rest else rest + [(key, value)], ledger[key := Entry(if front then -t else t, value)])
  {
    Removed(items, ledger, key);
    var entry := Entry(if front then -t else t, value);
    assert (ledger - {key})[key := entry] == ledger[key := entry];
    hide Without, InOrder;
    if front {
      PutFirst(Without(items, key), ledger - {key}, key, value, t);
    } else {
      PutLast(Without(items, key), ledger - {key}, key, value, t);
    }
  }

  lemma PutFirst<K, V>(rest: Items<K, V>, ledger: map<K, Entry<V>>, key: K, value: V, t: int)
    requires InOrder(rest, ledger) && Before(ledger, t) && key !in ledger
    ensures InOrder([(key, value)] + rest, ledger[key := Entry(-t, value)])
  {
    var items, now := [(key, value)] + rest, ledger[key := Entry(-t, value)];
    assert items[0] == (key, value);
    forall k | k in now
      ensures HasKey(items, k)
    {
      if k != key {
        assert HasKey(rest, k);
        var i: nat :| i < |rest| && rest[i].0 == k;
        assert items[i + 1] == rest[i];
      }
    }
    forall i | 0 <= i < |items|
      ensures Holds(now, items[i])
    {
      if i > 0 { assert items[i] == rest[i - 1] && Holds(ledger, rest[i - 1]); }
    }
    forall i, j | 0 <= i < j < |items|
      ensures Ahead(now, items[i].0, items[j].0)
    {
      assert items[j] == rest[j - 1] && Holds(ledger, rest[j - 1]);
      if i > 0 { assert items[i] == rest[i - 1] && Ahead(ledger, rest[i - 1].0, rest[j - 1].0); }
    }
  }

  lemma PutLast<K, V>(rest: Items<K, V>, ledger: map<K, Entry<V>>, key: K, value: V, t: int)
    requires InOrder(rest, ledger) && Before(ledger, t) && key !in ledger
    ensures InOrder(rest + [(key, value)], ledger[key := Entry(t, value)])
  {
    var items, now := rest + [(key, value)], ledger[key := Entry(t, value)];
    assert items[|rest|] == (key, value);
    forall k | k in now
      ensures HasKey(items, k)
    {
      if k != key {
        assert HasKey(rest, k);
        var i: nat :| i < |rest| && rest[i].0 == k;
        assert items[i] == rest[i];
      }
    }
    forall i | 0 <= i < |items|
      ensures Holds(now, items[i])
    {
      if i < |rest| { assert items[i] == rest[i] && Holds(ledger, rest[i]); }
    }
    forall i, j | 0 <= i < j < |items|
      ensures Ahead(now, items[i].0, items[j].0)
    {
      assert items[i] == rest[i] && Holds(ledger, rest[i]);
      if j < |rest| { assert items[j] == rest[j] && Ahead(ledger, rest[i].0, rest[j].0); }
    }
  }

  lemma PutIfAbsent<K, V>(items: Items<K, V>, ledger: map<K, Entry<V>>, key: K, value: V, t: int, front: bool)
    requires InOrder(items, ledger) && Before(ledger, t)
    ensures key in ledger <==> HasKey(items, key)
    ensures key !in ledger ==>
      InOrder(if front then [(key, value)] + items else items + [(key, value)], ledger[key := Entry(if front then -t else t, value)])
  {
    SameKeys(items, ledger, key);
    if key !in ledger {
      WithoutNone(items, key);
      PutAtEnd(items, ledger, key, value, t, front);
    }
  }

  lemma PutIfPresent<K, V>(items: Items<K, V>, ledger: map<K, Entry<V>>, key: K, t: int, front: bool)
    requires InOrder(items, ledger) && Before(ledger, t)
    ensures key in ledger <==> HasKey(items, key)
    ensures key in ledger ==>
      var pair, rest := (key, Lookup(items, key).value), Without(items, key);
      InOrder(if front then [pair] + rest else rest + [pair], ledger[key := Entry(if front then -t else t, ledger[key].value)])
  {
    SameKeys(items, ledger, key);
    if key in ledger { PutAtEnd(items, ledger, key, ledger[key].value, t, front); }
  }

  /** The first of the list is the key that was put farthest to the front, and the last the one farthest to the back. */
  lemma EndsOfOrder<K, V>(items: Items<K, V>, ledger: map<K, Entry<V>>, key: K)
    requires InOrder(items, ledger) && key in ledger
    ensures items != []
    ensures Foremost(ledger, key) <==> items[0].0 == key
    ensures Hindmost(ledger, key) <==> items[|items| - 1].0 == key
  {
    assert HasKey(items, key);
    var i: nat :| i < |items| && items[i].0 == key;
    var n := |items| - 1;
    assert Holds(ledger, items[0]) && Holds(ledger, items[n]);
    if i > 0 { assert Ahead(ledger, items[0].0, items[i].0); }
    if i < n { assert Ahead(ledger, items[i].0, items[n].0); }
    forall k | k in ledger
      ensures ledger[items[0].0].stamp <= ledger[k].stamp <= ledger[items[n].0].stamp
    {
      assert HasKey(items, k);
      var j: nat :| j < |items| && items[j].0 == k;
      if j > 0 { assert Ahead(ledger, items[0].0, items[j].0); }
      if j < n { assert Ahead(ledger, items[j].0, items[n].0); }
    }
  }

  lemma OneForemost<K, V>(ledger: map<K, Entry<V>>, key: K)
    requires key in ledger && forall k :: k in ledger ==> (Foremost(ledger, k) <==> k == key)
    ensures FrontTaken(ledger) == ledger - {key}
  {
    hide Foremost;
  }

  lemma OneHindmost<K, V>(ledger: map<K, Entry<V>>, key: K)
    requires key in ledger && forall k :: k in ledger ==> (Hindmost(ledger, k) <==> k == key)
    ensures BackTaken(ledger) == ledger - {key}
  {
    hide Hindmost;
  }

  lemma EndsInLedger<K, V>(items: Items<K, V>, ledger: map<K, Entry<V>>)
    requires InOrder(items, ledger)
    ensures items == [] ==> ledger == FrontTaken(ledger) == BackTaken(ledger)
    ensures items != [] ==> items[0].0 in ledger && items[|items| - 1].0 in ledger
  {
    if items == [] {
      assert ledger == map[];
    } else {
      assert Holds(ledger, items[0]) && Holds(ledger, items[|items| - 1]);
    }
  }

  lemma FirstRemoved<K, V>(items: Items<K, V>, ledger: map<K, Entry<V>>)
    requires InOrder(items, ledger)
    ensures InOrder(if items == [] then [] else items[1..], FrontTaken(ledger))
  {
    hide *;
    EndsInLedger(items, ledger);
    if items != [] {
      forall k | k in ledger
        ensures Foremost(ledger, k) <==> k == items[0].0
      {
        EndsOfOrder(items, ledger, k);
      }
      OneForemost(ledger, items[0].0);
      RemovedAt(items, ledger, 0);
      assert items[..0] + items[1..] == items[1..];
    }
  }

  lemma LastRemoved<K, V>(items: Items<K, V>, ledger: map<K, Entry<V>>)
    requires InOrder(items, ledger)
    ensures InOrder(if items == [] then [] else items[..|items| - 1], BackTaken(ledger))
  {
    hide *;
    EndsInLedger(items, ledger);
    if items != [] {
      var n := |items| - 1;
      forall k | k in ledger
        ensures Hindmost(ledger, k) <==> k == items[n].0
      {
        EndsOfOrder(items, ledger, k);
      }
      OneHindmost(ledger, items[n].0);
      RemovedAt(items, ledger, n);
      assert items[..n] + items[n + 1..] == items[..n];
    }
  }
}
