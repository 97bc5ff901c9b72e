/** The linked hash list: a hash index of nodes into a pooled list, used as a recency-ordered cache. */
module PooledLinkedHashList {
  import opened Floats
  import opened MathBits
  import opened HashTable
  import opened NodeChain
  import opened Recency
  import opened Wrappers
  import B = BlockMemPool
  import L = PooledList
  import H = PooledHashMap

  type Index<K, V> = map<K, ListNode<(K, V)>>

  /** One more slot is used at most, and the table has grown only if that was needed. */
  ghost predicate Grew(a: H.Load, b: H.Load) {
    && b.factor == a.factor && b.used <= a.used + 1
    && (b.slots == a.slots || b.slots == H.Target(a.used, a.slots, a.factor))
  }

  /** What `n` operations can have made of the index. */
  ghost predicate Within(load: H.Load, n: nat) {
    load.factor == 0.75 && load.used <= n && load.slots <= 8 + 6 * n
  }

  lemma GrewWithinBounds(a: H.Load, b: H.Load, n: nat)
    requires Within(a, n) && Grew(a, b)
    ensures Within(b, n + 1)
  {
    hide H.Overloaded;
    if a.slots > 0 {
      H.LoadAbove(a.used + 1, a.slots, a.factor);
      RoundedBelow(a.used + 1);
    }
  }

  lemma NothingUsed()
    ensures Within(H.Load(0.75, 0, 8), 0)
  {
  }

  /** List and index agree: the same keys, each index entry the node that carries its key. */
  ghost predicate Indexed<K, V>(nodes: Nodes<(K, V)>, items: Items<K, V>, m: Index<K, V>) {
    && |nodes| == |items| && Distinct(nodes)
    && (forall i :: 0 <= i < |items| ==> items[i].0 in m && m[items[i].0] == nodes[i])
    && (forall k :: k in m ==> HasKey(items, k))
  }

  lemma IndexedUnique<K, V>(nodes: Nodes<(K, V)>, items: Items<K, V>, m: Index<K, V>)
    requires Indexed(nodes, items, m)
    ensures UniqueKeys(items) && forall k :: k in m <==> HasKey(items, k)
  {
    forall i, j | 0 <= i < j < |items|
      ensures items[i].0 != items[j].0
    {
      assert nodes[i] != nodes[j];
    }
  }

  lemma IndexedAt<K, V>(nodes: Nodes<(K, V)>, items: Items<K, V>, m: Index<K, V>, key: K) returns (i: nat)
    requires Indexed(nodes, items, m) && key in m
    ensures i < |nodes| == |items| && nodes[i] == m[key] && items[i].0 == key
    ensures Lookup(items, key) == Some(items[i].1) && HasKey(items, key)
    ensures Without(items, key) == items[..i] + items[i + 1..]
  {
    IndexedUnique(nodes, items, m);
    i :| 0 <= i < |items| && items[i].0 == key;
    WithoutAt(items, i);
  }

  lemma NotIndexed<K, V>(nodes: Nodes<(K, V)>, items: Items<K, V>, m: Index<K, V>, key: K)
    requires Indexed(nodes, items, m) && key !in m
    ensures !HasKey(items, key) && Without(items, key) == items && Lookup(items, key) == None
  {
    IndexedUnique(nodes, items, m);
    WithoutNone(items, key);
  }

  /** A node leaves the list and its key the index. */
  lemma Forgotten<K, V>(nodes: Nodes<(K, V)>, items: Items<K, V>, m: Index<K, V>, i: nat)
    requires Indexed(nodes, items, m) && i < |nodes|
    ensures Indexed(nodes[..i] + nodes[i + 1..], items[..i] + items[i + 1..], m - {items[i].0})
    ensures items[i].0 in m
  {
    IndexedUnique(nodes, items, m);
    UnlinkedDistinct(nodes, i);
    var r := items[..i] + items[i + 1..];
    forall k | k in m - {items[i].0}
      ensures HasKey(r, k)
    {
      var j: nat :| j < |items| && items[j].0 == k;
      assert r[if j < i then j else j - 1].0 == k;
    }
  }

  lemma UnlinkedDistinct<T>(s: seq<T>, i: nat)
    requires Distinct(s) && i < |s|
    ensures Distinct(s[..i] + s[i + 1..])
  {
  }

  /** A new node enters at the front or at the back, and its key the index. */
  lemma Entered<K, V>(nodes: Nodes<(K, V)>, items: Items<K, V>, m: Index<K, V>,
          nodes': Nodes<(K, V)>, n: ListNode<(K, V)>, key: K, value: V, toFront: bool)
    requires Indexed(nodes, items, m) && key !in m && Distinct(nodes')
    requires nodes' == if toFront then [n] + nodes else nodes + [n]
    ensures Indexed(nodes', if toFront then [(key, value)] + items else items + [(key, value)], m[key := n])
  {
    if toFront {
      EnteredAt(nodes, items, m, 0, n, key, value);
      assert nodes[..0] + [n] + nodes[0..] == nodes' && items[..0] + [(key, value)] + items[0..] == [(key, value)] + items;
    } else {
      EnteredAt(nodes, items, m, |nodes|, n, key, value);
      assert nodes[..|nodes|] + [n] + nodes[|nodes|..] == nodes';
      assert items[..|nodes|] + [(key, value)] + items[|nodes|..] == items + [(key, value)];
    }
  }

  lemma EnteredAt<K, V>(nodes: Nodes<(K, V)>, items: Items<K, V>, m: Index<K, V>, k: nat, n: ListNode<(K, V)>, key: K, value: V)
    requires Indexed(nodes, items, m) && key !in m && k <= |nodes|
    ensures var nodes', items', m' := nodes[..k] + [n] + nodes[k..], items[..k] + [(key, value)] + items[k..], m[key := n];
      Distinct(nodes') ==> Indexed(nodes', items', m')
  {
    hide Distinct;
    var nodes', items', m' := nodes[..k] + [n] + nodes[k..], items[..k] + [(key, value)] + items[k..], m[key := n];
    forall i | 0 <= i < |items'|
      ensures items'[i].0 in m' && m'[items'[i].0] == nodes'[i]
    {
      var j := if i < k then i else i - 1;
      if i != k { assert items'[i] == items[j] && nodes'[i] == nodes[j]; }
    }
    forall x | x in m'
      ensures HasKey(items', x)
    {
      if x == key {
        assert items'[k].0 == x;
      } else {
        var j: nat :| j < |items| && items[j].0 == x;
        assert items'[if j < k then j else j + 1].0 == x;
      }
    }
  }

  /** The node of a key is replaced by another one at an end of the list. */
  lemma Relocated<K, V>(nodes: Nodes<(K, V)>, items: Items<K, V>, m: Index<K, V>, i: nat,
          nodes': Nodes<(K, V)>, n: ListNode<(K, V)>, toFront: bool)
    requires Indexed(nodes, items, m) && i < |nodes| == |items| && Distinct(nodes')
    requires var rest := nodes[..i] + nodes[i + 1..]; nodes' == if toFront then [n] + rest else rest + [n]
    ensures Indexed(nodes', Moved(items, i, toFront), m[items[i].0 := n])
  {
    hide Indexed, Distinct;
    Forgotten(nodes, items, m, i);
    var key := items[i].0;
    Entered(nodes[..i] + nodes[i + 1..], items[..i] + items[i + 1..], m - {key}, nodes', n, key, items[i].1, toFront);
    assert (m - {key})[key := n] == m[key := n];
    assert items[i] == (key, items[i].1);
  }

  /** The value of a key is assigned in its node. */
  lemma Assigned<K, V>(nodes: Nodes<(K, V)>, items: Items<K, V>, m: Index<K, V>, i: nat, value: V)
    requires Indexed(nodes, items, m) && i < |nodes|
    ensures Indexed(nodes, items[i := (items[i].0, value)], m)
    ensures Without(items[i := (items[i].0, value)], items[i].0) == Without(items, items[i].0)
  {
    AssignedIndex(nodes, items, m, i, value);
    IndexedUnique(nodes, items, m);
    IndexedUnique(nodes, items[i := (items[i].0, value)], m);
    AssignedRest(items, i, value);
  }

  lemma AssignedIndex<K, V>(nodes: Nodes<(K, V)>, items: Items<K, V>, m: Index<K, V>, i: nat, value: V)
    requires Indexed(nodes, items, m) && i < |nodes|
    ensures Indexed(nodes, items[i := (items[i].0, value)], m)
  {
    hide Distinct;
    var items' := items[i := (items[i].0, value)];
    forall k | k in m
      ensures HasKey(items', k)
    {
      var j: nat :| j < |items| && items[j].0 == k;
      assert items'[j].0 == k;
    }
  }

  lemma AssignedRest<K, V>(items: Items<K, V>, i: nat, value: V)
    requires i < |items| && UniqueKeys(items) && UniqueKeys(items[i := (items[i].0, value)])
    ensures Without(items[i := (items[i].0, value)], items[i].0) == Without(items, items[i].0)
  {
    hide UniqueKeys, Without;
    var items' := items[i := (items[i].0, value)];
    WithoutAt(items, i);
    WithoutAt(items', i);
    assert items'[..i] == items[..i] && items'[i + 1..] == items[i + 1..];
  }

  lemma ChainDistinct<T>(s: Nodes<T>, m: Links<T>, head: ListNode?<T>, tail: ListNode?<T>)
    requires Chain(s, m, head, tail)
    ensures Distinct(s) && m.Keys == Members(s)
  {
  }

  class PooledLinkedHashList<K(==), V> {
    const list: L.PooledList<(K, V)>
    const index: H.PooledHashMap<K, ListNode<(K, V)>>

    ghost function Repr(): set<object>
      reads list, list.chain, index`entries
    {
      {index, index.entries} + list.Repr()
    }

    ghost predicate Valid()
      reads index, index.entries, list, list.chain, Members(list.chain.nodes), list.chain.links.Keys
    {
      && index.Valid() && index.maxLoadFactor == 0.75 && list.Valid() && index.entries !in list.Repr() && index !in list.Repr()
      && Indexed(list.chain.nodes, list.chain.items, index.Model)
    }

    /** The pairs in list order. */
    ghost function Contents(): Items<K, V>
      reads list.chain
    {
      list.chain.items
    }

    ghost function Load(): H.Load
      reads index
    {
      H.Load(index.maxLoadFactor, index.size_ + index.erasedCount, index.entries.Length)
    }

    /** The index can grow once more. */
    ghost predicate Roomy()
      reads index
    {
      H.BytesFit(index.entrySize, 2 * index.entries.Length)
    }

    constructor (hasher: K -> nat, entrySize: nat, layout: B.Layout, divide: (real, real) -> real)
      requires H.Sized(entrySize, layout) && H.FloatDivision(divide)
      ensures Valid() && fresh(Repr()) && Contents() == [] && Load() == H.Load(0.75, 0, 8) && index.entrySize == entrySize
    {
      hide H.PooledHashMap.Valid, H.FloatDivision, NextPow2;
      H.LeastTable(entrySize, layout);
      list := new L.PooledList();
      index := new H.PooledHashMap(hasher, entrySize, layout, divide, 8);
      new;
    }

    lemma Agreement()
      requires Valid()
      ensures Indexed(list.chain.nodes, list.chain.items, index.Model) && index.Valid() && list.Valid()
      ensures list.chain.links.Keys == Members(list.chain.nodes)
      ensures forall k :: k in index.Model <==> HasKey(Contents(), k)
      ensures UniqueKeys(Contents()) && list.size_ == |list.chain.nodes| == |Contents()|
    {
      IndexedUnique(list.chain.nodes, list.chain.items, index.Model);
    }

    /** `find` and `at`: `None` where the source returns a null pointer or throws. */
    method Find(key: K) returns (r: Option<V>)
      requires Valid()
      ensures r == Lookup(Contents(), key)
    {
      hide *;
      Agreement();
      var node, k := NodeOf(key);
      if node == null { return None; }
      return Some(node.value.1);
    }

    /** The node that the index holds for the key, which is the one carrying it in the list. */
    method NodeOf(key: K) returns (node: ListNode?<(K, V)>, ghost k: nat)
      requires Valid()
      ensures node == null <==> !HasKey(Contents(), key)
      ensures node == null ==> Without(Contents(), key) == Contents() && Lookup(Contents(), key) == None
      ensures node != null ==> k < |list.chain.nodes| == |Contents()| && list.chain.nodes[k] == node && Contents()[k].0 == key
      ensures node != null ==> Without(Contents(), key) == Contents()[..k] + Contents()[k + 1..]
      ensures node != null ==> Lookup(Contents(), key) == Some(Contents()[k].1) && node.value == Contents()[k]
    {
      hide Chain, Probeable, HashTable.Contents, IsPow2, CountOccupied, CountErased, Without, Lookup, Distinct;
      var i := index.FindExistingIndex(key);
      if i == index.entries.Length {
        NotIndexed(list.chain.nodes, list.chain.items, index.Model, key);
        return null, 0;
      }
      node := index.entries[i].value;
      k := IndexedAt(list.chain.nodes, list.chain.items, index.Model, key);
    }

    method Erase(key: K) returns (found: bool)
      requires Valid()
      modifies Repr()
      ensures Valid() && fresh(Repr() - old(Repr()))
      ensures found == HasKey(old(Contents()), key) && Contents() == Without(old(Contents()), key)
      ensures Load() == old(Load())
    {
      hide Chain, Distinct, H.PooledHashMap.Valid, L.PooledList.Valid, Indexed, HasKey, Lookup, Without;
      var node, k := NodeOf(key);
      if node == null { return false; }
      Forgotten(list.chain.nodes, list.chain.items, index.Model, k);
      var count := index.Erase(key);
      list.Erase(node, k);
      return true;
    }

    /** A pair is pushed at an end of the list, and its node fetched by position. */
    method PushNode(pair: (K, V), toFront: bool) returns (node: ListNode<(K, V)>)
      requires list.Valid()
      modifies list.Repr()
      ensures list.Valid() && fresh(list.Repr() - old(list.Repr())) && Distinct(list.chain.nodes)
      ensures list.chain.nodes == if toFront then [node] + old(list.chain.nodes) else old(list.chain.nodes) + [node]
      ensures list.chain.items == if toFront then [pair] + old(list.chain.items) else old(list.chain.items) + [pair]
      ensures node.value == pair
    {
      hide Chain, Distinct;
      if toFront {
        ghost var n := list.PushFront(pair);
        node := list.NodeAt(0);
      } else {
        ghost var n := list.PushBack(pair);
        node := list.NodeAt(list.size_ - 1);
      }
      ChainDistinct(list.chain.nodes, list.chain.links, list.chain.head, list.chain.tail);
    }

    method AppendNewNode(key: K, value: V, toFront: bool) returns (node: ListNode<(K, V)>)
      requires Valid() && !HasKey(Contents(), key) && Roomy()
      modifies Repr()
      ensures Valid() && fresh(Repr() - old(Repr())) && node.value == (key, value)
      ensures Contents() == if toFront then [(key, value)] + old(Contents()) else old(Contents()) + [(key, value)]
      ensures Grew(old(Load()), Load())
    {
      hide Chain, Distinct, HasKey, H.PooledHashMap.Valid, L.PooledList.Valid, Indexed, Grew;
      Agreement();
      node := PushNode((key, value), toFront);
      Entered(old(list.chain.nodes), old(list.chain.items), old(index.Model), list.chain.nodes, node, key, value, toFront);
      IndexNode(key, node);
    }

    /** The index is brought up to date with the list. */
    method IndexNode(key: K, node: ListNode<(K, V)>)
      requires index.Valid() && index.maxLoadFactor == 0.75 && list.Valid() && index.entries !in list.Repr() && index !in list.Repr()
      requires Indexed(list.chain.nodes, list.chain.items, index.Model[key := node]) && Roomy()
      modifies index, index.entries
      ensures Valid() && (index.entries == old(index.entries) || fresh(index.entries))
      ensures list.Repr() == old(list.Repr()) && Contents() == old(Contents()) && node.value == old(node.value)
      ensures Grew(old(Load()), Load())
    {
      hide H.PooledHashMap.Valid, L.PooledList.Valid, Chain, Indexed, Distinct;
      index.RoomForOne(key);
      var ok := index.Put(key, node);
    }

    /** The node is erased and its pair pushed again; only then is the index entry rewritten. */
    method RelocateExistingNode(key: K, node: ListNode<(K, V)>, toFront: bool, ghost k: nat)
      requires Valid() && k < |list.chain.nodes| == |Contents()| && list.chain.nodes[k] == node && Contents()[k] == node.value
      requires Contents()[k].0 == key && Roomy()
      modifies Repr()
      ensures Valid() && fresh(Repr() - old(Repr())) && Grew(old(Load()), Load())
      ensures Contents() == Moved(old(Contents()), k, toFront)
    {
      hide Chain, Distinct, H.PooledHashMap.Valid, L.PooledList.Valid, Indexed, HasKey;
      Agreement();
      var at := list.NodeAt(if toFront then 0 else list.size_ - 1);
      if node == at {
        SamePlace(list.chain.nodes, k, if toFront then 0 else |list.chain.nodes| - 1);
        return;
      }
      MoveNode(key, node, toFront, k);
    }

    method MoveNode(key: K, node: ListNode<(K, V)>, toFront: bool, ghost k: nat)
      requires Valid() && k < |list.chain.nodes| == |Contents()| && list.chain.nodes[k] == node && Contents()[k] == node.value
      requires Contents()[k].0 == key && Roomy()
      modifies Repr()
      ensures Valid() && fresh(Repr() - old(Repr())) && Grew(old(Load()), Load())
      ensures Contents() == Moved(old(Contents()), k, toFront)
    {
      hide Chain, Distinct, H.PooledHashMap.Valid, L.PooledList.Valid, Indexed, HasKey, Grew, Moved;
      var newNode := RecreateNode(node, toFront, k);
      Relocated(old(list.chain.nodes), old(list.chain.items), index.Model, k, list.chain.nodes, newNode, toFront);
      IndexNode(key, newNode);
    }

    /** The node goes back to the pool before its pair is pushed again, so the new node may be the same object. */
    method RecreateNode(node: ListNode<(K, V)>, toFront: bool, ghost k: nat) returns (newNode: ListNode<(K, V)>)
      requires list.Valid() && k < |list.chain.nodes| == |list.chain.items|
      requires list.chain.nodes[k] == node && list.chain.items[k] == node.value
      modifies list.Repr()
      ensures list.Valid() && fresh(list.Repr() - old(list.Repr())) && Distinct(list.chain.nodes)
      ensures list.chain.nodes == (var rest := old(list.chain.nodes)[..k] + old(list.chain.nodes)[k + 1..];
        if toFront then [newNode] + rest else rest + [newNode])
      ensures list.chain.items == Moved(old(list.chain.items), k, toFront)
    {
      hide Chain, Distinct, L.PooledList.Valid;
      var movedValue := node.value;
      list.Erase(node, k);
      newNode := PushNode(movedValue, toFront);
    }

    /** The value is assigned in the node, which then moves to its end. */
    method AssignNode(node: ListNode<(K, V)>, key: K, value: V, toFront: bool, ghost k: nat)
      requires Valid() && k < |list.chain.nodes| == |Contents()| && list.chain.nodes[k] == node && Contents()[k] == node.value
      requires Contents()[k].0 == key && Roomy()
      modifies Repr()
      ensures Valid() && fresh(Repr() - old(Repr())) && Grew(old(Load()), Load())
      ensures Contents() == Apply(old(Contents()), if toFront then AssignFront(key, value) else AssignBack(key, value))
    {
      hide Chain, Distinct, H.PooledHashMap.Valid, L.PooledList.Valid, Indexed, HasKey, Grew, Without, Lookup, Apply, Moved;
      Agreement();
      Assigned(list.chain.nodes, list.chain.items, index.Model, k, value);
      AssignedMoved(list.chain.items, k, value, toFront);
      list.SetValue(node, k, (key, value));
      RelocateExistingNode(key, node, toFront, k);
    }

    /** `insert_or_assign_front` and `insert_or_assign_back`. */
    method InsertOrAssign(key: K, value: V, toFront: bool) returns (inserted: bool)
      requires Valid() && Roomy()
      modifies Repr()
      ensures Valid() && fresh(Repr() - old(Repr())) && Grew(old(Load()), Load())
      ensures inserted <==> !HasKey(old(Contents()), key)
      ensures toFront ==> Contents() == [(key, value)] + Without(old(Contents()), key)
      ensures !toFront ==> Contents() == Without(old(Contents()), key) + [(key, value)]
      ensures Contents() == Apply(old(Contents()), if toFront then AssignFront(key, value) else AssignBack(key, value))
    {
      hide Valid, Chain, Distinct, H.PooledHashMap.Valid, L.PooledList.Valid, Indexed, HasKey, Grew, Without, Lookup;
      var node, k := NodeOf(key);
      if node != null {
        AssignNode(node, key, value, toFront, k);
        return false;
      }
      node := AppendNewNode(key, value, toFront);
      inserted := true;
    }

    /** `emplace_front` and `emplace_back`: an existing pair is left alone. */
    method Emplace(key: K, value: V, toFront: bool) returns (inserted: bool)
      requires Valid() && Roomy()
      modifies Repr()
      ensures Valid() && fresh(Repr() - old(Repr())) && Grew(old(Load()), Load())
      ensures inserted <==> !HasKey(old(Contents()), key)
      ensures !inserted ==> Contents() == old(Contents())
      ensures inserted ==> Contents() == if toFront then [(key, value)] + old(Contents()) else old(Contents()) + [(key, value)]
      ensures Contents() == Apply(old(Contents()), if toFront then EmplaceFront(key, value) else EmplaceBack(key, value))
    {
      hide Valid, Chain, Distinct, H.PooledHashMap.Valid, L.PooledList.Valid, Indexed, HasKey, Without, Lookup, Grew;
      var node, k := NodeOf(key);
      if node != null {
        Unchanged(Load());
        return false;
      }
      node := AppendNewNode(key, value, toFront);
      inserted := true;
    }

    /** `move_to_front` (which is `touch`) and `move_to_back`. */
    method MoveToEnd(key: K, toFront: bool) returns (found: bool)
      requires Valid() && Roomy()
      modifies Repr()
      ensures Valid() && fresh(Repr() - old(Repr())) && Grew(old(Load()), Load())
      ensures found == HasKey(old(Contents()), key)
      ensures !found ==> Contents() == old(Contents())
      ensures found ==>
        var pair, rest := (key, Lookup(old(Contents()), key).value), Without(old(Contents()), key);
        Contents() == if toFront then [pair] + rest else rest + [pair]
      ensures Contents() == Apply(old(Contents()), if toFront then MoveToFront(key) else MoveToBack(key))
    {
      hide Valid, Chain, Distinct, H.PooledHashMap.Valid, L.PooledList.Valid, Indexed, HasKey, Without, Lookup;
      var node, k := NodeOf(key);
      if node == null { return false; }
      assert Contents()[k] == (key, Contents()[k].1);
      RelocateExistingNode(key, node, toFront, k);
      found := true;
    }

    /** `pop_front` and `pop_back`, returning the pair that was removed. */
    method Pop(front: bool) returns (out: Option<(K, V)>)
      requires Valid()
      modifies Repr()
      ensures Valid() && fresh(Repr() - old(Repr())) && Load() == old(Load())
      ensures out == if old(Contents()) == [] then None else Some(old(Contents())[if front then 0 else |old(Contents())| - 1])
      ensures old(Contents()) == [] ==> Contents() == []
      ensures old(Contents()) != [] ==> Contents() == if front then old(Contents())[1..] else old(Contents())[..|old(Contents())| - 1]
      ensures Contents() == Apply(old(Contents()), if front then PopFront else PopBack)
    {
      hide Valid, H.PooledHashMap.Valid, L.PooledList.Valid, Indexed, HasKey, Apply, UniqueKeys;
      Agreement();
      Popped(list.chain.items, front);
      if list.size_ == 0 { return None; }
      var pair := list.EndValue(front);
      RemoveEnd(front, pair, if front then 0 else list.size_ - 1);
      out := Some(pair);
    }

    /** The key leaves the index, then its node the list. */
    method RemoveEnd(front: bool, pair: (K, V), ghost k: nat)
      requires Valid() && k < |list.chain.nodes| == |Contents()| && Contents()[k] == pair
      requires k == if front then 0 else |list.chain.nodes| - 1
      modifies Repr()
      ensures Valid() && fresh(Repr() - old(Repr())) && Load() == old(Load())
      ensures Contents() == old(Contents())[..k] + old(Contents())[k + 1..]
    {
      hide Chain, Distinct, H.PooledHashMap.Valid, L.PooledList.Valid, Indexed, HasKey, Without, Lookup, UniqueKeys;
      Forgotten(list.chain.nodes, list.chain.items, index.Model, k);
      var count := index.Erase(pair.0);
      PopNode(front, k);
    }

    method PopNode(front: bool, ghost k: nat)
      requires list.Valid() && k < |list.chain.nodes| == |Contents()|
      requires k == if front then 0 else |list.chain.nodes| - 1
      modifies list.Repr()
      ensures list.Valid() && fresh(list.Repr() - old(list.Repr()))
      ensures list.chain.nodes == old(list.chain.nodes)[..k] + old(list.chain.nodes)[k + 1..]
      ensures Contents() == old(Contents())[..k] + old(Contents())[k + 1..]
    {
      hide L.PooledList.Valid;
      PopEnds(list.chain.nodes);
      PopEnds(list.chain.items);
      if front { list.PopFront(); } else { list.PopBack(); }
    }

    method Clear()
      requires Valid()
      modifies Repr()
      ensures Valid() && fresh(Repr() - old(Repr())) && Contents() == []
      ensures Load() == H.Load(old(Load()).factor, 0, old(Load()).slots)
    {
      hide Chain, H.PooledHashMap.Valid;
      index.Clear();
      list.Clear();
    }

    method Execute(op: Op<K, V>) returns (reply: Reply<K, V>)
      requires Valid() && Roomy()
      modifies Repr()
      ensures Valid() && fresh(Repr() - old(Repr())) && Grew(old(Load()), Load())
      ensures Contents() == Apply(old(Contents()), op) && reply == Answer(old(Contents()), op)
    {
      hide Valid, Apply, Load, HasKey, Lookup;
      match op {
        case AssignFront(k, v) =>
          var b := InsertOrAssign(k, v, true);
          reply := Flag(b);
        case AssignBack(k, v) =>
          var b := InsertOrAssign(k, v, false);
          reply := Flag(b);
        case EmplaceFront(k, v) =>
          var b := Emplace(k, v, true);
          reply := Flag(b);
        case EmplaceBack(k, v) =>
          var b := Emplace(k, v, false);
          reply := Flag(b);
        case MoveToFront(k) =>
          var b := MoveToEnd(k, true);
          reply := Flag(b);
        case MoveToBack(k) =>
          var b := MoveToEnd(k, false);
          reply := Flag(b);
        case _ => reply := ExecuteOther(op);
      }
    }

    method ExecuteOther(op: Op<K, V>) returns (reply: Reply<K, V>)
      requires Valid() && (op.Erase? || op.PopFront? || op.PopBack? || op.Get? || op.Clear?)
      modifies Repr()
      ensures Valid() && fresh(Repr() - old(Repr())) && Grew(old(Load()), Load())
      ensures Contents() == Apply(old(Contents()), op) && reply == Answer(old(Contents()), op)
    {
      hide Valid, HasKey, Lookup, Without;
      match op {
        case Erase(k) =>
          var b := Erase(k);
          reply := Flag(b);
        case PopFront =>
          var out := Pop(true);
          reply := Pair(out);
        case PopBack =>
          var out := Pop(false);
          reply := Pair(out);
        case Get(k) =>
          var value := Find(k);
          reply := Value(value);
        case Clear =>
          Clear();
          reply := Done;
      }
    }

    /** The table stays far below the word size for as many operations as anyone can execute. */
    method ExecuteWithin(op: Op<K, V>, ghost n: nat) returns (reply: Reply<K, V>)
      requires Valid() && Within(Load(), n) && H.BytesFit(index.entrySize, 2 * (8 + 6 * n))
      modifies Repr()
      ensures Valid() && (forall o :: o in Repr() ==> o in old(Repr()) || fresh(o)) && Within(Load(), n + 1)
      ensures Contents() == Apply(old(Contents()), op) && reply == Answer(old(Contents()), op)
    {
      hide Valid, Apply, Grew, Answer;
      H.FewerBytes(index.entrySize, 2 * index.entries.Length, 2 * (8 + 6 * n));
      reply := Execute(op);
      GrewWithinBounds(old(Load()), Load(), n);
    }
  }

  /** Any run of operations from an empty list: contents and answers are those of the model. The pairs are in the
      order in which they were put to the ends, and after a run of a cache in order of most recent use. */
  method Replay<K(==), V>(hasher: K -> nat, entrySize: nat, layout: B.Layout, divide: (real, real) -> real, ops: seq<Op<K, V>>)
    returns (cache: PooledLinkedHashList<K, V>, replies: seq<Reply<K, V>>)
    requires H.Sized(entrySize, layout) && H.FloatDivision(divide) && H.BytesFit(entrySize, 2 * (8 + 6 * |ops|))
    ensures |replies| == |ops| && Answered(replies, ops)
    ensures fresh(cache.Repr()) && cache.Valid() && cache.Contents() == Run(ops)
    ensures InOrder(cache.Contents(), Ledger(ops))
    ensures (forall i :: 0 <= i < |ops| ==> CacheOp(ops[i])) ==> ByRecency(cache.Contents(), ops)
  {
    hide *;
    NothingUsed();
    RunNothing<K, V>();
    cache := new PooledLinkedHashList(hasher, entrySize, layout, divide);
    replies := [];
    AnsweredNothing(ops);
    for i := 0 to |ops|
      invariant cache.index.entrySize == entrySize
      invariant cache.Valid() && fresh(cache.Repr()) && cache.Contents() == Run(ops[..i]) && Within(cache.Load(), i)
      invariant |replies| == i && Answered(replies, ops)
    {
      RunStep(ops, i);
      H.FewerBytes(entrySize, 2 * (8 + 6 * i), 2 * (8 + 6 * |ops|));
      var reply := cache.ExecuteWithin(ops[i], i);
      AnsweredMore(replies, ops, reply);
      replies := replies + [reply];
    }
    assert ops[..|ops|] == ops;
    OrderedByPlace(ops);
    if forall i :: 0 <= i < |ops| ==> CacheOp(ops[i]) { OrderedByUse(ops); }
  }

  lemma Unchanged(load: H.Load)
    ensures Grew(load, load)
  {
  }

  lemma PopEnds<T>(s: seq<T>)
    requires s != []
    ensures s[..0] + s[1..] == s[1..]
    ensures s[..|s| - 1] + s[|s|..] == s[..|s| - 1]
  {
  }

  lemma Popped<K, V>(items: Items<K, V>, front: bool)
    ensures items == [] ==> Apply(items, if front then PopFront else PopBack) == []
    ensures items != [] ==>
      var k := if front then 0 else |items| - 1;
      Apply(items, if front then PopFront else PopBack) == items[..k] + items[k + 1..]
        == if front then items[1..] else items[..|items| - 1]
  {
  }

  lemma AssignedMoved<K, V>(items: Items<K, V>, k: nat, value: V, toFront: bool)
    requires k < |items| && UniqueKeys(items)
    ensures var items', key := items[k := (items[k].0, value)], items[k].0;
      Moved(items', k, toFront) == Apply(items, if toFront then AssignFront(key, value) else AssignBack(key, value))
  {
    WithoutAt(items, k);
    var items' := items[k := (items[k].0, value)];
    assert items'[..k] == items[..k] && items'[k + 1..] == items[k + 1..];
  }

  /** The pair at position `k` goes to an end. */
  ghost function Moved<K, V>(items: Items<K, V>, k: nat, toFront: bool): Items<K, V>
    requires k < |items|
  {
    var rest := items[..k] + items[k + 1..];
    if toFront then [items[k]] + rest else rest + [items[k]]
  }
}
