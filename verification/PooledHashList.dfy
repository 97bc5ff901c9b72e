/** The list with a cache from positions to nodes, which every edit fills or cuts back. */
module PooledHashList {
  import opened MathBits
  import opened NodeChain
  import opened Wrappers

  type Cache<T> = map<nat, ListNode<T>>

  /** Every cached position maps to the node really at that position. */
  ghost predicate Cached<T>(nodes: Nodes<T>, cache: Cache<T>) {
    forall k :: k in cache ==> k < |nodes| && cache[k] == nodes[k]
  }

  /** `deleteCacheUpperThan` */
  function Below<T>(cache: Cache<T>, idx: nat): Cache<T> {
    map k | k in cache && k < idx :: cache[k]
  }

  /** Positions before an insertion keep their nodes; the first and the last inserted node may be cached. */
  lemma CachedSpliced<T>(nodes: Nodes<T>, cache: Cache<T>, t: Nodes<T>, k: nat)
    requires Cached(nodes, cache) && t != [] && k <= |nodes|
    ensures var nodes', cut := nodes[..k] + t + nodes[k..], Below(cache, k);
      && Cached(nodes', cut) && Cached(nodes', cut[k := t[0]])
      && Cached(nodes', cut[k := t[0]][k + |t| - 1 := t[|t| - 1]])
  {
  }

  lemma CachedRemoved<T>(nodes: Nodes<T>, cache: Cache<T>, k: nat)
    requires Cached(nodes, cache) && k < |nodes|
    ensures var nodes', cut := nodes[..k] + nodes[k + 1..], Below(cache, k);
      Cached(nodes', cut) && (k + 1 < |nodes| ==> Cached(nodes', cut[k := nodes[k + 1]]))
    ensures k == |nodes| - 1 ==> Cached(nodes[..k] + nodes[k + 1..], cache - {k})
  {
  }

  /** A cache kept across an insertion at the front is wrong at every position it holds. */
  lemma StaleInFront<T>(nodes: Nodes<T>, cache: Cache<T>, t: Nodes<T>)
    requires Cached(nodes, cache) && Distinct(t + nodes) && t != []
    ensures Cached(t + nodes, cache) <==> cache == map[]
    ensures forall k :: k in cache ==> cache[k] != (t + nodes)[k]
  {
    forall k | k in cache
      ensures cache[k] != (t + nodes)[k]
    {
      assert (t + nodes)[k + |t|] == nodes[k];
    }
    if cache != map[] {
      var k :| k in cache;
      assert cache[k] != (t + nodes)[k];
    }
  }

  /** The positions that a cut at `idx` keeps. */
  ghost function Lower(keys: set<nat>, idx: nat): set<nat> { set k | k in keys && k < idx }

  /** The ends of a list that was inserted at `pos`. */
  ghost function SplicedKeys(pos: nat, count: nat): set<nat> {
    {pos} + (if count > 65 then {pos + count - 1} else {})
  }

  /** What a lookup of position `k` followed by a cut at `k` leaves cached, and what the ends add. */
  lemma CutKeys<T>(keys: set<nat>, cache: Cache<T>, k: nat, first: ListNode<T>, m: nat, last: ListNode<T>)
    requires cache.Keys == keys || cache.Keys == keys + {k}
    ensures var cut := Below(cache, k);
      && cut.Keys == Lower(keys, k) && cut[k := first].Keys == Lower(keys, k) + {k}
      && cut[k := first][k + m := last].Keys == Lower(keys, k) + ({k} + {k + m})
  {
  }

  lemma CachedEnds<T>(nodes: Nodes<T>, keys: set<nat>, cache: Cache<T>, more: Nodes<T>, k: nat, cache': Cache<T>)
    requires Cached(nodes, cache) && more != [] && k <= |nodes| && (cache.Keys == keys || cache.Keys == keys + {k})
    requires var d, cut := |more| - 1, Below(cache, k);
      cache' == if d > 64 then cut[k := more[0]][k + d := more[d]] else cut[k := more[0]]
    ensures Cached(nodes[..k] + more + nodes[k..], cache') && cache'.Keys == Lower(keys, k) + SplicedKeys(k, |more|)
  {
    hide Cached, Below, Lower;
    CachedSpliced(nodes, cache, more, k);
    CutKeys(keys, cache, k, more[0], |more| - 1, more[|more| - 1]);
  }

  class PooledHashList<T> {
    const chain: PooledChain<T>
    const cacheMaxSize: nat
    var cache: Cache<T>
    var size_: nat

    ghost function Repr(): set<object>
      reads this, chain
    {
      {this} + chain.Repr()
    }

    /** Everything but the two properties that some edits break. */
    ghost predicate Sound()
      reads chain, Members(chain.nodes), chain.links.Keys
    {
      chain.Valid()
    }

    ghost predicate Valid()
      reads this, chain, Members(chain.nodes), chain.links.Keys
    {
      Sound() && size_ == |chain.nodes| && Cached(chain.nodes, cache)
    }

    constructor (cacheMaxSize: nat)
      ensures Valid() && fresh(Repr()) && chain.items == [] && cache == map[] && this.cacheMaxSize == cacheMaxSize
    {
      chain := new PooledChain();
      this.cacheMaxSize, cache, size_ := cacheMaxSize, map[], 0;
    }

    lemma Agreement()
      requires Valid()
      ensures Sound() && chain.Valid() && |chain.items| == |chain.nodes| == size_ && Cached(chain.nodes, cache) && Distinct(chain.nodes)
      ensures chain.tail == At(chain.nodes, size_ - 1) && chain.head == At(chain.nodes, 0)
    {
      chain.TailAt();
    }

    // ----- Looking up by position -----

    /** A looked-up position is cached while the cache is small. */
    ghost predicate Remembers(cache: Cache<T>, idx: nat)
      reads this`size_
    {
      idx < size_ && idx !in cache && (|cache| < cacheMaxSize || |cache| < size_ / 128)
    }

    /** The node at `idx`, or null past the end, whatever the cache holds and in whatever order it is scanned. */
    method NodeAt(idx: nat) returns (node: ListNode?<T>)
      requires Valid()
      modifies this`cache
      ensures Valid() && node == At(chain.nodes, idx)
      ensures node == null <==> idx >= |chain.items|
      ensures node != null ==> node.value == chain.items[idx]
      ensures cache.Keys == old(cache.Keys) + (if Remembers(old(cache), idx) then {idx} else {})
    {
      hide Chain, Distinct, Cached;
      Agreement();
      if idx >= size_ { return null; }
      ValueAt(idx);
      if idx in cache {
        InCache(idx);
        return cache[idx];
      }
      var currentCacheSize := |cache|;
      ghost var steps;
      node, steps := Search(idx);
      if currentCacheSize < cacheMaxSize || currentCacheSize < size_ / 128 {
        Remember(idx, node);
      }
    }

    /** The walk to a position that is not cached, from an end of the list or from a cached node that is nearer:
        it is no longer than from the chosen end, and above 64 steps no longer than from any cached node. */
    method Search(idx: nat) returns (node: ListNode<T>, ghost steps: nat)
      requires Valid() && idx < size_
      ensures node == chain.nodes[idx]
      ensures steps <= idx && (idx > size_ / 2 ==> steps <= size_ - 1 - idx)
      ensures steps <= 64 || forall k :: k in cache ==> steps <= Apart(idx, k)
    {
      hide Chain, Distinct, Cached;
      Agreement();
      var startNode, startIdx := chain.head, 0;
      if idx > size_ / 2 { startIdx, startNode := size_ - 1, chain.tail; }
      var distance := Apart(idx, startIdx);
      if |cache| > 0 && distance > 64 {
        startNode, startIdx, distance := Nearer(idx, startNode, startIdx, distance);
      }
      node := chain.Walk(startNode, startIdx, idx, distance);
      steps := distance;
    }

    lemma ValueAt(idx: nat)
      requires Valid() && idx < size_
      ensures chain.nodes[idx].value == chain.items[idx]
    {
    }

    method Remember(idx: nat, node: ListNode<T>)
      requires Cached(chain.nodes, cache) && idx < |chain.nodes| && chain.nodes[idx] == node
      modifies this`cache
      ensures Cached(chain.nodes, cache) && cache == old(cache)[idx := node]
    {
      cache := cache[idx := node];
    }

    lemma InCache(idx: nat)
      requires Valid() && idx in cache
      ensures idx < |chain.nodes| && cache[idx] == chain.nodes[idx]
    {
    }

    /** The scan of the cache for a start that is nearer to `idx`; it stops once it is close enough. */
    method Nearer(idx: nat, fromNode: ListNode<T>, fromIdx: nat, fromDistance: nat)
      returns (startNode: ListNode<T>, startIdx: nat, distance: nat)
      requires Valid() && fromIdx < |chain.nodes| && chain.nodes[fromIdx] == fromNode && fromDistance == Apart(idx, fromIdx)
      ensures startIdx < |chain.nodes| && chain.nodes[startIdx] == startNode && distance == Apart(idx, startIdx)
      ensures distance <= fromDistance
      ensures distance < 64 || forall k :: k in cache ==> distance <= Apart(idx, k)
    {
      startNode, startIdx, distance := fromNode, fromIdx, fromDistance;
      var remaining := cache.Keys;
      while remaining != {}
        invariant remaining <= cache.Keys
        invariant startIdx < |chain.nodes| && chain.nodes[startIdx] == startNode && distance == Apart(idx, startIdx)
        invariant distance <= fromDistance
        invariant forall k :: k in cache && k !in remaining ==> distance <= Apart(idx, k)
        decreases |remaining|
      {
        var index :| index in remaining;
        remaining := remaining - {index};
        var curDistance := Apart(idx, index);
        if curDistance < distance {
          startNode, startIdx, distance := cache[index], index, curDistance;
          if distance < 64 { break; }
        }
      }
    }

    // ----- Editing -----

    /** Every 64th position below 4096, and all but every 256th from there on. */
    ghost predicate Sampled(position: nat) {
      if position < 4096 then position % 64 == 0 else position % 256 != 0
    }

    /** The last position is cached if it is a sampled one and the cache is not full. */
    ghost predicate PositionCached(before: Cache<T>, position: nat)
      reads this`cache
    {
      cache.Keys == before.Keys + (if |before| < cacheMaxSize && Sampled(position) then {position} else {})
    }

    /** The cache entry that `push_back` adds for the node at position `size_`. */
    function CacheAppended(n: ListNode<T>): Cache<T>
      reads this
    {
      if |cache| >= cacheMaxSize then cache
      else if (if size_ < 4096 then And(size_, 63) == 0 else And(size_, 255) != 0) then cache[size_ := n]
      else cache
    }

    method PushBack(value: T)
      requires Valid()
      modifies Repr()
      ensures Valid() && fresh(Repr() - old(Repr())) && chain.items == old(chain.items) + [value]
      ensures PositionCached(old(cache), |old(chain.items)|)
    {
      hide Chain, Distinct, Cached, PositionCached;
      Agreement();
      var n := chain.PushBack(value);
      CacheLast(n, old(chain.nodes));
      size_ := size_ + 1;
    }

    method CacheLast(n: ListNode<T>, ghost nodes: Nodes<T>)
      requires Cached(nodes, cache) && size_ == |nodes|
      modifies this`cache
      ensures Cached(nodes + [n], cache) && PositionCached(old(cache), |nodes|)
    {
      hide And;
      SampledMasks(size_);
      cache := CacheAppended(n);
    }

    method PushFront(value: T)
      requires Valid()
      modifies Repr()
      ensures Valid() && fresh(Repr() - old(Repr())) && chain.items == [value] + old(chain.items) && cache == map[]
    {
      hide Chain, Distinct;
      Agreement();
      var n := chain.PushFront(value);
      size_ := size_ + 1;
      cache := map[];
    }

    /** False where the source throws. At either end the source goes through `push_front` or `push_back`,
        which count the element, and then counts it again: only an interior insert keeps the list valid. */
    method Insert(pos: nat, value: T) returns (ok: bool)
      requires Valid()
      modifies Repr()
      ensures Sound() && fresh(Repr() - old(Repr()))
      ensures ok <==> pos <= |old(chain.items)|
      ensures chain.items == if ok then old(chain.items)[..pos] + [value] + old(chain.items)[pos..] else old(chain.items)
      ensures ok ==> size_ == |chain.items| + (if 0 < pos < |old(chain.items)| then 0 else 1)
      ensures Valid() <==> !ok || 0 < pos < |old(chain.items)|
    {
      hide Chain, Distinct;
      Agreement();
      if pos > size_ { return false; }
      ok := true;
      if pos == 0 {
        PushFront(value);
        AtTheFront(old(chain.items), value);
        Agreement();
      } else if pos == size_ {
        PushBack(value);
        AtTheEnd(old(chain.items), value);
        Agreement();
      } else {
        InsertInside(pos, value);
        Agreement();
        return;
      }
      size_ := size_ + 1;
    }

    /** The node at an interior position and the nodes beside it. */
    method Neighbours(pos: nat) returns (prev: ListNode<T>, cur: ListNode<T>, next: ListNode?<T>)
      requires Valid() && 0 < pos < |chain.nodes|
      modifies this`cache
      ensures Valid() && prev == chain.nodes[pos - 1] && cur == chain.nodes[pos] && next == At(chain.nodes, pos + 1)
      ensures cache.Keys == old(cache.Keys) || cache.Keys == old(cache.Keys) + {pos}
    {
      hide Chain, Distinct, PooledChain.Valid, Remembers;
      Agreement();
      var node := NodeAt(pos);
      chain.PrevAt(pos);
      prev, cur, next := node.prev, node, node.next;
    }

    /** The cache is cut at a position, and the node now there may be cached. */
    method CacheFrom(pos: nat, n: ListNode?<T>, wanted: bool)
      modifies this`cache
      ensures cache == if wanted && n != null then Below(old(cache), pos)[pos := n] else Below(old(cache), pos)
    {
      cache := Below(cache, pos);
      if wanted && n != null {
        cache := cache[pos := n];
      }
    }

    /** A new node is linked in; count and cache are still those from before. */
    method InsertNode(pos: nat, value: T) returns (n: ListNode<T>)
      requires Valid() && 0 < pos < |chain.nodes|
      modifies this`cache, chain.Repr()
      ensures Sound() && fresh(Repr() - old(Repr())) && Cached(old(chain.nodes), cache)
      ensures chain.nodes == old(chain.nodes)[..pos] + [n] + old(chain.nodes)[pos..]
      ensures chain.items == old(chain.items)[..pos] + [value] + old(chain.items)[pos..]
      ensures cache.Keys == old(cache.Keys) || cache.Keys == old(cache.Keys) + {pos}
    {
      hide Chain, Distinct, Cached, PooledChain.Valid;
      var prev, cur, next := Neighbours(pos);
      n := chain.Insert(prev, cur, pos, value);
    }

    method InsertInside(pos: nat, value: T)
      requires Valid() && 0 < pos < |chain.items|
      modifies Repr()
      ensures Valid() && fresh(Repr() - old(Repr()))
      ensures chain.items == old(chain.items)[..pos] + [value] + old(chain.items)[pos..]
      ensures cache.Keys == Lower(old(cache.Keys), pos) + (if pos > 16 || |old(chain.items)| - pos > 16 then {pos} else {})
    {
      hide Valid, Sound, Chain, Distinct, Cached, Below, PooledChain.Valid, Lower, Remembers, SplicedKeys;
      Agreement();
      var n := InsertNode(pos, value);
      CachedSpliced(old(chain.nodes), cache, [n], pos);
      CutKeys(old(cache.Keys), cache, pos, n, 0, n);
      CacheFrom(pos, n, pos > 16 || size_ - pos > 16);
      size_ := size_ + 1;
      ValidWhenCached();
    }

    /** False where the source throws. At the front of a list that has elements the cache is kept although
        every position has moved: the list stays valid exactly when nothing was cached. */
    method InsertList(pos: nat, other: PooledHashList<T>) returns (ok: bool)
      requires Valid() && other.Valid() && Repr() !! other.Repr()
      modifies Repr(), other.Repr()
      ensures Sound() && size_ == |chain.items| && other.Valid()
      ensures Repr() <= old(Repr()) + old(other.Repr()) && other.Repr() <= old(other.Repr())
      ensures ok <==> pos <= |old(chain.items)|
      ensures chain.items == if ok then old(chain.items)[..pos] + old(other.chain.items) + old(chain.items)[pos..] else old(chain.items)
      ensures other.chain.items == if ok then [] else old(other.chain.items)
      ensures Valid() <==> !ok || old(other.chain.items) == [] || pos > 0 || old(cache) == map[]
    {
      hide Chain, Distinct, Cached;
      Agreement();
      other.Agreement();
      if pos > size_ { return false; }
      ok := true;
      if other.size_ == 0 { return; }
      Merge(pos, other);
    }

    method Merge(pos: nat, other: PooledHashList<T>)
      requires Valid() && other.Valid() && Repr() !! other.Repr() && pos <= |chain.items| && other.chain.items != []
      modifies Repr(), other.Repr()
      ensures Sound() && size_ == |chain.items| && other.Valid()
      ensures Repr() <= old(Repr()) + old(other.Repr()) && other.Repr() <= old(other.Repr())
      ensures chain.items == old(chain.items)[..pos] + old(other.chain.items) + old(chain.items)[pos..]
      ensures other.chain.items == []
      ensures Valid() <==> pos > 0 || old(cache) == map[]
    {
      hide Valid, Sound, Chain, Distinct, Cached, PooledChain.Valid;
      Agreement();
      other.Agreement();
      MergeNodes(pos, other);
      NothingIsCached(other.chain.nodes);
      TakeCount(other);
      ValidWhenCached();
      other.ValidWhenCached();
    }

    lemma ValidWhenCached()
      requires Sound() && size_ == |chain.nodes|
      ensures Valid() <==> Cached(chain.nodes, cache)
    {
    }

    method TakeCount(other: PooledHashList<T>)
      requires this != other && Sound() && other.Sound()
      modifies this`size_, other`size_, other`cache
      ensures Sound() && other.Sound() && chain.nodes == old(chain.nodes) && chain.items == old(chain.items)
      ensures other.chain.nodes == old(other.chain.nodes) && other.chain.items == old(other.chain.items) && cache == old(cache)
      ensures size_ == old(size_) + old(other.size_) && other.size_ == 0 && other.cache == map[]
    {
      size_ := size_ + other.size_;
      other.size_ := 0;
      other.cache := map[];
    }

    method MergeNodes(pos: nat, other: PooledHashList<T>)
      requires Valid() && other.Valid() && Repr() !! other.Repr() && pos <= |chain.nodes| && other.chain.nodes != []
      modifies this`cache, chain.Repr(), other.chain.Repr()
      ensures Sound() && other.Sound() && Repr() <= old(Repr()) + old(other.Repr()) && other.Repr() <= old(other.Repr())
      ensures |chain.nodes| == |old(chain.nodes)| + |old(other.chain.nodes)|
      ensures chain.items == old(chain.items)[..pos] + old(other.chain.items) + old(chain.items)[pos..]
      ensures |chain.items| == |chain.nodes|
      ensures other.chain.items == [] && other.chain.nodes == []
      ensures Cached(chain.nodes, cache) <==> pos > 0 || old(cache) == map[]
      ensures pos == 0 ==> cache == old(cache)
      ensures 0 < pos == |old(chain.nodes)| ==> cache == map[]
    {
      hide Sound, Chain, Distinct, Cached, PooledChain.Valid;
      Agreement();
      other.Agreement();
      SumSizes(chain.nodes, other.chain.nodes, pos);
      SumSizes(chain.items, other.chain.items, pos);
      if pos == 0 {
        ghost var nodes, more := chain.nodes, other.chain.nodes;
        SpliceAt(other, null, chain.head, 0);
        StaleFront(nodes, more);
      } else if pos == size_ {
        SpliceAt(other, chain.tail, null, pos);
        cache := map[];
        NothingIsCached(chain.nodes);
      } else {
        SpliceInside(pos, other);
      }
    }

    /** The nodes of the other list move in; counts and caches are still those from before. */
    method SpliceAt(other: PooledHashList<T>, p: ListNode?<T>, q: ListNode?<T>, ghost k: nat)
      requires Valid() && other.Valid() && Repr() !! other.Repr() && other.chain.nodes != []
      requires k <= |chain.nodes| && p == At(chain.nodes, k - 1) && q == At(chain.nodes, k)
      modifies chain.Repr(), other.chain.Repr()
      ensures Sound() && other.Sound() && Repr() <= old(Repr()) + old(other.Repr()) && other.Repr() <= old(other.Repr())
      ensures chain.nodes == old(chain.nodes)[..k] + old(other.chain.nodes) + old(chain.nodes)[k..]
      ensures chain.items == old(chain.items)[..k] + old(other.chain.items) + old(chain.items)[k..]
      ensures other.chain.items == [] && other.chain.nodes == [] && unchanged(this) && unchanged(other)
    {
      hide Chain, Distinct, Cached;
      chain.Splice(other.chain, p, q, k);
    }

    lemma StaleFront(nodes: Nodes<T>, more: Nodes<T>)
      requires Sound() && chain.nodes == nodes[..0] + more + nodes[0..] && Cached(nodes, cache) && more != []
      ensures Cached(chain.nodes, cache) <==> cache == map[]
    {
      assert chain.nodes == more + nodes;
      StaleInFront(nodes, cache, more);
    }

    /** The head and the tail of the inserted list are cached, the tail only if it is far enough away. */
    method CacheEnds(pos: nat, head: ListNode<T>, distance: nat, tail: ListNode<T>)
      modifies this`cache
      ensures cache ==
        if distance > 64 then Below(old(cache), pos)[pos := head][pos + distance := tail] else Below(old(cache), pos)[pos := head]
    {
      CacheFrom(pos, head, true);
      if distance > 64 {
        cache := cache[pos + distance := tail];
      }
    }

    method SpliceBefore(pos: nat, other: PooledHashList<T>)
      requires Valid() && other.Valid() && Repr() !! other.Repr() && other.chain.nodes != [] && 0 < pos < |chain.nodes|
      modifies this`cache, chain.Repr(), other.chain.Repr()
      ensures Sound() && other.Sound() && Repr() <= old(Repr()) + old(other.Repr()) && other.Repr() <= old(other.Repr())
      ensures chain.nodes == old(chain.nodes)[..pos] + old(other.chain.nodes) + old(chain.nodes)[pos..]
      ensures chain.items == old(chain.items)[..pos] + old(other.chain.items) + old(chain.items)[pos..]
      ensures other.chain.items == [] && other.chain.nodes == [] && Cached(old(chain.nodes), cache)
      ensures cache.Keys == old(cache.Keys) || cache.Keys == old(cache.Keys) + {pos}
    {
      hide Chain, Distinct, Cached, PooledChain.Valid;
      var prev, cur, next := Neighbours(pos);
      SpliceAt(other, prev, cur, pos);
    }

    method SpliceInside(pos: nat, other: PooledHashList<T>)
      requires Valid() && other.Valid() && Repr() !! other.Repr() && other.chain.nodes != [] && 0 < pos < |chain.nodes|
      modifies this`cache, chain.Repr(), other.chain.Repr()
      ensures Sound() && other.Sound() && Repr() <= old(Repr()) + old(other.Repr()) && other.Repr() <= old(other.Repr())
      ensures chain.nodes == old(chain.nodes)[..pos] + old(other.chain.nodes) + old(chain.nodes)[pos..]
      ensures chain.items == old(chain.items)[..pos] + old(other.chain.items) + old(chain.items)[pos..]
      ensures other.chain.items == [] && other.chain.nodes == [] && Cached(chain.nodes, cache)
      ensures cache.Keys == Lower(old(cache.Keys), pos) + SplicedKeys(pos, |old(other.chain.nodes)|)
    {
      hide Chain, Distinct, Cached, Below, PooledChain.Valid, Lower, SplicedKeys;
      other.Agreement();
      var otherHead, otherTail := other.chain.head, other.chain.tail;
      SpliceBefore(pos, other);
      ghost var looked := cache;
      CacheEnds(pos, otherHead, other.size_ - 1, otherTail);
      CachedEnds(old(chain.nodes), old(cache.Keys), looked, old(other.chain.nodes), pos, cache);
    }

    // ----- Removing -----

    /** An index past the end makes the source dereference a null pointer, except 0, and on an empty list the one whose
        successor wraps around to 0. */
    method Erase(idx: nat) returns (ok: bool)
      requires Valid()
      modifies Repr()
      ensures ok <==> idx < |old(chain.items)| || idx == 0 || (old(chain.items) == [] && idx == WORD_LIMIT - 1)
      ensures Valid() && fresh(Repr() - old(Repr()))
      ensures chain.items ==
        if !ok || old(chain.items) == [] then old(chain.items) else old(chain.items)[..idx] + old(chain.items)[idx + 1..]
    {
      hide Chain, Distinct, Cached;
      Agreement();
      if idx == 0 {
        PopFront();
        return true;
      }
      if idx + 1 == size_ || (size_ == 0 && idx == WORD_LIMIT - 1) {
        PopBack();
        return true;
      }
      if idx >= size_ { return false; }
      EraseInside(idx);
      ok := true;
    }

    method EraseInside(idx: nat)
      requires Valid() && 0 < idx && idx + 1 < |chain.items|
      modifies Repr()
      ensures Valid() && fresh(Repr() - old(Repr()))
      ensures chain.items == old(chain.items)[..idx] + old(chain.items)[idx + 1..]
      ensures cache.Keys == Lower(old(cache.Keys), idx) + {idx}
    {
      hide Chain, Distinct, Cached, Below, PooledChain.Valid, Lower;
      Agreement();
      var next := EraseAt(idx);
      CachedRemoved(old(chain.nodes), cache, idx);
      CutKeys(old(cache.Keys), cache, idx, next, 0, next);
      CacheFrom(idx, next, true);
    }

    /** The node at an interior position is erased; the cache is still that from before. */
    method EraseAt(idx: nat) returns (next: ListNode<T>)
      requires Valid() && 0 < idx && idx + 1 < |chain.nodes|
      modifies this`cache, this`size_, chain.Repr()
      ensures Sound() && size_ == |chain.nodes| && Repr() <= old(Repr()) && Cached(old(chain.nodes), cache)
      ensures chain.nodes == old(chain.nodes)[..idx] + old(chain.nodes)[idx + 1..] && next == old(chain.nodes)[idx + 1]
      ensures chain.items == old(chain.items)[..idx] + old(chain.items)[idx + 1..]
      ensures cache.Keys == old(cache.Keys) || cache.Keys == old(cache.Keys) + {idx}
    {
      hide Chain, Distinct, Cached, PooledChain.Valid;
      var prev, cur, after := Neighbours(idx);
      next := after;
      EraseNode(cur, idx);
    }

    /** `erase(node)`; the cache is left to the caller. */
    method EraseNode(n: ListNode<T>, ghost k: nat)
      requires Sound() && size_ == |chain.nodes| && k < |chain.nodes| && chain.nodes[k] == n
      modifies this`size_, chain.Repr()
      ensures Sound() && size_ == |chain.nodes| && Repr() <= old(Repr())
      ensures chain.nodes == old(chain.nodes)[..k] + old(chain.nodes)[k + 1..]
      ensures chain.items == old(chain.items)[..k] + old(chain.items)[k + 1..]
    {
      hide Chain, Distinct;
      chain.Erase(n, k);
      size_ := size_ - 1;
    }

    method PopFront()
      requires Valid()
      modifies Repr()
      ensures Valid() && fresh(Repr() - old(Repr()))
      ensures chain.items == if old(chain.items) == [] then [] else old(chain.items)[1..]
      ensures cache == map[]
    {
      hide Chain, Distinct;
      Agreement();
      if chain.head != null { EraseNode(chain.head, 0); }
      cache := map[];
    }

    /** The cached tail is dropped first; on an empty list the position wraps around and nothing is cached there. */
    method PopBack()
      requires Valid()
      modifies Repr()
      ensures Valid() && fresh(Repr() - old(Repr()))
      ensures chain.items == if old(chain.items) == [] then [] else old(chain.items)[..|old(chain.items)| - 1]
      ensures cache == if old(chain.items) == [] then old(cache) else old(cache) - {|old(chain.items)| - 1}
    {
      hide Valid, Sound, Chain, Distinct, Cached, PooledChain.Valid;
      Agreement();
      if chain.tail != null {
        PopTail();
      } else {
        NothingCached(chain.nodes, cache, WORD_LIMIT - 1);
        cache := cache - {WORD_LIMIT - 1};
        ValidWhenCached();
      }
    }

    method PopTail()
      requires Valid() && chain.nodes != []
      modifies Repr()
      ensures Valid() && Repr() <= old(Repr())
      ensures old(chain.items) != [] && chain.items == old(chain.items)[..|old(chain.items)| - 1]
      ensures cache == old(cache) - {|old(chain.items)| - 1}
    {
      hide Valid, Sound, Chain, Distinct, Cached, Below, PooledChain.Valid;
      Agreement();
      LastUncached(chain.nodes, cache);
      cache := cache - {size_ - 1};
      EraseTail();
      ValidWhenCached();
    }

    method EraseTail()
      requires Sound() && size_ == |chain.nodes| > 0 && |chain.items| == |chain.nodes|
      requires chain.tail == chain.nodes[|chain.nodes| - 1]
      modifies this`size_, chain.Repr()
      ensures Sound() && size_ == |chain.nodes| && Repr() <= old(Repr())
      ensures chain.nodes == (var k := |old(chain.nodes)| - 1; old(chain.nodes)[..k] + old(chain.nodes)[k + 1..])
      ensures chain.items == old(chain.items)[..|old(chain.items)| - 1]
    {
      hide Sound, PooledChain.Valid, Chain, Distinct;
      EraseNode(chain.tail, size_ - 1);
    }

    /** The cache is kept, so the list is valid afterwards exactly when nothing was cached. */
    method Clear()
      requires Valid()
      modifies Repr()
      ensures Sound() && Repr() == old(Repr()) && chain.items == [] && size_ == 0
      ensures Valid() <==> old(cache) == map[]
    {
      hide Chain, Distinct, Cached;
      chain.Clear();
      size_ := 0;
      NoPositions(chain.nodes, cache);
    }

    /** One operation of a run. A list to insert is built by pushing its elements. */
    method Execute(op: ListOp<T>) returns (reply: Option<T>)
      requires Valid() && Scoped(chain.items, op)
      modifies Repr()
      ensures Valid() && fresh(Repr() - old(Repr()))
      ensures chain.items == Apply(old(chain.items), op) && reply == Reply(old(chain.items), op)
    {
      hide Valid;
      reply := None;
      match op {
        case PushBack(v) => PushBack(v);
        case PushFront(v) => PushFront(v);
        case Insert(pos, v) => var ok := Insert(pos, v);
        case InsertAll(pos, values) => InsertAll(pos, values);
        case Erase(idx) => var ok := Erase(idx);
        case PopFront => PopFront();
        case PopBack => PopBack();
        case Get(idx) =>
          var node := NodeAt(idx);
          if node != null { reply := Some(node.value); }
      }
    }

    method InsertAll(pos: nat, values: seq<T>)
      requires Valid() && 0 < pos <= |chain.items|
      modifies Repr()
      ensures Valid() && fresh(Repr() - old(Repr()))
      ensures chain.items == old(chain.items)[..pos] + values + old(chain.items)[pos..]
    {
      hide Valid;
      var other := ListOf(values);
      var ok := InsertList(pos, other);
    }

    method ListOf(values: seq<T>) returns (other: PooledHashList<T>)
      ensures other.Valid() && fresh(other.Repr()) && other.chain.items == values
    {
      hide Valid, PositionCached;
      other := new PooledHashList(128);
      for i := 0 to |values|
        invariant other.Valid() && fresh(other.Repr()) && other.chain.items == values[..i]
      {
        other.PushBack(values[i]);
      }
    }
  }

  datatype ListOp<+T> =
    | PushBack(value: T)
    | PushFront(value: T)
    | Insert(pos: nat, value: T)
    | InsertAll(pos: nat, values: seq<T>)
    | Erase(idx: nat)
    | PopFront
    | PopBack
    | Get(idx: nat)

  /** The edits that keep the list valid: no insertion at an end through `insert`, none at the front through
      `insert_list`, no erasure past the end. */
  ghost predicate Scoped<T>(items: seq<T>, op: ListOp<T>) {
    match op
    case Insert(pos, v) => 0 < pos < |items|
    case InsertAll(pos, values) => 0 < pos <= |items|
    case Erase(idx) => idx < |items|
    case _ => true
  }

  ghost function Apply<T>(items: seq<T>, op: ListOp<T>): seq<T>
    requires Scoped(items, op)
  {
    match op
    case PushBack(v) => items + [v]
    case PushFront(v) => [v] + items
    case Insert(pos, v) => items[..pos] + [v] + items[pos..]
    case InsertAll(pos, values) => items[..pos] + values + items[pos..]
    case Erase(idx) => items[..idx] + items[idx + 1..]
    case PopFront => if items == [] then [] else items[1..]
    case PopBack => if items == [] then [] else items[..|items| - 1]
    case Get(idx) => items
  }

  ghost function Reply<T>(items: seq<T>, op: ListOp<T>): Option<T> {
    if op.Get? && op.idx < |items| then Some(items[op.idx]) else None
  }

  /** The states of a run: `states[i + 1]` is what operation `i` makes of `states[i]`. */
  ghost predicate Legal<T>(states: seq<seq<T>>, ops: seq<ListOp<T>>) {
    && |states| == |ops| + 1 && states[0] == []
    && forall i :: 0 <= i < |ops| ==> Scoped(states[i], ops[i]) && states[i + 1] == Apply(states[i], ops[i])
  }

  /** Over any scoped run from an empty list, for any cache size and any scan order, every lookup returns the
      element at its position. */
  method Replay<T>(cacheMaxSize: nat, ops: seq<ListOp<T>>, ghost states: seq<seq<T>>)
    returns (list: PooledHashList<T>, replies: seq<Option<T>>)
    requires Legal(states, ops)
    ensures fresh(list.Repr()) && list.Valid() && list.chain.items == states[|ops|]
    ensures |replies| == |ops| && forall i :: 0 <= i < |ops| ==> replies[i] == Reply(states[i], ops[i])
  {
    hide PooledHashList.Valid, Reply, Apply, Scoped;
    list := new PooledHashList(cacheMaxSize);
    replies := [];
    for i := 0 to |ops|
      invariant list.Valid() && fresh(list.Repr()) && list.chain.items == states[i]
      invariant |replies| == i && forall j :: 0 <= j < i ==> replies[j] == Reply(states[j], ops[j])
    {
      var reply := list.Execute(ops[i]);
      replies := replies + [reply];
    }
  }

  /** A concrete list that `insert` at an end leaves with a wrong count. */
  method CountedTwice() returns (list: PooledHashList<int>)
    ensures fresh(list) && list.chain.items == [2, 1] && list.size_ == 3
  {
    hide Chain, PooledHashList.PositionCached, PooledChain.Valid;
    list := new PooledHashList(128);
    list.PushBack(1);
    var ok := list.Insert(0, 2);
  }

  /** A list of one element, whose position is cached. */
  method OneElement(value: int) returns (list: PooledHashList<int>)
    ensures list.Valid() && fresh(list.Repr()) && list.chain.items == [value] && list.cache.Keys == {0}
  {
    hide Chain, PooledChain.Valid, PooledHashList.Valid;
    list := new PooledHashList(128);
    list.PushBack(value);
  }

  /** A concrete list that `insert_list` at the front leaves with a wrong cache. */
  method StaleExample() returns (list: PooledHashList<int>)
    ensures fresh(list) && list.chain.items == [2, 1] && list.size_ == 2 && !list.Valid()
  {
    hide Chain, PooledChain.Valid, PooledHashList.Valid;
    list := OneElement(1);
    var other := OneElement(2);
    var ok := list.InsertList(0, other);
  }

  /** A concrete list that `clear` leaves with a cache of a node that is gone. */
  method StaleAfterClear() returns (list: PooledHashList<int>)
    ensures fresh(list) && list.chain.items == [] && list.size_ == 0 && !list.Valid()
  {
    hide Chain, PooledChain.Valid, PooledHashList.Valid;
    list := OneElement(1);
    list.Clear();
  }

  lemma SampledMasks(position: nat)
    ensures And(position, 63) == position % 64 && And(position, 255) == position % 256
  {
    assert Pow2(6) == 64 && Pow2(8) == 256;
    MaskIsRemainder(position, 6);
    MaskIsRemainder(position, 8);
  }

  lemma LastUncached<T>(nodes: Nodes<T>, cache: Cache<T>)
    requires Cached(nodes, cache) && nodes != []
    ensures var k := |nodes| - 1; Cached(nodes[..k] + nodes[k + 1..], cache - {k})
  {
    CachedRemoved(nodes, cache, |nodes| - 1);
  }

  lemma NothingCached<T>(nodes: Nodes<T>, cache: Cache<T>, k: nat)
    requires nodes == [] && Cached(nodes, cache)
    ensures Cached(nodes, cache - {k}) && cache - {k} == cache
  {
  }

  lemma NothingIsCached<T>(nodes: Nodes<T>)
    ensures Cached(nodes, map[])
  {
  }

  lemma SumSizes<T>(s: seq<T>, t: seq<T>, k: nat)
    requires k <= |s|
    ensures |s[..k] + t + s[k..]| == |s| + |t|
  {
  }

  lemma NoPositions<T>(nodes: Nodes<T>, cache: Cache<T>)
    requires nodes == []
    ensures Cached(nodes, cache) <==> cache == map[]
  {
  }

  function Apart(i: nat, j: nat): nat { if i > j then i - j else j - i }
}
