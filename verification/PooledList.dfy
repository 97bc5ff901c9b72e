/** The pooled list: a chain of nodes and its length. */
module PooledList {
  import opened NodeChain
  import opened Wrappers

  class PooledList<T> {
    const chain: PooledChain<T>
    var size_: nat

    ghost function Repr(): set<object>
      reads this, chain
    {
      {this} + chain.Repr()
    }

    ghost predicate Valid()
      reads this, chain, Members(chain.nodes), chain.links.Keys
    {
      chain.Valid() && size_ == |chain.nodes|
    }

    constructor ()
      ensures Valid() && fresh(Repr()) && chain.nodes == [] && chain.items == []
    {
      chain := new PooledChain();
      size_ := 0;
    }

    method PushBack(value: T) returns (ghost n: ListNode<T>)
      requires Valid()
      modifies Repr()
      ensures Valid() && fresh(Repr() - old(Repr()))
      ensures chain.nodes == old(chain.nodes) + [n]
      ensures chain.items == old(chain.items) + [value]
    {
      hide Chain, Distinct, Sits;
      n := chain.PushBack(value);
      size_ := size_ + 1;
    }

    method PushFront(value: T) returns (ghost n: ListNode<T>)
      requires Valid()
      modifies Repr()
      ensures Valid() && fresh(Repr() - old(Repr()))
      ensures chain.nodes == [n] + old(chain.nodes)
      ensures chain.items == [value] + old(chain.items)
    {
      hide Chain, Distinct, Sits;
      n := chain.PushFront(value);
      size_ := size_ + 1;
    }

    /** The node at `idx`, or null past the end. */
    method NodeAt(idx: nat) returns (node: ListNode?<T>)
      requires Valid()
      ensures node == At(chain.nodes, idx)
    {
      if idx >= size_ { return null; }
      ghost var steps;
      node, steps := Search(idx);
    }

    /** The walk to a position; long lists are walked from the nearer end. */
    method Search(idx: nat) returns (node: ListNode<T>, ghost steps: nat)
      requires Valid() && idx < size_
      ensures node == chain.nodes[idx] && steps <= idx
      ensures size_ > 16 ==> steps <= size_ / 2 && (steps < idx ==> steps == size_ - 1 - idx)
    {
      chain.TailAt();
      var midIdx := size_ / 2;
      if size_ > 16 && idx > midIdx {
        node := chain.Walk(chain.tail, size_ - 1, idx, size_ - 1 - idx);
        steps := size_ - 1 - idx;
      } else {
        node := chain.Walk(chain.head, 0, idx, idx);
        steps := idx;
      }
    }

    /** Erase a node of the list; a null pointer is ignored. */
    method Erase(n: ListNode?<T>, ghost k: nat)
      requires Valid() && (n == null || (k < |chain.nodes| && chain.nodes[k] == n))
      modifies Repr()
      ensures Valid() && fresh(Repr() - old(Repr()))
      ensures n == null ==> chain.nodes == old(chain.nodes) && chain.items == old(chain.items)
      ensures n != null ==> chain.nodes == old(chain.nodes)[..k] + old(chain.nodes)[k + 1..]
      ensures n != null ==> chain.items == old(chain.items)[..k] + old(chain.items)[k + 1..]
      ensures n != null ==> chain.free == old(chain.free) + [n]
    {
      if n == null { return; }
      chain.Erase(n, k);
      size_ := size_ - 1;
    }

    /** `front` and `back` of a list that has elements. */
    method EndValue(front: bool) returns (value: T)
      requires Valid() && chain.nodes != []
      ensures |chain.items| == |chain.nodes| && value == chain.items[if front then 0 else |chain.items| - 1]
    {
      chain.TailAt();
      value := if front then chain.head.value else chain.tail.value;
    }

    method SetValue(n: ListNode<T>, ghost k: nat, value: T)
      requires Valid() && k < |chain.nodes| && chain.nodes[k] == n
      modifies chain`items, n`value
      ensures Valid() && chain.items == old(chain.items)[k := value] && n.value == value
    {
      hide Chain, Distinct, Sits;
      chain.SetValue(n, k, value);
    }

    method PopFront()
      requires Valid()
      modifies Repr()
      ensures Valid() && fresh(Repr() - old(Repr()))
      ensures old(chain.nodes) == [] ==> chain.nodes == [] && chain.items == []
      ensures old(chain.nodes) != [] ==> chain.nodes == old(chain.nodes)[1..] && chain.items == old(chain.items)[1..]
    {
      chain.TailAt();
      if chain.head != null { Erase(chain.head, 0); }
    }

    method PopBack()
      requires Valid()
      modifies Repr()
      ensures Valid() && fresh(Repr() - old(Repr()))
      ensures old(chain.nodes) == [] ==> chain.nodes == [] && chain.items == []
      ensures old(chain.nodes) != [] ==>
        chain.nodes == old(chain.nodes)[..|old(chain.nodes)| - 1] && chain.items == old(chain.items)[..|old(chain.items)| - 1]
    {
      chain.TailAt();
      if chain.tail != null { Erase(chain.tail, size_ - 1); }
    }

    method Clear()
      requires Valid()
      modifies Repr()
      ensures Valid() && Repr() == old(Repr()) && chain.items == [] && chain.nodes == []
    {
      hide Chain, Distinct, Sits;
      chain.Clear();
      size_ := 0;
    }

    method InsertBetween(p: ListNode?<T>, q: ListNode?<T>, ghost k: nat, value: T)
      requires Valid() && k <= |chain.nodes| && p == At(chain.nodes, k - 1) && q == At(chain.nodes, k)
      modifies Repr()
      ensures Valid() && fresh(Repr() - old(Repr()))
      ensures chain.items == old(chain.items)[..k] + [value] + old(chain.items)[k..]
    {
      hide Chain, Distinct, Sits;
      var n := chain.Insert(p, q, k, value);
      size_ := size_ + 1;
    }

    /** False where the source throws `out_of_range`. */
    method Insert(pos: nat, value: T) returns (ok: bool)
      requires Valid()
      modifies Repr()
      ensures Valid() && fresh(Repr() - old(Repr()))
      ensures ok <==> pos <= |old(chain.items)|
      ensures chain.items == if ok then old(chain.items)[..pos] + [value] + old(chain.items)[pos..] else old(chain.items)
    {
      hide Chain, Distinct, Sits;
      chain.TailAt();
      if pos > size_ { return false; }
      ok := true;
      if pos == 0 {
        InsertBetween(null, chain.head, 0, value);
      } else if pos == size_ {
        InsertBetween(chain.tail, null, pos, value);
      } else {
        var cur := NodeAt(pos);
        chain.PrevAt(pos);
        InsertBetween(cur.prev, cur, pos, value);
      }
    }

    method SpliceBetween(other: PooledList<T>, p: ListNode?<T>, q: ListNode?<T>, ghost k: nat)
      requires Valid() && other.Valid() && Repr() !! other.Repr() && other.chain.nodes != []
      requires k <= |chain.nodes| && p == At(chain.nodes, k - 1) && q == At(chain.nodes, k)
      modifies Repr(), other.Repr()
      ensures Valid() && other.Valid() && Repr() <= old(Repr()) + old(other.Repr()) && other.Repr() <= old(other.Repr())
      ensures chain.items == old(chain.items)[..k] + old(other.chain.items) + old(chain.items)[k..]
      ensures other.chain.items == []
    {
      hide Chain, Distinct, Sits;
      chain.Splice(other.chain, p, q, k);
      size_ := size_ + other.size_;
      other.size_ := 0;
    }

    /** False where the source throws; the other list is left empty when its nodes have moved. */
    method InsertList(pos: nat, other: PooledList<T>) returns (ok: bool)
      requires Valid() && other.Valid() && Repr() !! other.Repr()
      modifies Repr(), other.Repr()
      ensures Valid() && other.Valid() && Repr() <= old(Repr()) + old(other.Repr()) && other.Repr() <= old(other.Repr())
      ensures ok <==> pos <= |old(chain.items)|
      ensures chain.items == if ok then old(chain.items)[..pos] + old(other.chain.items) + old(chain.items)[pos..] else old(chain.items)
      ensures other.chain.items == if ok then [] else old(other.chain.items)
    {
      hide Chain, Distinct, Sits;
      chain.TailAt();
      other.chain.TailAt();
      if pos > size_ { return false; }
      ok := true;
      if other.size_ == 0 { return; }
      if pos == 0 {
        SpliceBetween(other, null, chain.head, 0);
      } else if pos == size_ {
        SpliceBetween(other, chain.tail, null, pos);
      } else {
        var cur := NodeAt(pos);
        chain.PrevAt(pos);
        SpliceBetween(other, cur.prev, cur, pos);
      }
    }
  }
}
