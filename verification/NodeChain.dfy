/** The doubly linked chain of pooled nodes that both list classes are made of. */
module NodeChain {
  import opened Wrappers

  class ListNode<T> {
    var value: T
    var prev: ListNode?<T>
    var next: ListNode?<T>

    constructor (value: T)
      ensures this.value == value && prev == null && next == null
    {
      this.value := value;
      prev, next := null, null;
    }
  }

  datatype Ends<T> = Ends(prev: ListNode?<T>, next: ListNode?<T>)

  type Nodes<T> = seq<ListNode<T>>
  type Links<T> = map<ListNode<T>, Ends<T>>

  ghost function Members<T>(s: seq<T>): set<T> { set x | x in s }

  /** The node at position `i`, or null outside the list. */
  ghost function At<T>(s: Nodes<T>, i: int): ListNode?<T> {
    if 0 <= i < |s| then s[i] else null
  }

  ghost predicate Sits<T>(s: Nodes<T>, m: Links<T>, i: int)
    requires 0 <= i < |s|
  {
    s[i] in m && m[s[i]] == Ends(At(s, i - 1), At(s, i + 1))
  }

  /** The links are those of the nodes of `s`, in this order, between `head` and `tail`. */
  ghost predicate Chain<T>(s: Nodes<T>, m: Links<T>, head: ListNode?<T>, tail: ListNode?<T>) {
    && Distinct(s) && head == At(s, 0) && tail == At(s, |s| - 1)
    && (forall i :: 0 <= i < |s| ==> Sits(s, m, i))
    && m.Keys == Members(s)
  }

  lemma SamePlace<T>(s: seq<T>, i: int, j: int)
    requires Distinct(s) && 0 <= i < |s| && 0 <= j < |s| && s[i] == s[j]
    ensures i == j
  {
  }

  // ----- Linking a chain into a chain -----

  ghost predicate CanJoin<T>(m1: Links<T>, m2: Links<T>, p: ListNode?<T>, q: ListNode?<T>, head: ListNode<T>, tail: ListNode<T>) {
    && head in m2 && tail in m2 && m2[head].prev == null && m2[tail].next == null && m1.Keys !! m2.Keys
    && (p != null ==> p in m1) && (q != null ==> q in m1) && (p == null || p != q)
  }

  /** The chain from `head` to `tail` is put between `p` and `q`, either of which may be missing. */
  ghost function Joined<T>(m1: Links<T>, m2: Links<T>, p: ListNode?<T>, q: ListNode?<T>, head: ListNode<T>, tail: ListNode<T>)
    : (r: Links<T>)
    requires CanJoin(m1, m2, p, q, head, tail)
    ensures r.Keys == m1.Keys + m2.Keys
  {
    var a := m1 + m2;
    var b := if p == null then a else a[p := a[p].(next := head)];
    var c := if p == null then b else b[head := b[head].(prev := p)];
    var d := if q == null then c else c[tail := c[tail].(next := q)];
    if q == null then d else d[q := d[q].(prev := tail)]
  }

  lemma JoinedOuter<T>(m1: Links<T>, m2: Links<T>, p: ListNode?<T>, q: ListNode?<T>, head: ListNode<T>, tail: ListNode<T>, x: ListNode<T>)
    requires CanJoin(m1, m2, p, q, head, tail) && x in m1
    ensures Joined(m1, m2, p, q, head, tail)[x] == Ends(if x == q then tail else m1[x].prev, if x == p then head else m1[x].next)
  {
  }

  lemma JoinedInner<T>(m1: Links<T>, m2: Links<T>, p: ListNode?<T>, q: ListNode?<T>, head: ListNode<T>, tail: ListNode<T>, x: ListNode<T>)
    requires CanJoin(m1, m2, p, q, head, tail) && x in m2
    ensures Joined(m1, m2, p, q, head, tail)[x] == Ends(if x == head then p else m2[x].prev, if x == tail then q else m2[x].next)
  {
  }

  lemma ChainCanJoin<T>(s: Nodes<T>, m1: Links<T>, t: Nodes<T>, m2: Links<T>, k: nat, head: ListNode?<T>, tail: ListNode?<T>)
    requires Chain(s, m1, head, tail) && Chain(t, m2, At(t, 0), At(t, |t| - 1)) && t != [] && k <= |s| && m1.Keys !! m2.Keys
    ensures CanJoin(m1, m2, At(s, k - 1), At(s, k), t[0], t[|t| - 1])
  {
    if k > 0 { assert Sits(s, m1, k - 1); }
    if k < |s| { assert Sits(s, m1, k); }
    assert Sits(t, m2, 0) && Sits(t, m2, |t| - 1);
  }

  lemma ChainJoined<T>(s: Nodes<T>, m1: Links<T>, t: Nodes<T>, m2: Links<T>, k: nat, head: ListNode?<T>, tail: ListNode?<T>)
    requires Chain(s, m1, head, tail) && Chain(t, m2, At(t, 0), At(t, |t| - 1)) && t != [] && k <= |s| && m1.Keys !! m2.Keys
    ensures CanJoin(m1, m2, At(s, k - 1), At(s, k), t[0], t[|t| - 1])
    ensures Chain(s[..k] + t + s[k..], Joined(m1, m2, At(s, k - 1), At(s, k), t[0], t[|t| - 1]),
                  if k == 0 then t[0] else head, if k == |s| then t[|t| - 1] else tail)
  {
    ChainCanJoin(s, m1, t, m2, k, head, tail);
    hide Sits, CanJoin;
    JoinedMembers(s, t, k);
    ChainsApart(s, m1, t, m2);
    JoinedDistinct(s, t, k);
    JoinedSits(s, m1, t, m2, k);
    hide Distinct, Joined;
  }

  lemma ChainsApart<T>(s: Nodes<T>, m1: Links<T>, t: Nodes<T>, m2: Links<T>)
    requires m1.Keys == Members(s) && m2.Keys == Members(t) && m1.Keys !! m2.Keys
    ensures forall x :: x in s ==> x !in t
  {
    forall x | x in s
      ensures x !in t
    {
      assert x in m1.Keys;
    }
  }

  lemma JoinedSits<T>(s: Nodes<T>, m1: Links<T>, t: Nodes<T>, m2: Links<T>, k: nat)
    requires (forall i :: 0 <= i < |s| ==> Sits(s, m1, i)) && (forall i :: 0 <= i < |t| ==> Sits(t, m2, i))
    requires Distinct(s) && Distinct(t) && k <= |s| && t != []
    requires CanJoin(m1, m2, At(s, k - 1), At(s, k), t[0], t[|t| - 1])
    ensures var s', m' := s[..k] + t + s[k..], Joined(m1, m2, At(s, k - 1), At(s, k), t[0], t[|t| - 1]);
      forall i :: 0 <= i < |s'| ==> Sits(s', m', i)
  {
    var s', m' := s[..k] + t + s[k..], Joined(m1, m2, At(s, k - 1), At(s, k), t[0], t[|t| - 1]);
    forall i | 0 <= i < |s'|
      ensures Sits(s', m', i)
    {
      if i < k { SitsOuter(s, m1, t, m2, k, i); }
      else if i < k + |t| { SitsInner(s, m1, t, m2, k, i - k); }
      else { SitsOuter(s, m1, t, m2, k, i - |t|); }
    }
  }

  lemma JoinedMembers<T>(s: seq<T>, t: seq<T>, k: nat)
    requires k <= |s|
    ensures Members(s[..k] + t + s[k..]) == Members(s) + Members(t)
  {
    assert forall x :: x in s <==> x in s[..k] || x in s[k..];
  }

  lemma SitsOuter<T>(s: Nodes<T>, m1: Links<T>, t: Nodes<T>, m2: Links<T>, k: nat, i: nat)
    requires i < |s| && Sits(s, m1, i) && Distinct(s) && k <= |s| && t != []
    requires CanJoin(m1, m2, At(s, k - 1), At(s, k), t[0], t[|t| - 1])
    ensures Sits(s[..k] + t + s[k..], Joined(m1, m2, At(s, k - 1), At(s, k), t[0], t[|t| - 1]), if i < k then i else i + |t|)
  {
    JoinedOuter(m1, m2, At(s, k - 1), At(s, k), t[0], t[|t| - 1], s[i]);
    assert s[i] == At(s, k) <==> i == k;
    assert s[i] == At(s, k - 1) <==> i == k - 1;
  }

  lemma SitsInner<T>(s: Nodes<T>, m1: Links<T>, t: Nodes<T>, m2: Links<T>, k: nat, i: nat)
    requires i < |t| && Sits(t, m2, i) && Distinct(t) && k <= |s|
    requires CanJoin(m1, m2, At(s, k - 1), At(s, k), t[0], t[|t| - 1])
    ensures Sits(s[..k] + t + s[k..], Joined(m1, m2, At(s, k - 1), At(s, k), t[0], t[|t| - 1]), k + i)
  {
    JoinedInner(m1, m2, At(s, k - 1), At(s, k), t[0], t[|t| - 1], t[i]);
    assert t[i] == t[0] <==> i == 0;
    assert t[i] == t[|t| - 1] <==> i == |t| - 1;
  }

  lemma ChainOfOne<T>(n: ListNode<T>)
    ensures Chain([n], map[n := Ends(null, null)], n, n)
  {
    assert Sits([n], map[n := Ends(null, null)], 0);
  }

  // ----- Unlinking a node -----

  ghost predicate CanUnlink<T>(n: ListNode<T>, m: Links<T>) {
    n in m && var Ends(p, q) := m[n];
    (p != null ==> p in m && p != n) && (q != null ==> q in m && q != n) && (p == null || p != q)
  }

  ghost function Unlinked<T>(n: ListNode<T>, m: Links<T>): (r: Links<T>)
    requires CanUnlink(n, m)
    ensures r.Keys == m.Keys - {n}
  {
    var p, q := m[n].prev, m[n].next;
    var m1 := if p != null then m[p := m[p].(next := q)] else m;
    var m2 := if q != null then m1[q := m1[q].(prev := p)] else m1;
    m2 - {n}
  }

  lemma UnlinkedLinks<T>(n: ListNode<T>, m: Links<T>, x: ListNode<T>)
    requires CanUnlink(n, m) && x in m && x != n
    ensures Unlinked(n, m)[x] == Ends(if x == m[n].next then m[n].prev else m[x].prev, if x == m[n].prev then m[n].next else m[x].next)
  {
  }

  lemma ChainCanUnlink<T>(s: Nodes<T>, m: Links<T>, head: ListNode?<T>, tail: ListNode?<T>, k: nat)
    requires Chain(s, m, head, tail) && k < |s|
    ensures CanUnlink(s[k], m) && m[s[k]] == Ends(At(s, k - 1), At(s, k + 1))
  {
    assert Sits(s, m, k);
    if k > 0 { assert Sits(s, m, k - 1); }
    if k + 1 < |s| { assert Sits(s, m, k + 1); }
  }

  lemma ChainUnlinked<T>(s: Nodes<T>, m: Links<T>, head: ListNode?<T>, tail: ListNode?<T>, k: nat)
    requires Chain(s, m, head, tail) && k < |s|
    ensures CanUnlink(s[k], m) && m[s[k]] == Ends(At(s, k - 1), At(s, k + 1))
    ensures Members(s[..k] + s[k + 1..]) == Members(s) - {s[k]}
    ensures Chain(s[..k] + s[k + 1..], Unlinked(s[k], m),
                  if k == 0 then At(s, 1) else head, if k + 1 == |s| then At(s, k - 1) else tail)
  {
    ChainCanUnlink(s, m, head, tail, k);
    UnlinkedMembers(s, k);
    var s', m' := s[..k] + s[k + 1..], Unlinked(s[k], m);
    forall i | 0 <= i < |s'|
      ensures Sits(s', m', i)
    {
      SitsUnlinked(s, m, k, if i < k then i else i + 1);
    }
  }

  lemma UnlinkedMembers<T>(s: seq<T>, k: nat)
    requires k < |s| && Distinct(s)
    ensures Members(s[..k] + s[k + 1..]) == Members(s) - {s[k]}
  {
    var u := s[..k] + s[k + 1..];
    forall x
      ensures x in u <==> x in s && x != s[k]
    {
      if x in s && x != s[k] {
        var i :| 0 <= i < |s| && s[i] == x;
        assert u[if i < k then i else i - 1] == x;
      }
    }
  }

  lemma SitsUnlinked<T>(s: Nodes<T>, m: Links<T>, k: nat, i: nat)
    requires i < |s| && k < |s| && i != k && Sits(s, m, i) && Distinct(s)
    requires CanUnlink(s[k], m) && m[s[k]] == Ends(At(s, k - 1), At(s, k + 1))
    ensures Sits(s[..k] + s[k + 1..], Unlinked(s[k], m), if i < k then i else i - 1)
  {
    UnlinkedLinks(s[k], m, s[i]);
    assert s[i] == At(s, k - 1) <==> i == k - 1;
    assert s[i] == At(s, k + 1) <==> i == k + 1;
  }

  lemma KeysAreMembers<T>(s: Nodes<T>, m: Links<T>, head: ListNode?<T>, tail: ListNode?<T>)
    requires Chain(s, m, head, tail)
    ensures m.Keys == Members(s)
  {
  }

  lemma NeighboursAt<T>(s: Nodes<T>, k: nat)
    requires k < |s|
    ensures At(s, k - 1) == null <==> k == 0
    ensures At(s, k + 1) == null <==> k + 1 == |s|
  {
  }

  lemma HeadAndTail<T>(s: Nodes<T>, m: Links<T>, head: ListNode?<T>, tail: ListNode?<T>)
    requires Chain(s, m, head, tail)
    ensures head == At(s, 0) && tail == At(s, |s| - 1)
  {
  }

  lemma AtTheEnd<T>(s: seq<T>, x: T)
    ensures s[..|s|] + [x] + s[|s|..] == s + [x]
  {
  }

  lemma AtTheFront<T>(s: seq<T>, x: T)
    ensures s[..0] + [x] + s[0..] == [x] + s
  {
  }

  /** The node `steps` links after `from`. */
  ghost function Stepped<T>(m: Links<T>, from: ListNode?<T>, steps: nat): ListNode?<T> {
    if steps == 0 || from == null || from !in m then from else Stepped(m, m[from].next, steps - 1)
  }

  /** Position in the ghost order is distance along the `next` links. */
  lemma {:induction false} SteppedAt<T>(s: Nodes<T>, m: Links<T>, head: ListNode?<T>, tail: ListNode?<T>, i: nat, steps: nat)
    requires Chain(s, m, head, tail) && i <= |s|
    ensures Stepped(m, At(s, i), steps) == At(s, i + steps)
    decreases steps
  {
    if steps > 0 && i < |s| {
      assert Sits(s, m, i);
      SteppedAt(s, m, head, tail, i + 1, steps - 1);
    }
  }

  class PooledChain<T> {
    var head: ListNode?<T>
    var tail: ListNode?<T>
    /** The free stack of the node pool. */
    var free: Nodes<T>

    ghost var nodes: Nodes<T>
    ghost var links: Links<T>
    ghost var items: seq<T>

    ghost predicate Linked()
      reads this`links, links.Keys`prev, links.Keys`next
    {
      forall n :: n in links ==> links[n] == Ends(n.prev, n.next)
    }

    ghost predicate Valued()
      reads this`nodes, this`items, Members(nodes)`value
    {
      |items| == |nodes| && forall i :: 0 <= i < |nodes| ==> nodes[i].value == items[i]
    }

    ghost predicate Shaped()
      reads this`head, this`tail, this`free, this`nodes, this`links
    {
      && Chain(nodes, links, head, tail)
      && Distinct(free) && (forall n :: n in free ==> n !in links)
    }

    ghost predicate Valid()
      reads this, Members(nodes), links.Keys
    {
      Linked() && Valued() && Shaped()
    }

    ghost function Repr(): set<object>
      reads this
    {
      {this} + Members(nodes) + Members(free)
    }

    constructor ()
      ensures Valid() && nodes == [] && items == [] && free == [] && Repr() == {this}
    {
      head, tail, free := null, null, [];
      nodes, links, items := [], map[], [];
    }

    // ----- Field assignments -----

    method SetNext(n: ListNode<T>, v: ListNode?<T>)
      requires n in links && Linked()
      modifies this`links, n`next
      ensures Linked() && links == old(links)[n := old(links)[n].(next := v)]
    {
      n.next := v;
      links := links[n := links[n].(next := v)];
    }

    method SetPrev(n: ListNode<T>, v: ListNode?<T>)
      requires n in links && Linked()
      modifies this`links, n`prev
      ensures Linked() && links == old(links)[n := old(links)[n].(prev := v)]
    {
      n.prev := v;
      links := links[n := links[n].(prev := v)];
    }

    /** The links of a chain put between `p` and `q`. */
    method Join(p: ListNode?<T>, q: ListNode?<T>, h: ListNode<T>, t: ListNode<T>, ghost m2: Links<T>)
      requires Linked() && CanJoin(links, m2, p, q, h, t) && forall n :: n in m2 ==> m2[n] == Ends(n.prev, n.next)
      modifies this`links, links.Keys`prev, links.Keys`next, m2.Keys`prev, m2.Keys`next
      ensures Linked() && links == Joined(old(links), m2, p, q, h, t)
    {
      links := links + m2;
      if p != null {
        SetNext(p, h);
        SetPrev(h, p);
      }
      if q != null {
        SetNext(t, q);
        SetPrev(q, t);
      }
    }

    // ----- Adding and removing nodes -----

    /** `create`: the most recently recycled node if there is one, otherwise a new one. */
    method Create(value: T) returns (n: ListNode<T>)
      requires Valid()
      modifies this`free, free
      ensures Valid() && n !in links && n !in free && n.value == value && n.prev == null && n.next == null
      ensures if old(free) != [] then n == old(free)[|old(free)| - 1] && free == old(free)[..|old(free)| - 1]
              else fresh(n) && free == []
    {
      if |free| > 0 {
        n := free[|free| - 1];
        free := free[..|free| - 1];
        n.value, n.prev, n.next := value, null, null;
      } else {
        n := new ListNode(value);
      }
    }
  
    /** A single node is linked in at position `k`, between `p` and `q`. */
    method Attach(n: ListNode<T>, p: ListNode?<T>, q: ListNode?<T>, ghost k: nat)
      requires Linked() && Shaped() && k <= |nodes| && p == At(nodes, k - 1) && q == At(nodes, k)
      requires n !in links && n !in free && n.prev == null && n.next == null
      modifies this`head, this`tail, this`nodes, this`links, links.Keys`prev, links.Keys`next, n`prev, n`next
      ensures Linked() && Shaped() && nodes == old(nodes)[..k] + [n] + old(nodes)[k..]
    {
      hide Chain, Joined;
      ghost var m2 := map[n := Ends<T>.Ends(null, null)];
      ChainOfOne(n);
      ChainJoined(nodes, links, [n], m2, k, head, tail);
      Join(p, q, n, n, m2);
      if p == null { head := n; }
      if q == null { tail := n; }
      nodes := nodes[..k] + [n] + nodes[k..];
    }

    /** Create a node and link it in at position `k`. */
    method Insert(p: ListNode?<T>, q: ListNode?<T>, ghost k: nat, value: T) returns (n: ListNode<T>)
      requires Valid() && k <= |nodes| && p == At(nodes, k - 1) && q == At(nodes, k)
      modifies Repr()
      ensures Valid() && nodes == old(nodes)[..k] + [n] + old(nodes)[k..]
      ensures items == old(items)[..k] + [value] + old(items)[k..]
      ensures fresh(Repr() - old(Repr()))
    {
      hide Chain;
      KeysAreMembers(nodes, links, head, tail);
      n := Create(value);
      ghost var before := nodes;
      Attach(n, p, q, k);
      RecordInserted(before, n, k, value);
    }

    ghost method RecordInserted(before: Nodes<T>, n: ListNode<T>, k: nat, value: T)
      requires k <= |before| == |items| && (forall i :: 0 <= i < |before| ==> before[i].value == items[i])
      requires nodes == before[..k] + [n] + before[k..] && n.value == value
      modifies this`items
      ensures Valued() && items == old(items)[..k] + [value] + old(items)[k..]
    {
      items := items[..k] + [value] + items[k..];
    }

    method PushBack(value: T) returns (n: ListNode<T>)
      requires Valid()
      modifies Repr()
      ensures Valid() && nodes == old(nodes) + [n]
      ensures items == old(items) + [value]
      ensures fresh(Repr() - old(Repr()))
    {
      hide *;
      TailAt();
      n := Insert(tail, null, |nodes|, value);
      AtTheEnd(old(nodes), n);
      AtTheEnd(old(items), value);
    }

    method PushFront(value: T) returns (n: ListNode<T>)
      requires Valid()
      modifies Repr()
      ensures Valid() && nodes == [n] + old(nodes)
      ensures items == [value] + old(items)
      ensures fresh(Repr() - old(Repr()))
    {
      hide *;
      TailAt();
      n := Insert(null, head, 0, value);
      AtTheFront(old(nodes), n);
      AtTheFront(old(items), value);
    }

    lemma PrevAt(k: nat)
      requires Valid() && k < |nodes|
      ensures nodes[k].prev == At(nodes, k - 1) && nodes[k].next == At(nodes, k + 1)
    {
      assert Sits(nodes, links, k);
    }

    lemma TailAt()
      requires Valid()
      ensures tail == At(nodes, |nodes| - 1) && head == At(nodes, 0) && |items| == |nodes|
      ensures null == At(nodes, |nodes|) && null == At(nodes, -1)
    {
    }

    /** The node leaves the chain and goes back to the pool. */
    method Erase(n: ListNode<T>, ghost k: nat)
      requires Valid() && k < |nodes| && nodes[k] == n
      modifies Repr()
      ensures Valid() && nodes == old(nodes)[..k] + old(nodes)[k + 1..]
      ensures items == old(items)[..k] + old(items)[k + 1..]
      ensures free == old(free) + [n] && Repr() <= old(Repr())
      ensures n.prev == null && n.next == null
    {
      hide Chain;
      KeysAreMembers(nodes, links, head, tail);
      ChainUnlinked(nodes, links, head, tail, k);
      ghost var before := nodes;
      UnlinkNode(n, k);
      n.prev, n.next := null, null;
      free := free + [n];
      RecordErased(before, k);
    }

    method UnlinkNode(n: ListNode<T>, ghost k: nat)
      requires Linked() && Shaped() && k < |nodes| && nodes[k] == n
      modifies this`head, this`tail, this`nodes, this`links, links.Keys`prev, links.Keys`next
      ensures Linked() && Shaped() && nodes == old(nodes)[..k] + old(nodes)[k + 1..] && n !in links
    {
      hide Chain, Unlinked;
      ChainUnlinked(nodes, links, head, tail, k);
      NeighboursAt(nodes, k);
      Unlink(n);
      nodes := nodes[..k] + nodes[k + 1..];
    }

    ghost method RecordErased(before: Nodes<T>, k: nat)
      requires k < |before| == |items| && (forall i :: 0 <= i < |before| && i != k ==> before[i].value == items[i])
      requires nodes == before[..k] + before[k + 1..]
      modifies this`items
      ensures Valued() && items == old(items)[..k] + old(items)[k + 1..]
    {
      items := items[..k] + items[k + 1..];
    }

    method Unlink(n: ListNode<T>)
      requires Linked() && CanUnlink(n, links)
      modifies this`head, this`tail, this`links, links.Keys`prev, links.Keys`next
      ensures Linked() && links == Unlinked(n, old(links))
      ensures head == if old(links)[n].prev == null then old(links)[n].next else old(head)
      ensures tail == if old(links)[n].next == null then old(links)[n].prev else old(tail)
    {
      var prev := n.prev;
      var next := n.next;
      if prev != null { SetNext(prev, next); } else { head := next; }
      if next != null { SetPrev(next, prev); } else { tail := prev; }
      links := links - {n};
    }

    /** All nodes of `other` move in at position `k`, between `p` and `q`. */
    method Splice(other: PooledChain<T>, p: ListNode?<T>, q: ListNode?<T>, ghost k: nat)
      requires Valid() && other.Valid() && other.nodes != [] && Repr() !! other.Repr()
      requires k <= |nodes| && p == At(nodes, k - 1) && q == At(nodes, k)
      modifies Repr(), other.Repr()
      ensures Valid() && other.Valid() && other.nodes == [] && other.items == []
      ensures nodes == old(nodes)[..k] + old(other.nodes) + old(nodes)[k..]
      ensures items == old(items)[..k] + old(other.items) + old(items)[k..]
      ensures free == old(free) && other.free == old(other.free)
      ensures Repr() <= old(Repr()) + old(other.Repr()) && other.Repr() <= old(other.Repr())
    {
      hide Chain;
      KeysAreMembers(nodes, links, head, tail);
      KeysAreMembers(other.nodes, other.links, other.head, other.tail);
      ghost var before := nodes;
      JoinNodes(other, p, q, k);
      RecordSpliced(before, other.nodes, other.items, k);
      other.Emptied();
    }

    method JoinNodes(other: PooledChain<T>, p: ListNode?<T>, q: ListNode?<T>, ghost k: nat)
      requires Linked() && Shaped() && other.Linked() && other.Shaped() && other.nodes != [] && this != other
      requires links.Keys !! other.links.Keys && forall n :: n in free ==> n !in other.links
      requires k <= |nodes| && p == At(nodes, k - 1) && q == At(nodes, k)
      modifies this`head, this`tail, this`nodes, this`links, links.Keys`prev, links.Keys`next
      modifies other.links.Keys`prev, other.links.Keys`next
      ensures Linked() && Shaped() && nodes == old(nodes)[..k] + other.nodes + old(nodes)[k..]
    {
      hide Chain, Joined;
      HeadAndTail(other.nodes, other.links, other.head, other.tail);
      ChainJoined(nodes, links, other.nodes, other.links, k, head, tail);
      Join(p, q, other.head, other.tail, other.links);
      if p == null { head := other.head; }
      if q == null { tail := other.tail; }
      nodes := nodes[..k] + other.nodes + nodes[k..];
    }

    ghost method RecordSpliced(before: Nodes<T>, more: Nodes<T>, moreItems: seq<T>, k: nat)
      requires k <= |before| == |items| && (forall i :: 0 <= i < |before| ==> before[i].value == items[i])
      requires |more| == |moreItems| && (forall i :: 0 <= i < |more| ==> more[i].value == moreItems[i])
      requires nodes == before[..k] + more + before[k..]
      modifies this`items
      ensures Valued() && items == old(items)[..k] + moreItems + old(items)[k..]
    {
      items := items[..k] + moreItems + items[k..];
    }

    /** The caller's list has given its nodes away. */
    method Emptied()
      modifies this`head, this`tail, this`nodes, this`links, this`items
      requires Distinct(free)
      ensures Valid() && nodes == [] && items == []
    {
      head, tail := null, null;
      nodes, links, items := [], map[], [];
    }

    /** An assignment through a reference to the value of the node at position `k`. */
    method SetValue(n: ListNode<T>, ghost k: nat, value: T)
      requires Valid() && k < |nodes| && nodes[k] == n
      modifies this`items, n`value
      ensures Valid() && items == old(items)[k := value]
    {
      assert forall i :: 0 <= i < |nodes| && i != k ==> nodes[i] != n;
      n.value := value;
      items := items[k := value];
    }

    /** Every node goes back to the pool, from the head on. */
    method Clear()
      requires Valid()
      modifies Repr()
      ensures Valid() && nodes == [] && items == [] && free == old(free) + old(nodes) && Repr() == old(Repr())
      ensures forall j :: 0 <= j < |old(nodes)| ==> old(nodes)[j].prev == null && old(nodes)[j].next == null
    {
      hide Chain, Linked, Valued, Distinct;
      NextNodes();
      TailAt();
      FreeMembers();
      RecycleNodes();
      Emptied();
    }

    method RecycleNodes()
      requires head == At(nodes, 0) && Distinct(nodes) && forall j :: 0 <= j < |nodes| ==> nodes[j].next == At(nodes, j + 1)
      modifies this`free, Members(nodes)`prev, Members(nodes)`next
      ensures free == old(free) + nodes
      ensures forall j :: 0 <= j < |nodes| ==> nodes[j].prev == null && nodes[j].next == null
    {
      hide Distinct;
      var cur := head;
      ghost var i := 0;
      while cur != null
        invariant 0 <= i <= |nodes| && cur == At(nodes, i)
        invariant forall j :: i <= j < |nodes| ==> nodes[j].next == At(nodes, j + 1)
        invariant forall j :: 0 <= j < i ==> nodes[j].prev == null && nodes[j].next == null
        invariant free == old(free) + nodes[..i]
        decreases |nodes| - i
      {
        var next := cur.next;
        Recycle(cur, i);
        cur, i := next, i + 1;
      }
      assert nodes[..i] == nodes;
    }

    method Recycle(n: ListNode<T>, ghost i: nat)
      requires i < |nodes| && n == nodes[i] && Distinct(nodes)
      modifies this`free, n`prev, n`next
      ensures free == old(free) + [n] && forall j :: i < j < |nodes| ==> nodes[j].next == old(nodes[j].next)
      ensures n.prev == null && n.next == null
    {
      n.prev, n.next := null, null;
      free := free + [n];
    }

    lemma NextNodes()
      requires Valid()
      ensures Distinct(nodes) && forall j :: 0 <= j < |nodes| ==> nodes[j].next == At(nodes, j + 1)
    {
      forall j | 0 <= j < |nodes|
        ensures nodes[j].next == At(nodes, j + 1)
      {
        PrevAt(j);
      }
    }

    lemma FreeMembers()
      requires Valid()
      ensures Distinct(free + nodes)
      ensures Members(free + nodes) == Members(nodes) + Members(free)
    {
      assert forall n :: n in nodes ==> n in Members(nodes);
      JoinedDistinct(free, nodes, |free|);
      assert free[..|free|] + nodes + free[|free|..] == free + nodes;
    }

    // ----- Walking -----

    /** `distance` steps from the node at position `start` towards position `idx`. */
    method Walk(from: ListNode<T>, start: nat, idx: nat, distance: nat) returns (cur: ListNode<T>)
      requires Valid() && start < |nodes| && nodes[start] == from && idx < |nodes|
      requires distance == if idx > start then idx - start else start - idx
      ensures cur == nodes[idx]
    {
      cur := from;
      var left := distance;
      if start < idx {
        while left != 0
          invariant 0 <= left <= idx - start && cur == nodes[idx - left]
        {
          assert Sits(nodes, links, idx - left);
          cur := cur.next;
          left := left - 1;
        }
      } else {
        while left != 0
          invariant 0 <= left <= start - idx && cur == nodes[idx + left]
        {
          assert Sits(nodes, links, idx + left);
          cur := cur.prev;
          left := left - 1;
        }
      }
    }
  }
}
