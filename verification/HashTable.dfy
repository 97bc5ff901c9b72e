/** An open-addressing table as a value: which keys its slots hold, and why probing finds them. */
module HashTable {
  import opened MathBits

  /** A slot. The source keeps a state byte, a hash that is 0 unless the slot is occupied, and raw
      storage that holds a pair only when the slot is occupied. */
  datatype Entry<+K, +V> = Empty | Occupied(hash: nat, key: K, value: V) | Erased

  type Table<K, V> = seq<Entry<K, V>>

  // ----- Probe sequences -----

  ghost function Home(hash: nat, n: nat): (home: nat)
    requires n > 0
    ensures home < n
  {
    hash % n
  }

  ghost predicate HoldsKey<K, V>(e: Entry<K, V>, key: K) { e.Occupied? && e.key == key }

  /** No empty slot lies between the home of a hash value and the slot reached in `steps` steps. */
  ghost predicate Reachable<K, V>(t: Table<K, V>, home: nat, steps: nat)
    requires home < |t| && steps <= |t|
  {
    forall j: nat :: j < steps ==> !t[Place(home, j, |t|)].Empty?
  }

  /** Only occupied slots lie between a home and the slot reached in `steps` steps. */
  ghost predicate Crowded<K, V>(t: Table<K, V>, home: nat, steps: nat)
    requires home < |t| && steps <= |t|
  {
    forall j: nat :: j < steps ==> t[Place(home, j, |t|)].Occupied?
  }

  ghost predicate Placed<K, V>(t: Table<K, V>, h: K -> nat, i: nat)
    requires i < |t| && t[i].Occupied?
  {
    t[i].hash == h(t[i].key) && Reachable(t, Home(t[i].hash, |t|), Offset(Home(t[i].hash, |t|), i, |t|))
  }

  /** Every occupied slot can be found from the home of its key, and no key occupies two slots. */
  ghost predicate Probeable<K, V>(t: Table<K, V>, h: K -> nat) {
    && (forall i: nat :: i < |t| && t[i].Occupied? ==> Placed(t, h, i))
    && (forall i: nat, j: nat :: i < |t| && j < |t| && t[i].Occupied? && t[j].Occupied? && t[i].key == t[j].key ==> i == j)
  }

  /** The pairs in the occupied slots are exactly those of the map. */
  ghost predicate Contents<K, V>(t: Table<K, V>, m: map<K, V>) {
    && (forall i: nat :: i < |t| && t[i].Occupied? ==> t[i].key in m && m[t[i].key] == t[i].value)
    && (forall k :: k in m ==> exists i: nat :: i < |t| && HoldsKey(t[i], k))
  }

  // ----- Counting -----

  ghost function CountOccupied<K, V>(t: Table<K, V>): nat {
    if t == [] then 0 else CountOccupied(t[..|t| - 1]) + (if t[|t| - 1].Occupied? then 1 else 0)
  }

  ghost function CountErased<K, V>(t: Table<K, V>): nat {
    if t == [] then 0 else CountErased(t[..|t| - 1]) + (if t[|t| - 1].Erased? then 1 else 0)
  }

  lemma {:induction false} CountUpdate<K, V>(t: Table<K, V>, i: nat, e: Entry<K, V>)
    requires i < |t|
    ensures CountOccupied(t[i := e]) == CountOccupied(t) - (if t[i].Occupied? then 1 else 0) + (if e.Occupied? then 1 else 0)
    ensures CountErased(t[i := e]) == CountErased(t) - (if t[i].Erased? then 1 else 0) + (if e.Erased? then 1 else 0)
  {
    if i < |t| - 1 {
      CountUpdate(t[..|t| - 1], i, e);
      assert t[i := e][..|t| - 1] == t[..|t| - 1][i := e];
    } else {
      assert t[i := e][..|t| - 1] == t[..|t| - 1];
    }
  }

  /** A table that its occupied and erased slots do not fill has an empty slot. */
  lemma {:induction false} EmptySlot<K, V>(t: Table<K, V>)
    ensures CountOccupied(t) + CountErased(t) <= |t|
    ensures CountOccupied(t) + CountErased(t) < |t| ==> exists i: nat :: i < |t| && t[i].Empty?
  {
    if t != [] {
      EmptySlot(t[..|t| - 1]);
      if CountOccupied(t) + CountErased(t) < |t| && !t[|t| - 1].Empty? {
        var i: nat :| i < |t| - 1 && t[..|t| - 1][i].Empty?;
        assert t[i].Empty?;
      }
    }
  }

  lemma {:induction false} EmptyCounts<K, V>(t: Table<K, V>, i: nat)
    requires i < |t| && t[i].Empty?
    ensures CountOccupied(t) + CountErased(t) < |t|
  {
    EmptySlot(t[..|t| - 1]);
    if i < |t| - 1 { EmptyCounts(t[..|t| - 1], i); }
  }

  lemma {:induction false} AllEmptyCounts<K, V>(t: Table<K, V>)
    requires forall i: nat :: i < |t| ==> t[i].Empty?
    ensures CountOccupied(t) == 0 && CountErased(t) == 0
  {
    if t != [] { AllEmptyCounts(t[..|t| - 1]); }
  }

  lemma {:induction false} NotFull<K, V>(t: Table<K, V>, i: nat)
    requires i < |t| && !t[i].Occupied?
    ensures CountOccupied(t) < |t|
  {
    EmptySlot(t[..|t| - 1]);
    if i < |t| - 1 { NotFull(t[..|t| - 1], i); }
  }

  lemma {:induction false} OccupiedCounts<K, V>(t: Table<K, V>)
    requires forall i: nat :: i < |t| ==> t[i].Occupied?
    ensures CountOccupied(t) == |t|
  {
    if t != [] { OccupiedCounts(t[..|t| - 1]); }
  }

  /** A full round of the probe sequence visits every slot. */
  lemma AllOccupied<K, V>(t: Table<K, V>, home: nat)
    requires home < |t| && forall j: nat :: j < |t| ==> t[Place(home, j, |t|)].Occupied?
    ensures CountOccupied(t) == |t|
  {
    forall i: nat | i < |t|
      ensures t[i].Occupied?
    {
      assert t[Place(home, Offset(home, i, |t|), |t|)].Occupied?;
    }
    OccupiedCounts(t);
  }

  // ----- Looking up -----

  /** What a lookup knows after `p` probes: the key is in none of the slots it has passed. */
  ghost predicate Missed<K, V>(t: Table<K, V>, home: nat, p: nat, key: K)
    requires home < |t| && p <= |t|
  {
    forall j: nat :: j < p ==> !t[Place(home, j, |t|)].Empty? && !HoldsKey(t[Place(home, j, |t|)], key)
  }

  lemma FoundInMap<K, V>(t: Table<K, V>, m: map<K, V>, i: nat)
    requires Contents(t, m) && i < |t| && t[i].Occupied?
    ensures t[i].key in m && m[t[i].key] == t[i].value
  {
  }

  /** An empty slot on the probe path, or a full round, proves the key absent. */
  lemma NotInMap<K, V>(t: Table<K, V>, h: K -> nat, m: map<K, V>, key: K, p: nat)
    requires |t| > 0 && p <= |t| && Probeable(t, h) && Contents(t, m)
    requires Missed(t, Home(h(key), |t|), p, key)
    requires p == |t| || t[Place(Home(h(key), |t|), p, |t|)].Empty?
    ensures key !in m
  {
  }

  // ----- Storing -----

  lemma ReachableStored<K, V>(t: Table<K, V>, t': Table<K, V>, home: nat, steps: nat)
    requires |t| == |t'| && home < |t| && steps <= |t| && Reachable(t, home, steps)
    requires forall i: nat :: i < |t| && !t[i].Empty? ==> !t'[i].Empty?
    ensures Reachable(t', home, steps)
  {
  }

  /** A new key goes into a free slot that its probe path reaches. */
  lemma Stored<K, V>(t: Table<K, V>, h: K -> nat, m: map<K, V>, i: nat, key: K, value: V)
    requires |t| > 0 && Probeable(t, h) && Contents(t, m) && key !in m
    requires i < |t| && !t[i].Occupied?
    requires Reachable(t, Home(h(key), |t|), Offset(Home(h(key), |t|), i, |t|))
    ensures var t' := t[i := Occupied(h(key), key, value)];
      Probeable(t', h) && Contents(t', m[key := value])
  {
    var t' := t[i := Occupied(h(key), key, value)];
    forall j: nat | j < |t'| && t'[j].Occupied?
      ensures Placed(t', h, j)
    {
      var home := Home(t'[j].hash, |t|);
      if j != i { assert Placed(t, h, j); }
      ReachableStored(t, t', home, Offset(home, j, |t|));
    }
    StoredContents(t, m, i, Occupied(h(key), key, value));
  }

  lemma StoredContents<K, V>(t: Table<K, V>, m: map<K, V>, i: nat, e: Entry<K, V>)
    requires Contents(t, m) && e.Occupied? && e.key !in m && i < |t| && !t[i].Occupied?
    ensures Contents(t[i := e], m[e.key := e.value])
  {
    var t', m' := t[i := e], m[e.key := e.value];
    forall k | k in m'
      ensures exists j: nat :: j < |t'| && HoldsKey(t'[j], k)
    {
      if k == e.key {
        assert HoldsKey(t'[i], k);
      } else {
        var j: nat :| j < |t| && HoldsKey(t[j], k);
        assert HoldsKey(t'[j], k);
      }
    }
  }

  /** A new value for a key that is present. */
  lemma Overwritten<K, V>(t: Table<K, V>, h: K -> nat, m: map<K, V>, i: nat, value: V)
    requires Probeable(t, h) && Contents(t, m) && i < |t| && t[i].Occupied?
    ensures var t' := t[i := t[i].(value := value)];
      Probeable(t', h) && Contents(t', m[t[i].key := value])
  {
    var t' := t[i := t[i].(value := value)];
    forall j: nat | j < |t'| && t'[j].Occupied?
      ensures Placed(t', h, j)
    {
      assert Placed(t, h, j);
      var home := Home(t'[j].hash, |t|);
      ReachableStored(t, t', home, Offset(home, j, |t|));
    }
    var m' := m[t[i].key := value];
    forall k | k in m'
      ensures exists j: nat :: j < |t'| && HoldsKey(t'[j], k)
    {
      var j: nat :| j < |t| && HoldsKey(t[j], k);
      assert HoldsKey(t'[j], k);
    }
  }

  /** Erasing leaves a tombstone, so every other key stays reachable. */
  lemma Buried<K, V>(t: Table<K, V>, h: K -> nat, m: map<K, V>, i: nat)
    requires Probeable(t, h) && Contents(t, m) && i < |t| && t[i].Occupied?
    ensures Probeable(t[i := Erased], h) && Contents(t[i := Erased], m - {t[i].key})
  {
    var t' := t[i := Erased];
    forall j: nat | j < |t'| && t'[j].Occupied?
      ensures Placed(t', h, j)
    {
      assert Placed(t, h, j);
      var home := Home(t'[j].hash, |t|);
      ReachableStored(t, t', home, Offset(home, j, |t|));
    }
    forall k | k in m - {t[i].key}
      ensures exists j: nat :: j < |t'| && HoldsKey(t'[j], k)
    {
      var j: nat :| j < |t| && HoldsKey(t[j], k);
      assert HoldsKey(t'[j], k);
    }
  }

  /** Emptying an occupied slot instead would lose every key whose probe path crosses it. */
  lemma EmptyingLoses<K, V>(t: Table<K, V>, h: K -> nat, i: nat, k: nat)
    requires Probeable(t, h) && i < |t| && k < |t| && t[k].Occupied? && i != k && !t[i].Empty?
    requires Offset(Home(t[k].hash, |t|), i, |t|) < Offset(Home(t[k].hash, |t|), k, |t|)
    ensures !Placed(t[i := Empty], h, k)
  {
    var home := Home(t[k].hash, |t|);
    assert t[i := Empty][Place(home, Offset(home, i, |t|), |t|)].Empty?;
  }

  // ----- The pairs of a prefix, for rehashing -----

  ghost function Pairs<K, V>(t: Table<K, V>): map<K, V> {
    if t == [] then map[]
    else
      var e := t[|t| - 1];
      if e.Occupied? then Pairs(t[..|t| - 1])[e.key := e.value] else Pairs(t[..|t| - 1])
  }

  ghost predicate KeyOnce<K, V>(t: Table<K, V>) {
    forall i: nat, j: nat :: i < |t| && j < |t| && t[i].Occupied? && t[j].Occupied? && t[i].key == t[j].key ==> i == j
  }

  lemma {:induction false} PairsContents<K, V>(t: Table<K, V>)
    requires KeyOnce(t)
    ensures Contents(t, Pairs(t))
    ensures |Pairs(t)| == CountOccupied(t)
  {
    if t != [] {
      var r, e := t[..|t| - 1], t[|t| - 1];
      PairsContents(r);
      ContentsLast(t, Pairs(r));
      if e.Occupied? { assert e.key !in Pairs(r); }
    }
  }

  lemma ContentsLast<K, V>(t: Table<K, V>, m: map<K, V>)
    requires t != [] && KeyOnce(t) && Contents(t[..|t| - 1], m)
    ensures Contents(t, if t[|t| - 1].Occupied? then m[t[|t| - 1].key := t[|t| - 1].value] else m)
    ensures t[|t| - 1].Occupied? ==> t[|t| - 1].key !in m
  {
    var r, e := t[..|t| - 1], t[|t| - 1];
    var m' := if e.Occupied? then m[e.key := e.value] else m;
    forall k | k in m'
      ensures exists i: nat :: i < |t| && HoldsKey(t[i], k)
    {
      if k in m {
        var i: nat :| i < |r| && HoldsKey(r[i], k);
        assert HoldsKey(t[i], k);
      } else {
        assert HoldsKey(t[|t| - 1], k);
      }
    }
  }

  lemma ContentsUnique<K, V>(t: Table<K, V>, m: map<K, V>, m': map<K, V>)
    requires Contents(t, m) && Contents(t, m')
    ensures m == m'
  {
    forall k
      ensures k in m <==> k in m'
      ensures k in m ==> m[k] == m'[k]
    {
      if k in m { var i: nat :| i < |t| && HoldsKey(t[i], k); }
      if k in m' { var i: nat :| i < |t| && HoldsKey(t[i], k); }
    }
  }
}
