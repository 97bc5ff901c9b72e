/** The hash map: linear probing with tombstones over a power-of-two array of slots. */
module PooledHashMap {
  import opened Floats
  import opened HashTable
  import opened MathBits
  import opened Wrappers
  import B = BlockMemPool

  /** `0.1f` */
  const LEAST_LOAD := 13421773.0 / 134217728.0

  /** It is the float nearest to a tenth: floats there have 24 bits and lie 2^-27 apart. */
  lemma LeastLoadIsTenth(m: int)
    ensures 0x80_0000 <= 13421773 < 0x100_0000 && 134217728 == Pow2(27)
    ensures var d, e := LEAST_LOAD - 0.1, m as real / 134217728.0 - 0.1;
      (if d < 0.0 then -d else d) <= (if e < 0.0 then -e else e)
  {
    assert Pow2(9) == 512;
    assert Pow2(18) == 512 * 512;
    assert m <= 13421772 ==> m as real <= 13421772.0;
  }

  /** `hash & (n - 1)` is the home slot. */
  lemma MaskIsHome(hash: nat, n: nat)
    requires IsPow2(n)
    ensures n > 0 && And(hash, n - 1) == Home(hash, n)
  {
    var k: nat :| n == Pow2(k);
    MaskIsRemainder(hash, k);
  }

  /** `(index + 1) & (n - 1)` is the next slot of the probe sequence. */
  lemma MaskIsNext(home: nat, p: nat, n: nat)
    requires IsPow2(n) && home < n && p < n
    ensures And(Place(home, p, n) + 1, n - 1) == Place(home, p + 1, n)
  {
    var i := Place(home, p, n);
    MaskIsHome(i + 1, n);
    if i + 1 == n { Remainder(n, n, 1, 0); } else { Remainder(i + 1, n, 0, i + 1); }
  }

  class PooledHashMap<K(==), V> {
    const hasher: K -> nat
    /** The bytes of a slot, which holds at least a hash. */
    const entrySize: nat
    const layout: B.Layout
    /** The division of floats. */
    const divide: (real, real) -> real
    var entries: array<Entry<K, V>>
    var size_: nat
    var erasedCount: nat
    var maxLoadFactor: real
    ghost var Model: map<K, V>

    /** The slots hold exactly the pairs of `m`, each where probing finds it, and are counted. */
    ghost predicate Holds(m: map<K, V>)
      reads this, entries
    {
      && IsPow2(entries.Length) && Probeable(entries[..], hasher) && Contents(entries[..], m)
      && size_ == CountOccupied(entries[..]) == |m| && erasedCount == CountErased(entries[..])
    }

    /** A table without slots, which only the rounding of a huge count makes, holds nothing. */
    ghost predicate Tabled(m: map<K, V>)
      reads this, entries
    {
      if entries.Length == 0 then size_ == erasedCount == 0 && m == map[]
      else entries.Length >= 8 && BytesFit(entrySize, entries.Length) && Holds(m)
    }

    ghost predicate Valid()
      reads this, entries
    {
      maxLoadFactor >= LEAST_LOAD && Sized(entrySize, layout) && FloatDivision(divide) && Tabled(Model)
    }

    constructor (hasher: K -> nat, entrySize: nat, layout: B.Layout, divide: (real, real) -> real, bucketCount: nat)
      requires Sized(entrySize, layout) && FloatDivision(divide) && bucketCount < WORD_LIMIT
      ensures fresh(entries) && entries.Length == Buckets(bucketCount)
      ensures Valid() <==> BytesFit(entrySize, Buckets(bucketCount))
      ensures Model == map[] && maxLoadFactor == 0.75 && (Valid() ==> size_ == 0 && erasedCount == 0)
      ensures this.hasher == hasher && this.entrySize == entrySize && this.layout == layout && this.divide == divide
    {
      this.hasher, this.entrySize, this.layout, this.divide := hasher, entrySize, layout, divide;
      entries := new Entry<K, V>[0];
      size_, erasedCount, maxLoadFactor := 0, 0, 0.75;
      Model := map[];
      new;
      hide Buckets, BytesFit, NextPow2, FloatDivision;
      var ok := Rehash(bucketCount);
    }

    // ----- Probing -----

    /** The slot of a key that is present, and the bucket count otherwise. */
    method FindExistingIndex(key: K) returns (index: nat)
      requires Valid()
      ensures index <= entries.Length
      ensures index < entries.Length <==> key in Model
      ensures index < entries.Length ==> HoldsKey(entries[index], key) && entries[index].value == Model[key]
    {
      if entries.Length == 0 { return 0; }
      var n := entries.Length;
      var hashValue := hasher(key);
      MaskIsHome(hashValue, n);
      index := And(hashValue, n - 1);
      ghost var home := Home(hashValue, n);
      for probe := 0 to n
        invariant index == Place(home, probe, n) && Missed(entries[..], home, probe, key)
      {
        if entries[index].Empty? {
          NotInMap(entries[..], hasher, Model, key, probe);
          return n;
        }
        if entries[index].Occupied? && entries[index].hash == hashValue && entries[index].key == key {
          return;
        }
        assert entries[..][index] == entries[index];
        assert entries[index].Occupied? ==> Placed(entries[..], hasher, index);
        MaskIsNext(home, probe, n);
        index := And(index + 1, n - 1);
      }
      NotInMap(entries[..], hasher, Model, key, n);
      return n;
    }

    /** The slot of the key, or else the first free slot on its probe path; the bucket count if there is none. */
    method FindSlotForInsert(key: K, hashValue: nat, ghost m: map<K, V>) returns (index: nat)
      requires Holds(m) && hashValue == hasher(key)
      ensures index <= entries.Length
      ensures index == entries.Length <==> key !in m && size_ == entries.Length
      ensures index < entries.Length ==>
        if key in m then HoldsKey(entries[index], key) && entries[index].value == m[key]
        else !entries[index].Occupied?
             && Reachable(entries[..], Home(hashValue, entries.Length), Offset(Home(hashValue, entries.Length), index, entries.Length))
             && Crowded(entries[..], Home(hashValue, entries.Length), Offset(Home(hashValue, entries.Length), index, entries.Length))
    {
      hide Probeable, Contents, IsPow2, CountErased;
      var n := entries.Length;
      MaskIsHome(hashValue, n);
      index := And(hashValue, n - 1);
      ghost var home := Home(hashValue, n);
      var firstErased: nat := n;
      ghost var t := entries[..];
      for probe := 0 to n
        invariant index == Place(home, probe, n) && Missed(t, home, probe, key)
        invariant firstErased <= n
        invariant firstErased < n ==> t[firstErased].Erased? && Offset(home, firstErased, n) < probe
        invariant firstErased < n ==> Crowded(t, home, Offset(home, firstErased, n))
        invariant firstErased == n ==> forall j: nat :: j < probe ==> t[Place(home, j, n)].Occupied?
      {
        if entries[index].Empty? {
          NotInMap(t, hasher, m, key, probe);
          if firstErased < n { index := firstErased; }
          NotFull(t, index);
          return;
        }
        if entries[index].Erased? {
          if firstErased == n { firstErased := index; }
        } else if entries[index].hash == hashValue && entries[index].key == key {
          FoundInMap(t, m, index);
          return;
        }
        HashKept(t, hasher, index);
        MaskIsNext(home, probe, n);
        index := And(index + 1, n - 1);
      }
      NotInMap(t, hasher, m, key, n);
      index := firstErased;
      if firstErased < n { NotFull(t, index); } else { AllOccupied(t, home); }
    }
  
    // ----- Growing -----

    /** The storage of `n` slots. The product of the sizes wraps around, and past half the word size the pool hands
        out a block that is too small. */
    method AllocateEntries(n: nat) returns (newEntries: array<Entry<K, V>>, fits: bool)
      requires Sized(entrySize, layout) && n < WORD_LIMIT
      ensures fresh(newEntries) && newEntries.Length == n && forall i: nat :: i < n ==> newEntries[i].Empty?
      ensures fits <==> BytesFit(entrySize, n)
    {
      hide LeastPow2;
      var block := B.BlockFor(entrySize * n, layout);
      fits := block >= entrySize * n;
      newEntries := new Entry<K, V>[n](_ => Empty);
    }

    /** All pairs move into a new array; tombstones disappear and every hash is placed anew. It goes wrong exactly when
        the block is too small, or when there are more pairs than slots, and the source writes through a null pointer. */
    method Rehash(count: nat) returns (ok: bool)
      requires Valid() && count < WORD_LIMIT
      modifies this`entries, this`size_, this`erasedCount
      ensures ok <==> old(size_) <= Buckets(count) && BytesFit(entrySize, Buckets(count))
      ensures ok <==> Valid()
      ensures fresh(entries) && entries.Length == Buckets(count)
      ensures ok ==> erasedCount == 0 && size_ == old(size_)
    {
      hide Valid, Tabled, LeastPow2, Probeable, Contents, Buckets, BytesFit;
      var newBucketCount := RoundUpPowerOfTwo(Max(count, 8));
      BucketsRounded(newBucketCount, count);
      OldTable();
      var newEntries, fits := AllocateEntries(newBucketCount);
      var oldEntries := entries;
      entries := newEntries;
      size_, erasedCount := 0, 0;
      NewTable(fits);
      ok := fits;
      if ok { ok := MovePairs(oldEntries); }
      MovedTable(oldEntries[..], ok);
    }

    lemma OldTable()
      requires Valid()
      ensures maxLoadFactor >= LEAST_LOAD && Sized(entrySize, layout) && FloatDivision(divide)
      ensures Probeable(entries[..], hasher) && size_ == CountOccupied(entries[..]) == |Model| && Pairs(entries[..]) == Model
    {
      if entries.Length == 0 { assert entries[..] == []; }
      AllPairs(entries[..], hasher, Model);
    }

    lemma NewTable(fits: bool)
      requires fits <==> BytesFit(entrySize, entries.Length)
      requires entries.Length == 0 || (entries.Length >= 8 && IsPow2(entries.Length))
      requires size_ == 0 && erasedCount == 0 && forall i: nat :: i < entries.Length ==> entries[i].Empty?
      ensures Tabled(map[]) <==> fits
    {
      NothingStored(entries[..], hasher);
    }

    lemma MovedTable(t: Table<K, V>, ok: bool)
      requires maxLoadFactor >= LEAST_LOAD && Sized(entrySize, layout) && FloatDivision(divide)
      requires Pairs(t) == Model && CountOccupied(t) == |Model|
      requires ok ==> Tabled(Pairs(t))
      requires !ok ==> !BytesFit(entrySize, entries.Length) || (size_ == entries.Length && |Model| > entries.Length)
      ensures ok <==> Valid()
    {
      NoBytes(entrySize);
    }

    /** All pairs of the old table move in; this fails exactly when there are more of them than slots. */
    method MovePairs(oldEntries: array<Entry<K, V>>) returns (ok: bool)
      requires oldEntries != entries && Tabled(map[]) && size_ == 0 && erasedCount == 0 && Probeable(oldEntries[..], hasher)
      modifies this`size_, entries
      ensures ok <==> CountOccupied(oldEntries[..]) <= entries.Length
      ensures ok ==> Tabled(Pairs(oldEntries[..])) && size_ == CountOccupied(oldEntries[..])
      ensures !ok ==> size_ == entries.Length
    {
      hide Tabled, Probeable;
      ghost var t := oldEntries[..];
      PairsNothing(t);
      for i := 0 to oldEntries.Length
        invariant oldEntries[..] == t && Tabled(Pairs(t[..i])) && size_ == CountOccupied(t[..i])
      {
        RehashStep(t, hasher, i);
        if oldEntries[i].Occupied? {
          ok := InsertRehashedValue(oldEntries[i].key, oldEntries[i].value, oldEntries[i].hash, Pairs(t[..i]));
          if !ok { return; }
        }
      }
      assert t[..oldEntries.Length] == t;
      CountedAtMost(Pairs(t));
      ok := true;
    }

    lemma CountedAtMost(m: map<K, V>)
      requires Tabled(m)
      ensures size_ <= entries.Length
    {
      EmptySlot(entries[..]);
    }

    /** `reserve`: a table with as many slots as required stays as it is, and any other gets as many as the rounding makes
        of them. Afterwards it does not grow before `count` slots are in use. The conversion of a quotient that is no word
        is not defined. */
    method Reserve(count: nat) returns (ok: bool)
      requires Valid()
      modifies this`entries, this`size_, this`erasedCount
      ensures ok <==> (var required := Required(count, maxLoadFactor, divide);
        required < WORD_LIMIT && (required <= old(entries.Length) ||
          (old(size_) <= Buckets(required) && BytesFit(entrySize, Buckets(required)))))
      ensures (entries == old(entries) || fresh(entries)) && (ok ==> Valid() && size_ == old(size_))
      ensures Required(count, maxLoadFactor, divide) <= old(entries.Length) ==>
        entries == old(entries) && size_ == old(size_) && erasedCount == old(erasedCount)
      ensures ok && Required(count, maxLoadFactor, divide) > old(entries.Length) ==>
        fresh(entries) && entries.Length == Buckets(Required(count, maxLoadFactor, divide)) && erasedCount == 0
      ensures ok && Required(count, maxLoadFactor, divide) <= WORD_LIMIT / 2 ==> entries.Length >= old(entries.Length)
      ensures ok && entries.Length > 0 ==> Reserved(LoadOf(this), count)
      ensures ok && entries.Length > old(entries.Length) ==> JustEnough(count, entries.Length, maxLoadFactor)
    {
      hide Probeable, Contents, Buckets, BytesFit, Rounded, CountOccupied, CountErased, FloatDivision, Reserved, JustEnough;
      LimitPositive();
      var quotient := divide(Rounded(count) as real, maxLoadFactor);
      RequiredIs(count, maxLoadFactor, divide);
      if quotient.Floor + 1 >= WORD_LIMIT { return false; }
      var required := quotient.Floor + 1;
      ok := true;
      if required > entries.Length {
        BucketsAtLeast(required);
        ok := Rehash(required);
        if ok { NotMuchMore(count, maxLoadFactor, divide); }
      }
      if ok && entries.Length > 0 { NoGrowth(count, LoadOf(this), divide); }
    }

    lemma LimitPositive()
      requires Valid()
      ensures maxLoadFactor > 0.0 && FloatDivision(divide) && (entries.Length == 0 || IsPow2(entries.Length))
    {
    }

    /** It fails exactly in a table that is full. */
    method InsertRehashedValue(key: K, value: V, hashValue: nat, ghost m: map<K, V>) returns (stored: bool)
      requires Tabled(m) && hashValue == hasher(key) && key !in m && erasedCount == 0
      modifies this`size_, entries
      ensures stored <==> old(size_) < entries.Length
      ensures stored ==> Tabled(m[key := value]) && size_ == old(size_) + 1
      ensures !stored ==> size_ == old(size_) == entries.Length
    {
      if entries.Length == 0 { return false; }
      var index := FindSlotForInsert(key, hashValue, m);
      OccupiedAtMost(entries[..]);
      if index == entries.Length { return false; }
      StoredAt(entries[..], hasher, m, index, key, value);
      NoErased(entries[..], index);
      ConstructEntry(index, hashValue, key, value);
      size_ := size_ + 1;
      stored := true;
    }

    method ConstructEntry(index: nat, hashValue: nat, key: K, value: V)
      requires index < entries.Length
      modifies entries
      ensures entries[..] == old(entries[..])[index := Occupied(hashValue, key, value)]
    {
      entries[index] := Occupied(hashValue, key, value);
    }

    /** Afterwards a slot is empty, unless every slot is used and one more pair does not overload the table. */
    method EnsureCapacityForInsert() returns (ok: bool)
      requires Valid()
      modifies this`entries, this`size_, this`erasedCount
      ensures ok <==> BytesFit(entrySize, Target(old(size_ + erasedCount), old(entries.Length), maxLoadFactor))
      ensures ok <==> Valid()
      ensures entries == old(entries) || fresh(entries)
      ensures entries.Length == Target(old(size_ + erasedCount), old(entries.Length), maxLoadFactor)
      ensures ok ==> size_ == old(size_) && erasedCount <= old(erasedCount)
      ensures ok ==> (Stuck(old(size_ + erasedCount), old(entries.Length), maxLoadFactor) <==> size_ + erasedCount == entries.Length)
      ensures ok ==> (size_ + erasedCount < entries.Length <==> exists i: nat :: i < entries.Length && entries[i].Empty?)
    {
      hide IsPow2, Buckets, Probeable, Contents, CountOccupied, CountErased, Overloaded, BytesFit;
      Bounded();
      LeastTable(entrySize, layout);
      ok := true;
      if entries.Length == 0 {
        ok := Rehash(8);
      } else if Overloaded(size_ + erasedCount + 1, entries.Length, maxLoadFactor) {
        DoubledTable(entries.Length, entrySize);
        ok := Rehash(entries.Length * 2);
      }
      if ok {
        Bounded();
        RoomLeft();
      }
    }

    lemma SizeOfModel()
      requires Valid()
      ensures size_ == |Model|
    {
    }

    lemma Bounded()
      requires Valid()
      ensures size_ + erasedCount <= entries.Length
    {
      EmptySlot(entries[..]);
    }

    lemma RoomLeft()
      requires Valid()
      ensures size_ + erasedCount < entries.Length <==> exists i: nat :: i < entries.Length && entries[i].Empty?
    {
      EmptySlot(entries[..]);
      if size_ + erasedCount < entries.Length {
        var i: nat :| i < |entries[..]| && entries[..][i].Empty?;
        assert entries[i].Empty?;
      }
      if i: nat :| i < entries.Length && entries[i].Empty? { EmptyCounts(entries[..], i); }
    }

    // ----- Inserting, erasing, clearing -----

    /** The table can take the key: its block can grow if it must, and the key is there or finds a slot. */
    ghost predicate CanInsert(key: K)
      reads this
    {
      && BytesFit(entrySize, Target(size_ + erasedCount, entries.Length, maxLoadFactor))
      && (key in Model || !Stuck(size_, entries.Length, maxLoadFactor))
    }

    /** `try_emplace` and `insert_value`: an existing pair is left alone. In a table full of other keys that is not
        grown the source dereferences a null pointer. */
    method InsertValue(key: K, value: V) returns (index: nat, inserted: bool, ok: bool)
      requires Valid()
      modifies this, entries
      ensures ok <==> old(CanInsert(key))
      ensures (entries == old(entries) || fresh(entries)) && maxLoadFactor == old(maxLoadFactor)
      ensures entries.Length == Target(old(size_ + erasedCount), old(entries.Length), maxLoadFactor)
      ensures ok ==> Valid() && (inserted <==> key !in old(Model))
      ensures ok ==> Model == if key in old(Model) then old(Model) else old(Model)[key := value]
      ensures ok ==> index < entries.Length && HoldsKey(entries[index], key) && entries[index].value == Model[key]
      ensures ok ==> erasedCount <= old(erasedCount) && size_ + erasedCount <= old(size_ + erasedCount) + 1
      ensures !ok && BytesFit(entrySize, entries.Length) ==> Valid() && Model == old(Model) && entries.Length == old(entries.Length)
    {
      hide IsPow2, Probeable, Contents, CountOccupied, CountErased, Overloaded, BytesFit;
      Bounded();
      SizeOfModel();
      ok := EnsureCapacityForInsert();
      if !ok { return 0, false, false; }
      HoldsModel();
      var hashValue := hasher(key);
      index := FindSlotForInsert(key, hashValue, Model);
      if index == entries.Length { return index, false, false; }
      if entries[index].Occupied? { return index, false, true; }
      StoreNew(index, hashValue, key, value);
      inserted := true;
    }

    /** A table that can double takes any key while its load limit is below 1. */
    lemma RoomForOne(key: K)
      requires Valid() && maxLoadFactor < 1.0 && BytesFit(entrySize, 2 * entries.Length)
      ensures CanInsert(key)
    {
      LeastTable(entrySize, layout);
      hide Overloaded, Buckets;
      NeverStuck(size_, entries.Length, maxLoadFactor);
    }

    lemma PairsAtMost()
      requires Valid()
      ensures |Model| <= entries.Length && Sized(entrySize, layout) && FloatDivision(divide)
    {
      Bounded();
    }

    lemma HoldsModel()
      requires Valid()
      ensures entries.Length > 0 ==> Holds(Model)
    {
    }

    /** A new pair goes into a free slot, which may be a tombstone. */
    method StoreNew(index: nat, hashValue: nat, key: K, value: V)
      requires Valid() && key !in Model && hashValue == hasher(key) && index < entries.Length && !entries[index].Occupied?
      requires Reachable(entries[..], Home(hashValue, entries.Length), Offset(Home(hashValue, entries.Length), index, entries.Length))
      modifies this`size_, this`erasedCount, this`Model, entries
      ensures Valid() && Model == old(Model)[key := value] && erasedCount <= old(erasedCount) && size_ == old(size_) + 1
      ensures HoldsKey(entries[index], key) && entries[index].value == value
    {
      hide IsPow2, Probeable, Contents, CountErased, CountOccupied, Reachable;
      var reusingErased := entries[index].Erased?;
      StoredAt(entries[..], hasher, Model, index, key, value);
      ConstructEntry(index, hashValue, key, value);
      size_ := size_ + 1;
      if reusingErased && erasedCount > 0 {
        erasedCount := erasedCount - 1;
      }
      Model := Model[key := value];
    }

    /** `map[key] = value` */
    method Put(key: K, value: V) returns (ok: bool)
      requires Valid()
      modifies this, entries
      ensures ok <==> old(CanInsert(key))
      ensures (entries == old(entries) || fresh(entries)) && maxLoadFactor == old(maxLoadFactor)
      ensures entries.Length == Target(old(size_ + erasedCount), old(entries.Length), maxLoadFactor)
      ensures ok ==> Valid() && Model == old(Model)[key := value]
      ensures ok ==> erasedCount <= old(erasedCount) && size_ + erasedCount <= old(size_ + erasedCount) + 1
      ensures !ok && BytesFit(entrySize, entries.Length) ==> Valid() && Model == old(Model) && entries.Length == old(entries.Length)
    {
      hide *;
      var index, inserted;
      index, inserted, ok := InsertValue(key, value);
      if ok { Overwrite(index, key, value); }
    }

    /** An assignment through the reference to the value in slot `index`. */
    method Overwrite(index: nat, key: K, value: V)
      requires Valid() && index < entries.Length && HoldsKey(entries[index], key)
      modifies this`Model, entries
      ensures Valid() && Model == old(Model)[key := value]
    {
      OverwrittenAt(entries[..], hasher, Model, index, value);
      entries[index] := entries[index].(value := value);
      Model := Model[key := value];
    }

    method Erase(key: K) returns (count: nat)
      requires Valid()
      modifies this`size_, this`erasedCount, this`Model, entries
      ensures Valid() && Model == old(Model) - {key} && size_ + erasedCount == old(size_ + erasedCount)
      ensures count == if key in old(Model) then 1 else 0
    {
      hide *;
      var index := FindExistingIndex(key);
      if index == entries.Length {
        assert Model - {key} == Model;
        return 0;
      }
      Bury(index, key);
      count := 1;
    }

    /** The slot becomes a tombstone. */
    method Bury(index: nat, key: K)
      requires Valid() && index < entries.Length && HoldsKey(entries[index], key)
      modifies this`size_, this`erasedCount, this`Model, entries
      ensures Valid() && Model == old(Model) - {key} && size_ + erasedCount == old(size_ + erasedCount)
    {
      hide Probeable, Contents, CountOccupied, CountErased, IsPow2;
      BuriedAt(entries[..], hasher, Model, index);
      entries[index] := Erased;
      size_ := size_ - 1;
      erasedCount := erasedCount + 1;
      Model := Model - {key};
    }

    method Clear()
      requires Valid()
      modifies this`size_, this`erasedCount, this`Model, entries
      ensures Valid() && Model == map[] && size_ == 0 && erasedCount == 0
    {
      for i := 0 to entries.Length
        modifies entries
        invariant forall j :: 0 <= j < i ==> entries[j].Empty?
      {
        entries[i] := Empty;
      }
      size_, erasedCount := 0, 0;
      Model := map[];
      NothingStored(entries[..], hasher);
    }

    method Contains(key: K) returns (b: bool)
      requires Valid()
      ensures b <==> key in Model
    {
      var index := FindExistingIndex(key);
      b := index != entries.Length;
    }

    /** The limit is clamped from below only. */
    method SetMaxLoadFactor(value: real)
      requires Valid()
      modifies this`maxLoadFactor
      ensures Valid() && (value >= LEAST_LOAD ==> maxLoadFactor == value) && (value < LEAST_LOAD ==> maxLoadFactor == LEAST_LOAD)
    {
      maxLoadFactor := if value > LEAST_LOAD then value else LEAST_LOAD;
    }

    // ----- Iterating -----

    /** `skip_to_occupied`: the first occupied slot at or after `from`. */
    method SkipToOccupied(from: nat) returns (index: nat)
      requires from <= entries.Length
      ensures from <= index <= entries.Length
      ensures index < entries.Length ==> entries[index].Occupied?
      ensures forall j :: from <= j < index ==> !entries[j].Occupied?
    {
      index := from;
      while index < entries.Length && !entries[index].Occupied?
        invariant from <= index <= entries.Length
        invariant forall j :: from <= j < index ==> !entries[j].Occupied?
      {
        index := index + 1;
      }
    }

    /** Walking from `begin()` to `end()`, as the copy constructor does: every pair once. */
    method Walk() returns (pairs: seq<(K, V)>)
      requires Valid()
      ensures pairs == Visited(entries[..]) && |pairs| == |Model|
      ensures forall i :: 0 <= i < |pairs| ==> pairs[i].0 in Model && Model[pairs[i].0] == pairs[i].1
      ensures forall i, j :: 0 <= i < j < |pairs| ==> pairs[i].0 != pairs[j].0
    {
      hide Probeable, Contents, CountOccupied, CountErased, IsPow2, Visited;
      pairs := [];
      ghost var t := entries[..];
      VisitedNothing(t);
      var index := SkipToOccupied(0);
      SkippedNothing(t, 0, index);
      while index != entries.Length
        invariant index <= entries.Length && (index < entries.Length ==> entries[index].Occupied?)
        invariant pairs == Visited(t[..index])
        decreases entries.Length - index
      {
        ghost var at := index;
        VisitedNext(t, at);
        pairs := pairs + [(entries[index].key, entries[index].value)];
        index := SkipToOccupied(index + 1);
        SkippedNothing(t, at + 1, index);
      }
      assert t[..index] == t;
      VisitedAll(t, hasher, Model, size_);
    }
  }

  // ----- Runs -----

  datatype Op<+K, +V> =
    | Insert(key: K, value: V)
    | Put(key: K, value: V)
    | Erase(key: K)
    | Clear
    | Find(key: K)
    | Rehash(count: nat)
    | Reserve(count: nat)
    | SetMaxLoadFactor(factor: real)

  datatype Reply<+V> = Done | Inserted(inserted: bool) | Removed(count: nat) | Found(value: Option<V>)

  /** What an operation does to the map; `insert` leaves an existing pair alone. */
  ghost function Apply<K, V>(m: map<K, V>, op: Op<K, V>): map<K, V> {
    match op
    case Insert(k, v) => if k in m then m else m[k := v]
    case Put(k, v) => m[k := v]
    case Erase(k) => m - {k}
    case Clear => map[]
    case _ => m
  }

  ghost function Answer<K, V>(m: map<K, V>, op: Op<K, V>): Reply<V> {
    match op
    case Insert(k, v) => Inserted(k !in m)
    case Erase(k) => Removed(if k in m then 1 else 0)
    case Find(k) => Found(if k in m then Some(m[k]) else None)
    case _ => Done
  }

  ghost function Run<K, V>(ops: seq<Op<K, V>>): map<K, V> {
    if ops == [] then map[] else Apply(Run(ops[..|ops| - 1]), ops[|ops| - 1])
  }

  lemma RunStep<K, V>(ops: seq<Op<K, V>>, i: nat)
    requires i < |ops|
    ensures Run(ops[..i + 1]) == Apply(Run(ops[..i]), ops[i])
  {
    assert ops[..i + 1][..i] == ops[..i];
  }

  /** How full the table is. */
  datatype Load = Load(factor: real, used: nat, slots: nat)

  ghost function LoadOf<K, V>(table: PooledHashMap<K, V>): Load
    reads table
  {
    Load(table.maxLoadFactor, table.size_ + table.erasedCount, table.entries.Length)
  }

  /** What makes an operation go wrong: more pairs than new slots, more bytes than a block can have, or a new key for a
      table full of pairs that is not grown. */
  ghost predicate Halts<K, V>(load: Load, m: map<K, V>, op: Op<K, V>, entrySize: nat, divide: (real, real) -> real) {
    match op
    case Insert(k, _) => !BytesFit(entrySize, Target(load.used, load.slots, load.factor))
                      || (k !in m && Stuck(|m|, load.slots, load.factor))
    case Put(k, _) => !BytesFit(entrySize, Target(load.used, load.slots, load.factor))
                   || (k !in m && Stuck(|m|, load.slots, load.factor))
    case Rehash(count) => |m| > Buckets(count) || !BytesFit(entrySize, Buckets(count))
    case Reserve(count) =>
      var required := Required(count, load.factor, divide);
      required >= WORD_LIMIT || (required > load.slots && (|m| > Buckets(required) || !BytesFit(entrySize, Buckets(required))))
    case _ => false
  }

  /** What an operation that goes well makes of the load. */
  ghost predicate LoadMoves<K, V>(a: Load, op: Op<K, V>, b: Load, divide: (real, real) -> real) {
    && b.factor == (if op.SetMaxLoadFactor? then (if op.factor > LEAST_LOAD then op.factor else LEAST_LOAD) else a.factor)
    && b.used <= a.used + 1
    && b.slots == (if op.Insert? || op.Put? then Target(a.used, a.slots, a.factor)
                   else if op.Rehash? then Buckets(op.count)
                   else if op.Reserve? && Required(op.count, a.factor, divide) > a.slots
                   then Buckets(Required(op.count, a.factor, divide)) else a.slots)
  }

  /** Counts are words. */
  ghost predicate InWords<K, V>(op: Op<K, V>) { op.Rehash? ==> op.count < WORD_LIMIT }

  /** An operation goes well exactly if it does not halt, and then answers as on the map. */
  method Execute<K, V>(table: PooledHashMap<K, V>, op: Op<K, V>) returns (reply: Reply<V>, ok: bool)
    requires table.Valid() && InWords(op)
    modifies table, table.entries
    ensures table.entries == old(table.entries) || fresh(table.entries)
    ensures ok <==> !Halts(old(LoadOf(table)), old(table.Model), op, table.entrySize, table.divide)
    ensures ok ==> table.Valid() && table.Model == Apply(old(table.Model), op) && reply == Answer(old(table.Model), op)
    ensures ok ==> LoadMoves(old(LoadOf(table)), op, LoadOf(table), table.divide)
    ensures !ok ==> Halted(table, old(table.Model), op)
  {
    hide PooledHashMap.Valid, Buckets, BytesFit, Overloaded, Required, Reserved, JustEnough;
    reply, ok := Done, true;
    table.SizeOfModel();
    match op {
      case Insert(k, v) =>
        var index, inserted;
        index, inserted, ok := table.InsertValue(k, v);
        if ok { table.SizeOfModel(); }
        reply := Inserted(inserted);
      case Put(k, v) =>
        ok := table.Put(k, v);
        if ok { table.SizeOfModel(); }
      case Erase(k) =>
        var count := table.Erase(k);
        reply := Removed(count);
      case Clear => table.Clear();
      case Find(k) =>
        var index := table.FindExistingIndex(k);
        reply := Found(if index != table.entries.Length then Some(table.entries[index].value) else None);
      case Rehash(count) => ok := table.Rehash(count);
      case Reserve(count) => ok := table.Reserve(count);
      case SetMaxLoadFactor(factor) => table.SetMaxLoadFactor(factor);
    }
  }

  /** The table as an operation on the map `m` that went wrong has left it. */
  ghost predicate Halted<K, V>(table: PooledHashMap<K, V>, m: map<K, V>, op: Op<K, V>)
    reads table, table.entries
  {
    match op
    case Insert(k, _) => Jammed(table, m, k)
    case Put(k, _) => Jammed(table, m, k)
    case Rehash(count) => |m| > Buckets(count) || !BytesFit(table.entrySize, Buckets(count))
    case Reserve(count) =>
      var required := Required(count, table.maxLoadFactor, table.divide);
      required >= WORD_LIMIT || |m| > Buckets(required) || !BytesFit(table.entrySize, Buckets(required))
    case _ => false
  }

  /** The block is too small, or the table is full of other keys and is not grown for one more. */
  ghost predicate Jammed<K, V>(table: PooledHashMap<K, V>, m: map<K, V>, key: K)
    reads table, table.entries
  {
    || !BytesFit(table.entrySize, table.entries.Length)
    || (table.Valid() && table.Model == m && key !in m && Stuck(|m|, table.entries.Length, table.maxLoadFactor))
  }

  // ----- Runs that cannot go wrong -----

  /** A rehash must leave room for the pairs, and a load limit must be below 1; `limit` bounds the counts asked for. */
  ghost predicate Admissible<K, V>(m: map<K, V>, op: Op<K, V>, limit: nat) {
    && (op.Rehash? ==> op.count <= limit && |m| <= Buckets(op.count))
    && (op.Reserve? ==> op.count <= limit)
    && (op.SetMaxLoadFactor? ==> op.factor < 1.0)
  }

  ghost function SlotBound(n: nat, limit: nat): nat { 16 + 40 * n + 160 * limit }

  /** What `n` admissible operations can have made of the table. */
  ghost predicate Within(load: Load, n: nat, limit: nat) {
    && LEAST_LOAD <= load.factor < 1.0 && load.used <= n && load.slots <= SlotBound(n, limit)
    && (load.slots == 0 || IsPow2(load.slots))
  }

  lemma TargetWithin(a: Load, n: nat, limit: nat)
    requires Within(a, n, limit)
    ensures var slots := Target(a.used, a.slots, a.factor); slots <= SlotBound(n + 1, limit) && IsPow2(slots)
  {
    if a.slots == 0 {
      assert Pow2(3) == 8;
    } else if Overloaded(a.used + 1, a.slots, a.factor) {
      LoadAbove(a.used + 1, a.slots, a.factor);
      RoundedBelow(a.used + 1);
      TenthLoaded(a.slots, a.factor, Rounded(a.used + 1));
      var k: nat :| a.slots == Pow2(k);
      assert Pow2(k + 1) == 2 * a.slots;
    }
  }

  lemma TenthLoaded(n: nat, factor: real, used: nat)
    requires factor >= 0.1 && factor * n as real < used as real
    ensures n < 10 * used
  {
    Product(factor - 0.1, n as real);
    assert n as real < 10.0 * used as real;
    assert (10 * used) as real == 10.0 * used as real;
  }

  lemma BucketsWithin(count: nat, limit: nat, n: nat)
    requires count <= limit
    ensures Buckets(count) <= SlotBound(n, limit) && (Buckets(count) == 0 || IsPow2(Buckets(count)))
  {
    if Max(count, 8) <= WORD_LIMIT / 2 {
      LeastPow2Below(NextPow2(Max(count, 8)), Max(count, 8));
    }
  }

  lemma RequiredWithin(count: nat, limit: nat, n: nat, factor: real, entrySize: nat, divide: (real, real) -> real)
    requires count <= limit && factor >= LEAST_LOAD && FloatDivision(divide)
    requires BytesFit(entrySize, SlotBound(n, limit)) && entrySize >= 8
    ensures var required := Required(count, factor, divide);
      required < WORD_LIMIT && required <= Buckets(required) <= SlotBound(n, limit) && IsPow2(Buckets(required))
  {
    RequiredBelow(count, factor, divide);
    var required := Required(count, factor, divide);
    assert (entrySize - 8) * SlotBound(n, limit) >= 0;
    var size := Max(required, 8);
    LeastPow2Unique(NextPow2(size), size);
    LeastPow2Below(NextPow2(size), size);
  }

  /** At most forty slots are required for a pair. */
  lemma RequiredBelow(count: nat, factor: real, divide: (real, real) -> real)
    requires factor >= LEAST_LOAD && FloatDivision(divide)
    ensures Required(count, factor, divide) <= 40 * count + 2
  {
    RoundedBelow(count);
    var x := Rounded(count);
    hide Rounded;
    var size := 10 * x + 1;
    LeastPow2Below(NextPow2(size), size);
    var k: nat :| NextPow2(size) == Pow2(k);
    EnoughFor(x, factor, Pow2(k));
    assert Quotient(divide(x as real, factor), x as real, factor);
  }

  lemma EnoughFor(x: nat, factor: real, n: nat)
    requires factor >= 0.1 && n >= 10 * x
    ensures x as real <= factor * n as real
  {
    Product(factor - 0.1, n as real);
    assert n as real >= 10.0 * x as real;
  }

  lemma FewerBytes(entrySize: nat, a: nat, b: nat)
    requires a <= b && BytesFit(entrySize, b)
    ensures BytesFit(entrySize, a)
  {
    assert entrySize * (b - a) >= 0;
  }

  /** An admissible operation does not halt while the table may have as many slots as the bound says. */
  lemma AdmissibleGoesWell<K, V>(a: Load, m: map<K, V>, op: Op<K, V>, n: nat, limit: nat, entrySize: nat,
          divide: (real, real) -> real)
    requires Within(a, n, limit) && Admissible(m, op, limit) && BytesFit(entrySize, SlotBound(n + 1, limit))
    requires FloatDivision(divide) && |m| <= a.slots && entrySize >= 8
    ensures !Halts(a, m, op, entrySize, divide)
    ensures forall b :: LoadMoves(a, op, b, divide) ==> Within(b, n + 1, limit)
  {
    TargetWithin(a, n, limit);
    if op.Rehash? { BucketsWithin(op.count, limit, n + 1); }
    if op.Reserve? { RequiredWithin(op.count, limit, n + 1, a.factor, entrySize, divide); }
    hide IsPow2, Buckets, Overloaded, BytesFit, Required;
    if op.Reserve? { FewerBytes(entrySize, Buckets(Required(op.count, a.factor, divide)), SlotBound(n + 1, limit)); }
    var slots := Target(a.used, a.slots, a.factor);
    FewerBytes(entrySize, slots, SlotBound(n + 1, limit));
    if op.Rehash? { FewerBytes(entrySize, Buckets(op.count), SlotBound(n + 1, limit)); }
    NeverStuck(|m|, a.slots, a.factor);
  }

  /** Over any run from an empty table, through growth, rehashing, tombstones and wrap-around, every operation answers
      as on the map, up to the first one that goes wrong, if there is one. None does in a run of admissible operations
      whose slots fit in memory. */
  method Replay<K(==), V>(hasher: K -> nat, entrySize: nat, layout: B.Layout, divide: (real, real) -> real,
      ops: seq<Op<K, V>>, ghost limit: nat)
    returns (table: PooledHashMap<K, V>, replies: seq<Reply<V>>, ghost loads: seq<Load>)
    requires Sized(entrySize, layout) && FloatDivision(divide) && forall i :: 0 <= i < |ops| ==> InWords(ops[i])
    ensures fresh(table) && table.entrySize == entrySize && table.divide == divide
    ensures LoadsOf(loads, ops[..Min(|replies|, |ops|)], divide) && (|replies| == |ops| ==> loads[|ops|] == LoadOf(table))
    ensures |replies| <= |ops| && forall i :: 0 <= i < |replies| ==> replies[i] == Answer(Run(ops[..i]), ops[i])
    ensures if |replies| == |ops| then table.Valid() && table.Model == Run(ops)
            else Halted(table, Run(ops[..|replies|]), ops[|replies|])
    ensures (forall i :: 0 <= i < |ops| ==> Admissible(Run(ops[..i]), ops[i], limit)) && BytesFit(entrySize, SlotBound(|ops|, limit))
      ==> |replies| == |ops|
  {
    hide PooledHashMap.Valid, Answer, Apply, Admissible, Run, Buckets, BytesFit;
    hide Halts, Halted, LoadMoves, Within, InWords, SlotBound, FloatDivision;
    LeastTable(entrySize, layout);
    RunNothing<K, V>();
    ghost var safe :=
      (forall i :: 0 <= i < |ops| ==> Admissible(Run(ops[..i]), ops[i], limit)) && BytesFit(entrySize, SlotBound(|ops|, limit));
    table := new PooledHashMap(hasher, entrySize, layout, divide, 8);
    EmptyWithin(limit);
    replies, loads := [], [LoadOf(table)];
    for i := 0 to |ops|
      invariant table.Valid() && fresh(table) && fresh(table.entries) && table.Model == Run(ops[..i])
      invariant table.entrySize == entrySize && table.divide == divide
      invariant LoadsOf(loads, ops[..i], divide) && loads[i] == LoadOf(table)
      invariant (safe ==> Within(LoadOf(table), i, limit))
      invariant |replies| == i && forall j :: 0 <= j < i ==> replies[j] == Answer(Run(ops[..j]), ops[j])
    {
      RunStep(ops, i);
      if safe {
        SlotBoundGrows(i + 1, |ops|, limit);
        FewerBytes(entrySize, SlotBound(i + 1, limit), SlotBound(|ops|, limit));
        table.PairsAtMost();
        AdmissibleGoesWell(LoadOf(table), table.Model, ops[i], i, limit, entrySize, divide);
      }
      var reply, ok := Execute(table, ops[i]);
      if !ok { return; }
      LoadsMore(loads, ops, i, LoadOf(table), divide);
      loads := loads + [LoadOf(table)];
      replies := replies + [reply];
    }
    assert ops[..|ops|] == ops;
  }

  /** The loads of the table before, between and after the operations. */
  ghost predicate LoadsOf<K, V>(loads: seq<Load>, ops: seq<Op<K, V>>, divide: (real, real) -> real) {
    && |loads| == |ops| + 1 && loads[0] == Load(0.75, 0, 8)
    && forall i :: 0 <= i < |ops| ==> LoadMoves(loads[i], ops[i], loads[i + 1], divide)
  }

  lemma LoadsMore<K, V>(loads: seq<Load>, ops: seq<Op<K, V>>, i: nat, load: Load, divide: (real, real) -> real)
    requires i < |ops| && LoadsOf(loads, ops[..i], divide) && LoadMoves(loads[i], ops[i], load, divide)
    ensures LoadsOf(loads + [load], ops[..i + 1], divide)
  {
    hide LoadMoves;
  }

  // ----- Reserving -----

  /** No insertion makes the table grow before `count` slots are in use. */
  ghost predicate Reserved(load: Load, count: nat) {
    load.slots > 0 && forall used: nat :: used < count ==> Target(used, load.slots, load.factor) == load.slots
  }

  /** An operation that asks for no number of slots of its own and leaves the load limit alone. */
  ghost predicate Plain<K, V>(op: Op<K, V>) { !op.Rehash? && !op.SetMaxLoadFactor? }

  /** A reservation outlasts every other one and every insertion, erasure and clearing. */
  lemma StaysReserved<K, V>(a: Load, op: Op<K, V>, b: Load, count: nat, divide: (real, real) -> real)
    requires Reserved(a, count) && LoadMoves(a, op, b, divide) && Plain(op) && b.slots > 0 && a.factor >= 0.0
    ensures Reserved(b, count) && b.factor == a.factor && b.slots >= a.slots
    ensures (op.Insert? || op.Put?) && a.used < count ==> b.slots == a.slots
  {
    hide Overloaded, Rounded, Required;
    if op.Reserve? { BucketsAtLeast(Required(op.count, a.factor, divide)); }
    forall used: nat | used < count
      ensures Target(used, b.slots, b.factor) == b.slots
    {
      assert Target(used, a.slots, a.factor) == a.slots;
      LessLoaded(used + 1, a.slots, b.slots, a.factor);
    }
  }

  /** A larger table is loaded less. */
  lemma LessLoaded(used: nat, n: nat, m: nat, factor: real)
    requires 0 < n <= m && factor >= 0.0 && !Overloaded(used, n, factor)
    ensures !Overloaded(used, m, factor)
  {
    hide Overloaded, Rounded;
    LoadAbove(used, n, factor);
    LoadAbove(used, m, factor);
    LargerProduct(factor, n, m);
  }

  lemma LargerProduct(factor: real, a: nat, b: nat)
    requires factor >= 0.0 && a <= b
    ensures factor * a as real <= factor * b as real
  {
    Product(factor, (b - a) as real);
    assert factor * (b - a) as real == factor * b as real - factor * a as real;
  }

  /** Over any run: from a reservation on, until the next rehash or change of the load limit, no insertion makes the table
      grow before `count` slots are in use, whatever else is reserved. */
  lemma {:induction false} ReservedRun<K, V>(loads: seq<Load>, ops: seq<Op<K, V>>, i: nat, j: nat, count: nat,
          divide: (real, real) -> real)
    requires LoadsOf(loads, ops, divide) && i <= j <= |ops| && Reserved(loads[i], count) && loads[i].factor >= 0.0
    requires (forall k :: i <= k < j ==> Plain(ops[k])) && (forall k :: i < k <= j ==> loads[k].slots > 0)
    ensures Reserved(loads[j], count) && loads[j].factor == loads[i].factor && loads[j].slots >= loads[i].slots
    ensures forall k :: i <= k < j && (ops[k].Insert? || ops[k].Put?) && loads[k].used < count ==> loads[k + 1].slots == loads[k].slots
    decreases j
  {
    hide Reserved, LoadMoves;
    if i < j {
      ReservedRun(loads, ops, i, j - 1, count, divide);
      StaysReserved(loads[j - 1], ops[j - 1], loads[j], count, divide);
    }
  }

  /** `reserve` makes the reservation, unless it leaves no slots at all. */
  lemma ReserveReserves<K, V>(a: Load, b: Load, count: nat, divide: (real, real) -> real)
    requires LoadMoves(a, Op<K, V>.Reserve(count), b, divide) && FloatDivision(divide) && a.factor > 0.0
    requires b.slots > 0 && IsPow2(b.slots)
    ensures Reserved(b, count)
  {
    hide Reserved, FloatDivision, IsPow2, Buckets;
    RequiredIs(count, a.factor, divide);
    BucketsAtLeast(Required(count, a.factor, divide));
    NoGrowth(count, b, divide);
  }

  lemma EmptyWithin(limit: nat)
    ensures Within(Load(0.75, 0, 8), 0, limit)
  {
    assert Pow2(3) == 8;
  }

  lemma SlotBoundGrows(n: nat, m: nat, limit: nat)
    requires n <= m
    ensures SlotBound(n, limit) <= SlotBound(m, limit)
  {
  }

  // ----- Tables that go wrong -----

  const SMALL_POOL := B.Layout(4096, 64, 4096, 1)

  const FLOAT_LIMIT := 0x100_0000

  function Exactly(x: real, y: real): real { if y == 0.0 then 0.0 else x / y }

  lemma SmallPool()
    ensures Sized(24, SMALL_POOL) && FloatDivision(Exactly)
  {
    assert Pow2(6) == 64;
    forall x: real, y: real | x >= 0.0 && y > 0.0
      ensures Quotient(Exactly(x, y), x, y)
    {
      ExactQuotient(x, y);
    }
  }

  lemma ExactQuotient(x: real, y: real)
    requires x >= 0.0 && y > 0.0
    ensures Quotient(x / y, x, y)
  {
    var q := x / y;
    assert y * q == x;
    forall k: nat
      ensures y * Pow2(k) as real <= x <==> Pow2(k) as real <= q
      ensures x <= y * Pow2(k) as real <==> q <= Pow2(k) as real
    {
      ComparedTo(x, y, q, Pow2(k) as real);
    }
    Compared(y, q, 0.0);
  }

  lemma ComparedTo(x: real, y: real, q: real, n: real)
    requires y > 0.0 && y * q == x
    ensures y * n <= x <==> n <= q
    ensures x <= y * n <==> q <= n
  {
    Compared(y, q, n);
  }

  lemma Compared(y: real, q: real, n: real)
    requires y > 0.0
    ensures y * n <= y * q <==> n <= q
    ensures y * q <= y * n <==> q <= n
  {
    assert y * (n - q) == y * n - y * q;
    if n < q { Positive(y, q - n); }
    if q < n { Positive(y, n - q); }
  }

  lemma Positive(y: real, d: real)
    requires y > 0.0 && d > 0.0
    ensures y * d > 0.0
  {
  }

  /** Nine pairs, which a rehash to eight slots does not hold. */
  method RehashOverflows() returns (table: PooledHashMap<nat, nat>, ok: bool)
    ensures fresh(table) && |table.Model| == 9 && table.entries.Length == 8 && !ok
  {
    hide PooledHashMap.Valid, Buckets, Rounded, BytesFit;
    table := Filled(9);
    table.SizeOfModel();
    SmallPool();
    LeastTable(24, SMALL_POOL);
    ok := table.Rehash(8);
  }

  /** An empty table of 24-byte slots, for which a rehash to 2^59 slots gets a block that is too small. */
  method RehashWraps() returns (table: PooledHashMap<nat, nat>, ok: bool)
    ensures fresh(table) && table.Model == map[] && table.entries.Length == 0x800_0000_0000_0000 && !ok
  {
    hide PooledHashMap.Valid, NextPow2;
    SmallPool();
    Buckets59();
    LeastTable(24, SMALL_POOL);
    table := new PooledHashMap((k: nat) => k, 24, SMALL_POOL, Exactly, 8);
    ok := table.Rehash(0x800_0000_0000_0000);
  }

  lemma Buckets59()
    ensures Buckets(0x800_0000_0000_0000) == 0x800_0000_0000_0000
  {
    Pow2Word();
    assert Pow2(59) == 0x800_0000_0000_0000;
    NextOfPow2(0x800_0000_0000_0000);
  }

  /** With a load limit of 1, a table of 2^24 pairs in 2^24 slots, to which no further key can be added: one more than
      2^24 is the same float. */
  method FullAtOne() returns (table: PooledHashMap<nat, nat>, ok: bool)
    ensures fresh(table) && table.maxLoadFactor == 1.0 && |table.Model| == table.entries.Length == FLOAT_LIMIT
    ensures FLOAT_LIMIT !in table.Model && !ok
  {
    hide PooledHashMap.Valid, Buckets, Rounded;
    table := Filled(FLOAT_LIMIT);
    table.SizeOfModel();
    NextLength(FLOAT_LIMIT, table.entries.Length);
    var index, inserted;
    index, inserted, ok := table.InsertValue(FLOAT_LIMIT, 0);
  }

  /** The keys below `count` in a table with a load limit of 1. */
  ghost predicate HoldsBelow(table: PooledHashMap<nat, nat>, count: nat)
    reads table, table.entries
  {
    && table.Valid() && table.maxLoadFactor == 1.0 && table.entrySize == 24 && table.layout == SMALL_POOL
    && |table.Model| == count && (forall k :: k in table.Model ==> k < count) && table.erasedCount == 0
    && IsPow2(table.entries.Length) && count <= table.entries.Length
    && (table.entries.Length == 8 || table.entries.Length < 2 * count)
  }

  method Filled(count: nat) returns (table: PooledHashMap<nat, nat>)
    requires count <= FLOAT_LIMIT
    ensures fresh(table) && fresh(table.entries) && HoldsBelow(table, count)
  {
    hide PooledHashMap.Valid, Buckets, BytesFit;
    SmallPool();
    LeastTable(24, SMALL_POOL);
    assert Pow2(3) == 8;
    table := new PooledHashMap((k: nat) => k, 24, SMALL_POOL, Exactly, 8);
    table.SetMaxLoadFactor(1.0);
    for i := 0 to count
      invariant fresh(table) && fresh(table.entries) && HoldsBelow(table, i)
    {
      FillOne(table, i);
    }
  }

  method FillOne(table: PooledHashMap<nat, nat>, i: nat)
    requires HoldsBelow(table, i) && i < FLOAT_LIMIT
    modifies table, table.entries
    ensures HoldsBelow(table, i + 1) && (table.entries == old(table.entries) || fresh(table.entries))
  {
    hide PooledHashMap.Valid, IsPow2, Buckets, Target, Stuck, BytesFit;
    table.SizeOfModel();
    NextLength(i, table.entries.Length);
    var index, inserted, ok := table.InsertValue(i, i);
  }

  /** How a table grows that is filled up before it does. */
  lemma NextLength(i: nat, n: nat)
    requires IsPow2(n) && i <= n && i <= FLOAT_LIMIT && (n == 8 || n < 2 * i)
    ensures i < FLOAT_LIMIT ==> Target(i, n, 1.0) == (if i == n then 2 * n else n) && !Stuck(i, n, 1.0)
    ensures i == FLOAT_LIMIT ==> n == FLOAT_LIMIT && Target(i, n, 1.0) == n && Stuck(i, n, 1.0)
    ensures BytesFit(24, Target(i, n, 1.0)) && IsPow2(Target(i, n, 1.0))
  {
    hide Rounded, Overloaded;
    var k: nat :| n == Pow2(k);
    AgainstPow2Of24(k);
    FullTableLimit(k, 1.0);
    if i < n { FitsUnderOne(i + 1, k); }
    assert Pow2(k + 1) == 2 * n;
  }

  lemma AgainstPow2Of24(k: nat)
    ensures k < 24 ==> 2 * Pow2(k) <= FLOAT_LIMIT
    ensures k == 24 ==> Pow2(k) == FLOAT_LIMIT
    ensures k > 24 ==> Pow2(k) >= 2 * FLOAT_LIMIT
  {
    Pow2Of24();
    if k < 24 { Pow2Monotone(k, 24); }
    if k > 24 { Pow2Monotone(24, k); }
  }

  lemma FitsUnderOne(used: nat, k: nat)
    requires used <= Pow2(k)
    ensures !Overloaded(used, Pow2(k), 1.0)
  {
    RoundedAtPow2(used, k);
    hide Rounded;
    LoadAbove(used, Pow2(k), 1.0);
  }

  lemma RunNothing<K, V>()
    ensures Run<K, V>([]) == map[]
  {
  }

  /** The pairs of the occupied slots, in slot order. */
  ghost function Visited<K, V>(t: Table<K, V>): seq<(K, V)> {
    if t == [] then []
    else
      var e := t[|t| - 1];
      Visited(t[..|t| - 1]) + (if e.Occupied? then [(e.key, e.value)] else [])
  }

  lemma VisitedNothing<K, V>(t: Table<K, V>)
    ensures Visited(t[..0]) == []
  {
  }

  lemma VisitedNext<K, V>(t: Table<K, V>, i: nat)
    requires i < |t| && t[i].Occupied?
    ensures Visited(t[..i + 1]) == Visited(t[..i]) + [(t[i].key, t[i].value)]
  {
    assert t[..i + 1][..i] == t[..i];
  }

  lemma {:induction false} VisitedFrom<K, V>(t: Table<K, V>, i: nat) returns (j: nat)
    requires i < |Visited(t)|
    ensures j < |t| && t[j].Occupied? && Visited(t)[i] == (t[j].key, t[j].value) && i == |Visited(t[..j])|
  {
    var r := t[..|t| - 1];
    if i < |Visited(r)| {
      j := VisitedFrom(r, i);
      assert t[..j] == r[..j];
    } else {
      j := |t| - 1;
    }
  }

  lemma {:induction false} VisitedCount<K, V>(t: Table<K, V>)
    ensures |Visited(t)| == CountOccupied(t)
  {
    if t != [] { VisitedCount(t[..|t| - 1]); }
  }

  lemma VisitedAll<K, V>(t: Table<K, V>, h: K -> nat, m: map<K, V>, size: nat)
    requires (t == [] && size == 0 && m == map[]) || (Probeable(t, h) && Contents(t, m) && size == CountOccupied(t) == |m|)
    ensures |Visited(t)| == |m|
    ensures forall i :: 0 <= i < |Visited(t)| ==> Visited(t)[i].0 in m && m[Visited(t)[i].0] == Visited(t)[i].1
    ensures forall i, j :: 0 <= i < j < |Visited(t)| ==> Visited(t)[i].0 != Visited(t)[j].0
  {
    VisitedCount(t);
    forall i | 0 <= i < |Visited(t)|
      ensures Visited(t)[i].0 in m && m[Visited(t)[i].0] == Visited(t)[i].1
    {
      var a := VisitedFrom(t, i);
    }
    forall i, j | 0 <= i < j < |Visited(t)|
      ensures Visited(t)[i].0 != Visited(t)[j].0
    {
      var a := VisitedFrom(t, i);
      var b := VisitedFrom(t, j);
    }
  }

  /** The number of slots that a rehash makes; the rounding wraps to 0 past half the word size. */
  ghost function Buckets(count: nat): nat {
    if Max(count, 8) <= WORD_LIMIT / 2 then NextPow2(Max(count, 8)) else 0
  }

  lemma BucketsRounded(r: nat, count: nat)
    requires if Max(count, 8) <= WORD_LIMIT / 2 then LeastPow2(r, Max(count, 8)) else r == 0
    ensures r == Buckets(count) <= WORD_LIMIT / 2 && (r > 0 ==> r >= 8 && IsPow2(r))
  {
    if Max(count, 8) <= WORD_LIMIT / 2 {
      LeastPow2Unique(r, Max(count, 8));
      B.BlockAtMostHalf(r, Max(count, 8));
    }
  }

  /** A block can hold `n` slots. */
  ghost predicate BytesFit(entrySize: nat, n: nat) { Times(entrySize, n) <= WORD_LIMIT / 2 }

  /** A slot holds at least a hash, the least table fits in memory, and so do the blocks of the pool. */
  ghost predicate Sized(entrySize: nat, layout: B.Layout) {
    8 <= entrySize <= WORD_LIMIT / 16 && layout.Valid() && layout.minBlockSize <= WORD_LIMIT / 2
  }

  lemma NoBytes(entrySize: nat)
    ensures BytesFit(entrySize, 0)
  {
  }

  lemma LeastTable(entrySize: nat, layout: B.Layout)
    requires Sized(entrySize, layout)
    ensures Buckets(8) == 8 && BytesFit(entrySize, 8)
  {
    NextOfPow2(8);
  }

  lemma DoubledTable(n: nat, entrySize: nat)
    requires IsPow2(n) && 8 <= n && BytesFit(entrySize, n) && entrySize >= 8
    ensures Buckets(2 * n) == 2 * n < WORD_LIMIT
  {
    assert (entrySize - 8) * n >= 0;
    NextOfPow2(n);
  }

  lemma NextOfPow2(n: nat)
    requires n == 8 || IsPow2(n)
    ensures NextPow2(n) == n && NextPow2(2 * n) == 2 * n
  {
    assert Pow2(3) == 8;
    var k: nat :| n == Pow2(k);
    assert Pow2(k + 1) == 2 * n;
    assert LeastPow2(n, n) && LeastPow2(2 * n, 2 * n);
    LeastPow2Unique(n, n);
    LeastPow2Unique(2 * n, 2 * n);
  }

  lemma BucketsAtLeast(count: nat)
    ensures Buckets(count) == 0 || Buckets(count) >= count
    ensures count <= WORD_LIMIT / 2 ==> Buckets(count) >= count
  {
  }

  // ----- Load -----

  /** The load with `used` slots in use exceeds the limit. The count is rounded to a float; the division by a power
      of two is exact. */
  predicate Overloaded(used: nat, n: nat, factor: real)
    requires n > 0
  {
    Rounded(used) as real / n as real > factor
  }

  /** The number of slots that an insertion works with. */
  ghost function Target(used: nat, n: nat, factor: real): nat {
    if n == 0 then 8 else if Overloaded(used + 1, n, factor) then 2 * n else n
  }

  /** Every slot is used, and one more pair does not make the table grow. */
  ghost predicate Stuck(used: nat, n: nat, factor: real) {
    used == n > 0 && !Overloaded(used + 1, n, factor)
  }

  lemma LoadAbove(used: nat, n: nat, factor: real)
    requires n > 0
    ensures Overloaded(used, n, factor) <==> Rounded(used) as real > factor * n as real
  {
    hide Rounded;
    var q := Rounded(used) as real / n as real;
    ComparedTo(Rounded(used) as real, n as real, q, factor);
  }

  lemma Product(x: real, y: real)
    requires x >= 0.0 && y >= 0.0
    ensures x * y >= 0.0
  {
  }

  /** A rounding of the quotient of `x` and `y`: it is not negative, and does not step over a power of two. */
  ghost predicate Quotient(q: real, x: real, y: real) {
    q >= 0.0 && forall k: nat ::
      (y * Pow2(k) as real <= x ==> Pow2(k) as real <= q) && (x <= y * Pow2(k) as real ==> q <= Pow2(k) as real)
  }

  ghost predicate FloatDivision(divide: (real, real) -> real) {
    forall x: real, y: real :: x >= 0.0 && y > 0.0 ==> Quotient(divide(x, y), x, y)
  }

  /** The number of slots that `reserve` asks for. */
  ghost function Required(count: nat, factor: real, divide: (real, real) -> real): nat {
    var q := divide(Rounded(count) as real, factor);
    if q < 0.0 then 0 else q.Floor + 1
  }

  lemma RequiredIs(count: nat, factor: real, divide: (real, real) -> real)
    requires FloatDivision(divide) && factor > 0.0
    ensures var q := divide(Rounded(count) as real, factor);
      Quotient(q, Rounded(count) as real, factor) && q >= 0.0 && Required(count, factor, divide) == q.Floor + 1
  {
    assert Quotient(divide(Rounded(count) as real, factor), Rounded(count) as real, factor);
  }

  /** A table of as many slots as required does not grow before `count` slots are in use. */
  lemma NoGrowth(count: nat, load: Load, divide: (real, real) -> real)
    requires load.slots > 0 && IsPow2(load.slots) && load.factor > 0.0 && FloatDivision(divide)
    requires Required(count, load.factor, divide) <= load.slots
    ensures Reserved(load, count)
  {
    hide Rounded, Overloaded, FloatDivision;
    RequiredIs(count, load.factor, divide);
    var k: nat :| load.slots == Pow2(k);
    forall used: nat | used < count
      ensures Target(used, load.slots, load.factor) == load.slots
    {
      RoundedMonotone(used + 1, count);
      LoadAbove(used + 1, load.slots, load.factor);
    }
  }

  /** A quarter of the slots is not enough. */
  ghost predicate JustEnough(count: nat, n: nat, factor: real) {
    n > 8 ==> 4.0 * Rounded(count) as real > factor * n as real
  }

  lemma NotMuchMore(count: nat, factor: real, divide: (real, real) -> real)
    requires FloatDivision(divide) && factor > 0.0
    ensures JustEnough(count, Buckets(Required(count, factor, divide)), factor)
  {
    hide FloatDivision, Rounded, Required, Buckets, Pow2;
    RequiredIs(count, factor, divide);
    var required := Required(count, factor, divide);
    if Buckets(required) > 8 {
      var k := QuarterTooFew(required);
      assert 4.0 * (factor * Pow2(k) as real) == factor * (4 * Pow2(k)) as real;
    }
  }

  /** A quarter of the slots made is less than the slots required, by at least 2. */
  lemma QuarterTooFew(required: nat) returns (k: nat)
    requires Buckets(required) > 8
    ensures Buckets(required) == 4 * Pow2(k) && Pow2(k) + 1 < required
  {
    var n := Buckets(required);
    LeastPow2Below(n, Max(required, 8));
    var j: nat :| n == Pow2(j);
    Quarter(j);
    k := j - 2;
  }

  lemma Quarter(k: nat)
    requires Pow2(k) > 8
    ensures k > 3 && Pow2(k) == 4 * Pow2(k - 2)
  {
    assert Pow2(3) == 8;
    if k <= 3 { Pow2Monotone(k, 3); }
  }

  /** A table of 2^k slots that is not grown for one more pair has a slot that is neither occupied nor erased. */
  ghost predicate KeepsRoom(used: nat, k: nat, factor: real) {
    used <= Pow2(k) && !Overloaded(used + 1, Pow2(k), factor) ==> used < Pow2(k)
  }

  /** The exact limit for one table: from 2^24 slots on, one more than all of them is the same float. */
  lemma TableLimit(k: nat, factor: real)
    ensures (forall used: nat :: KeepsRoom(used, k, factor)) <==> factor < (if k < 24 then 1.0 + 1.0 / Pow2(k) as real else 1.0)
  {
    hide Overloaded;
    FullTableLimit(k, factor);
    assert KeepsRoom(Pow2(k), k, factor) <==> Overloaded(Pow2(k) + 1, Pow2(k), factor);
  }

  lemma FullTableLimit(k: nat, factor: real)
    ensures Overloaded(Pow2(k) + 1, Pow2(k), factor) <==> factor < (if k < 24 then 1.0 + 1.0 / Pow2(k) as real else 1.0)
  {
    var n := Pow2(k);
    RoundedNext(k);
    hide Rounded;
    OneMore(n);
  }

  lemma OneMore(n: nat)
    requires n > 0
    ensures (n + 1) as real / n as real == 1.0 + 1.0 / n as real && n as real / n as real == 1.0
  {
  }

  /** A load limit keeps an empty slot in every table if and only if it is below 1. */
  lemma LoadLimit(factor: real)
    ensures (forall k: nat, used: nat :: KeepsRoom(used, k, factor)) <==> factor < 1.0
  {
    if factor < 1.0 {
      forall k: nat, used: nat
        ensures KeepsRoom(used, k, factor)
      {
        assert 1.0 / Pow2(k) as real > 0.0;
        TableLimit(k, factor);
      }
    } else {
      TableLimit(24, factor);
      var used: nat :| !KeepsRoom(used, 24, factor);
    }
  }

  lemma NeverStuck(used: nat, n: nat, factor: real)
    requires n == 0 || IsPow2(n)
    requires factor < 1.0
    ensures !Stuck(used, n, factor)
  {
    if n > 0 {
      var k: nat :| n == Pow2(k);
      LoadLimit(factor);
      assert KeepsRoom(n, k, factor);
    }
  }

  lemma HashKept<K, V>(t: Table<K, V>, h: K -> nat, i: nat)
    requires Probeable(t, h) && i < |t|
    ensures t[i].Occupied? ==> t[i].hash == h(t[i].key)
  {
    if t[i].Occupied? { assert Placed(t, h, i); }
  }

  lemma NothingStored<K, V>(t: Table<K, V>, h: K -> nat)
    requires forall i: nat :: i < |t| ==> t[i].Empty?
    ensures Probeable(t, h) && Contents(t, map[]) && CountOccupied(t) == CountErased(t) == 0
  {
    AllEmptyCounts(t);
  }

  lemma {:induction false} CountPrefix<K, V>(t: Table<K, V>, i: nat)
    requires i <= |t|
    ensures CountOccupied(t[..i]) <= CountOccupied(t)
  {
    if i < |t| {
      CountPrefix(t[..|t| - 1], i);
      assert t[..|t| - 1][..i] == t[..i];
    } else {
      assert t[..i] == t;
    }
  }

  /** What moving slot `i` of the old table does to the pairs moved so far. */
  lemma RehashStep<K, V>(t: Table<K, V>, h: K -> nat, i: nat)
    requires i < |t| && Probeable(t, h)
    ensures t[i].Occupied? ==>
      && t[i].hash == h(t[i].key) && t[i].key !in Pairs(t[..i]) && CountOccupied(t[..i]) < CountOccupied(t)
      && Pairs(t[..i + 1]) == Pairs(t[..i])[t[i].key := t[i].value] && CountOccupied(t[..i + 1]) == CountOccupied(t[..i]) + 1
    ensures !t[i].Occupied? ==> Pairs(t[..i + 1]) == Pairs(t[..i]) && CountOccupied(t[..i + 1]) == CountOccupied(t[..i])
  {
    assert t[..i + 1][..i] == t[..i];
    CountPrefix(t, i + 1);
    if t[i].Occupied? {
      assert Placed(t, h, i);
      NotAmongEarlier(t, i);
    }
  }

  lemma OccupiedAtMost<K, V>(t: Table<K, V>)
    ensures CountOccupied(t) <= |t|
  {
    if t != [] { OccupiedAtMost(t[..|t| - 1]); }
  }

  lemma PairsNothing<K, V>(t: Table<K, V>)
    ensures Pairs(t[..0]) == map[] && CountOccupied(t[..0]) == 0
  {
  }

  lemma AllPairs<K, V>(t: Table<K, V>, h: K -> nat, m: map<K, V>)
    requires if t == [] then m == map[] else Probeable(t, h) && Contents(t, m)
    ensures Pairs(t) == m
  {
    if t != [] {
      PairsContents(t);
      ContentsUnique(t, Pairs(t), m);
    }
  }

  lemma NotAmongEarlier<K, V>(t: Table<K, V>, i: nat)
    requires i < |t| && t[i].Occupied?
    requires forall j: nat, k: nat :: j < |t| && k < |t| && t[j].Occupied? && t[k].Occupied? && t[j].key == t[k].key ==> j == k
    ensures t[i].key !in Pairs(t[..i])
  {
    PairsContents(t[..i]);
  }

  lemma StoredAt<K, V>(t: Table<K, V>, h: K -> nat, m: map<K, V>, i: nat, key: K, value: V)
    requires |t| > 0 && Probeable(t, h) && Contents(t, m) && key !in m
    requires i < |t| && !t[i].Occupied?
    requires Reachable(t, Home(h(key), |t|), Offset(Home(h(key), |t|), i, |t|))
    ensures var t' := t[i := Occupied(h(key), key, value)];
      && Probeable(t', h) && Contents(t', m[key := value])
      && CountOccupied(t') == CountOccupied(t) + 1
      && CountErased(t') == CountErased(t) - (if t[i].Erased? then 1 else 0)
  {
    Stored(t, h, m, i, key, value);
    CountUpdate(t, i, Occupied(h(key), key, value));
  }

  lemma {:induction false} NoErased<K, V>(t: Table<K, V>, i: nat)
    requires i < |t|
    ensures CountErased(t) == 0 ==> !t[i].Erased?
  {
    if i < |t| - 1 { NoErased(t[..|t| - 1], i); }
  }

  lemma OverwrittenAt<K, V>(t: Table<K, V>, h: K -> nat, m: map<K, V>, i: nat, value: V)
    requires Probeable(t, h) && Contents(t, m) && i < |t| && t[i].Occupied?
    ensures var t', m' := t[i := t[i].(value := value)], m[t[i].key := value];
      && Probeable(t', h) && Contents(t', m') && |m'| == |m|
      && CountOccupied(t') == CountOccupied(t) && CountErased(t') == CountErased(t)
  {
    Overwritten(t, h, m, i, value);
    CountUpdate(t, i, t[i].(value := value));
    assert m[t[i].key := value].Keys == m.Keys;
  }

  lemma BuriedAt<K, V>(t: Table<K, V>, h: K -> nat, m: map<K, V>, i: nat)
    requires Probeable(t, h) && Contents(t, m) && i < |t| && t[i].Occupied?
    ensures var t', m' := t[i := Erased], m - {t[i].key};
      && Probeable(t', h) && Contents(t', m') && |m'| == |m| - 1
      && CountOccupied(t') == CountOccupied(t) - 1 && CountErased(t') == CountErased(t) + 1
  {
    Buried(t, h, m, i);
    CountUpdate(t, i, Erased);
    assert (m - {t[i].key}).Keys == m.Keys - {t[i].key};
  }

  lemma {:induction false} SkippedNothing<K, V>(t: Table<K, V>, lo: nat, hi: nat)
    requires lo <= hi <= |t| && forall j :: lo <= j < hi ==> !t[j].Occupied?
    ensures Visited(t[..hi]) == Visited(t[..lo])
    decreases hi
  {
    if lo < hi {
      SkippedNothing(t, lo, hi - 1);
      assert t[..hi][..hi - 1] == t[..hi - 1];
    }
  }

}
