/** A bitmap of 64-bit words as the set of the slots that are taken. */
module SlotBitmap {
  import opened MathBits

  /** The words can hold `capacity` bits, and no bit is set at or past `capacity`. */
  ghost predicate Fits(words: seq<nat>, capacity: nat) {
    && |words| == (capacity + 63) / 64 && (forall w :: 0 <= w < |words| ==> words[w] < WORD_LIMIT)
    && forall k: nat :: capacity <= k < 64 * |words| ==> !SlotBit(words, k)
  }

  ghost predicate SlotBit(words: seq<nat>, k: nat)
    requires k < 64 * |words|
  {
    Bit(words[k / 64], k % 64)
  }

  ghost function Taken(words: seq<nat>): set<nat> {
    set k: nat | k < 64 * |words| && SlotBit(words, k)
  }

  /** One acquisition: it succeeds exactly when a slot is free, and takes the lowest. */
  ghost predicate Acquires(used: set<nat>, used': set<nat>, capacity: nat, acquired: bool, index: nat) {
    && (acquired <==> |used| < capacity)
    && (acquired ==> index < capacity && index !in used && used' == used + {index} && forall k: nat :: k < index ==> k in used)
    && (!acquired ==> used' == used)
  }

  lemma TakenBound(words: seq<nat>, capacity: nat)
    requires Fits(words, capacity)
    ensures forall k :: k in Taken(words) ==> k < capacity
    ensures |Taken(words)| <= capacity
    ensures |Taken(words)| == capacity ==> forall k: nat :: k < capacity ==> k in Taken(words)
  {
    Interval(Taken(words), capacity);
  }

  ghost function UpTo(n: nat): (s: set<nat>)
    ensures |s| == n && forall k: nat :: k in s <==> k < n
  {
    if n == 0 then {} else UpTo(n - 1) + {n - 1}
  }

  lemma SubsetSize(s: set<nat>, t: set<nat>)
    requires s <= t
    ensures |s| <= |t| && (|s| == |t| ==> s == t)
  {
    assert t == s + (t - s);
  }

  lemma Interval(s: set<nat>, n: nat)
    requires forall k :: k in s ==> k < n
    ensures |s| <= n && (|s| == n <==> forall k: nat :: k < n ==> k in s)
  {
    SubsetSize(s, UpTo(n));
    if forall k: nat :: k < n ==> k in s { assert s == UpTo(n); }
  }

  lemma WordOf(k: nat, w: nat, b: nat)
    requires b < 64
    ensures k == 64 * w + b <==> k / 64 == w && k % 64 == b
  {
  }

  /** Setting or clearing one bit of one word. */
  lemma BitSet(words: seq<nat>, capacity: nat, w: nat, b: nat, word: nat, on: bool)
    requires Fits(words, capacity) && w < |words| && b < 64 && 64 * w + b < capacity
    requires word == if on then Or(words[w], ShiftedOne(b)) else AndNot(words[w], ShiftedOne(b))
    ensures Fits(words[w := word], capacity)
    ensures Taken(words[w := word]) == if on then Taken(words) + {64 * w + b} else Taken(words) - {64 * w + b}
  {
    WordBound(words[w], b, word, on);
    var words' := words[w := word];
    forall k: nat | k < 64 * |words|
      ensures SlotBit(words', k) <==> if k == 64 * w + b then on else SlotBit(words, k)
    {
      WordOf(k, w, b);
      if k / 64 == w { WordBit(words[w], b, word, on, k % 64); }
    }
  }

  lemma WordBit(old_: nat, b: nat, word: nat, on: bool, i: nat)
    requires word == if on then Or(old_, ShiftedOne(b)) else AndNot(old_, ShiftedOne(b))
    ensures Bit(word, i) <==> if i == b then on else Bit(old_, i)
  {
    BitPow2(b, i);
    if on { BitOr(old_, ShiftedOne(b), i); } else { BitAndNot(old_, ShiftedOne(b), i); }
  }

  lemma WordBound(old_: nat, b: nat, word: nat, on: bool)
    requires old_ < WORD_LIMIT && b < 64
    requires word == if on then Or(old_, ShiftedOne(b)) else AndNot(old_, ShiftedOne(b))
    ensures word < WORD_LIMIT
  {
    Pow2Word();
    if on {
      Pow2Monotone(b + 1, 64);
      OrBelow(old_, ShiftedOne(b), 64);
    } else {
      AndNotBelow(old_, ShiftedOne(b));
    }
  }

  lemma {:induction false} OnesBits(n: nat, i: nat)
    requires i < n
    ensures Bit(Pow2(n) - 1, i)
  {
    if i > 0 {
      OnesBits(n - 1, i - 1);
      assert (Pow2(n) - 1) / 2 == Pow2(n - 1) - 1;
    }
  }

  /** A full word has all its slots taken. */
  lemma FullWord(words: seq<nat>, w: nat)
    requires w < |words| && words[w] == WORD_LIMIT - 1
    ensures forall k: nat :: 64 * w <= k < 64 * (w + 1) ==> SlotBit(words, k)
  {
    Pow2Word();
    forall k: nat | 64 * w <= k < 64 * (w + 1)
      ensures SlotBit(words, k)
    {
      WordOf(k, w, k - 64 * w);
      OnesBits(64, k - 64 * w);
    }
  }

  /** The lowest clear bit of a word is the lowest free slot of that word. */
  lemma LowestInWord(words: seq<nat>, w: nat, b: nat)
    requires w < |words| && b < 64 && !Bit(words[w], b) && forall i: nat :: i < b ==> Bit(words[w], i)
    ensures !SlotBit(words, 64 * w + b) && forall k: nat :: 64 * w <= k < 64 * w + b ==> SlotBit(words, k)
  {
    WordOf(64 * w + b, w, b);
    forall k: nat | 64 * w <= k < 64 * w + b
      ensures SlotBit(words, k)
    {
      WordOf(k, w, k - 64 * w);
    }
  }

  lemma NoneTaken(words: seq<nat>, capacity: nat)
    requires |words| == (capacity + 63) / 64 && forall w :: 0 <= w < |words| ==> words[w] == 0
    ensures Fits(words, capacity) && Taken(words) == {}
  {
    forall k: nat | k < 64 * |words|
      ensures !SlotBit(words, k)
    {
      BitZero(k % 64);
    }
  }
}
