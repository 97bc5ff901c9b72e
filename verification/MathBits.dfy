/** Machine words as natural numbers: their bits, the masking tricks of the hash table and of the
    block pool, and the rounding helpers of the allocators. */
module MathBits {

  /** One more than the largest value of a 64-bit word. */
  const WORD_LIMIT: nat := 0x1_0000_0000_0000_0000

  ghost function Pow2(n: nat): (p: nat)
    ensures p > 0
  {
    if n == 0 then 1 else 2 * Pow2(n - 1)
  }

  lemma {:induction false} Pow2Monotone(m: nat, n: nat)
    requires m <= n
    ensures Pow2(m) <= Pow2(n)
    ensures m < n ==> 2 * Pow2(m) <= Pow2(n)
    decreases n - m
  {
    if m < n { Pow2Monotone(m, n - 1); }
  }

  lemma {:induction false} Pow2Add(m: nat, n: nat)
    ensures Pow2(m + n) == Pow2(m) * Pow2(n)
  {
    if m > 0 { Pow2Add(m - 1, n); }
  }

  lemma Pow2Word()
    ensures Pow2(64) == WORD_LIMIT
  {
    assert Pow2(4) == 16;
    Pow2Add(4, 4);
    Pow2Add(8, 8);
    Pow2Add(16, 16);
    Pow2Add(32, 32);
  }

  // ----- Bits -----

  ghost predicate Bit(w: nat, i: nat) {
    if i == 0 then w % 2 == 1 else Bit(w / 2, i - 1)
  }

  /** `a & b` */
  function And(a: nat, b: nat): nat {
    if a == 0 || b == 0 then 0 else 2 * And(a / 2, b / 2) + (if a % 2 == 1 && b % 2 == 1 then 1 else 0)
  }

  /** `a | b` */
  function Or(a: nat, b: nat): nat {
    if a == 0 && b == 0 then 0 else 2 * Or(a / 2, b / 2) + (if a % 2 == 1 || b % 2 == 1 then 1 else 0)
  }

  /** `a & ~b` */
  function AndNot(a: nat, b: nat): nat {
    if a == 0 then 0 else 2 * AndNot(a / 2, b / 2) + (if a % 2 == 1 && b % 2 == 0 then 1 else 0)
  }

  /** `1 << n`, before any truncation */
  function ShiftedOne(n: nat): (p: nat)
    ensures p == Pow2(n)
  {
    if n == 0 then 1 else 2 * ShiftedOne(n - 1)
  }

  /** `w >> n` */
  function ShiftRight(w: nat, n: nat): nat {
    if n == 0 then w else ShiftRight(w / 2, n - 1)
  }

  lemma {:induction false} BitZero(i: nat)
    ensures !Bit(0, i)
  {
    if i > 0 { BitZero(i - 1); }
  }

  lemma {:induction false} BitAnd(a: nat, b: nat, i: nat)
    ensures Bit(And(a, b), i) <==> Bit(a, i) && Bit(b, i)
    decreases i
  {
    BitZero(i);
    if i > 0 { BitAnd(a / 2, b / 2, i - 1); BitZero(i - 1); }
  }

  lemma OrHalves(a: nat, b: nat)
    ensures Or(a, b) / 2 == Or(a / 2, b / 2) && (Or(a, b) % 2 == 1 <==> a % 2 == 1 || b % 2 == 1)
  {
  }

  lemma {:induction false} BitOr(a: nat, b: nat, i: nat)
    ensures Bit(Or(a, b), i) <==> Bit(a, i) || Bit(b, i)
    decreases i
  {
    hide Or;
    OrHalves(a, b);
    if i > 0 { BitOr(a / 2, b / 2, i - 1); }
  }

  lemma {:induction false} BitAndNot(a: nat, b: nat, i: nat)
    ensures Bit(AndNot(a, b), i) <==> Bit(a, i) && !Bit(b, i)
    decreases i
  {
    BitZero(i);
    if i > 0 { BitAndNot(a / 2, b / 2, i - 1); BitZero(i - 1); }
  }

  lemma {:induction false} BitShiftRight(w: nat, n: nat, i: nat)
    ensures Bit(ShiftRight(w, n), i) <==> Bit(w, i + n)
    decreases n
  {
    if n > 0 { BitShiftRight(w / 2, n - 1, i); }
  }

  lemma {:induction false} BitPow2(n: nat, i: nat)
    ensures Bit(Pow2(n), i) <==> i == n
  {
    if n > 0 && i > 0 { BitPow2(n - 1, i - 1); }
    if n == 0 && i > 0 { BitZero(i - 1); }
  }

  /** Two words with the same bits are the same word. */
  lemma {:induction false} SameBits(a: nat, b: nat)
    requires forall i: nat :: Bit(a, i) <==> Bit(b, i)
    ensures a == b
    decreases a + b
  {
    assert Bit(a, 0) <==> Bit(b, 0);
    if a + b > 0 {
      forall i: nat
        ensures Bit(a / 2, i) <==> Bit(b / 2, i)
      {
        assert Bit(a, i + 1) <==> Bit(b, i + 1);
      }
      SameBits(a / 2, b / 2);
    }
  }

  lemma {:induction false} HighBitsClear(w: nat, n: nat, i: nat)
    requires w < Pow2(n) && n <= i
    ensures !Bit(w, i)
    decreases i
  {
    if n == 0 { BitZero(i); } else { HighBitsClear(w / 2, n - 1, i - 1); }
  }

  lemma {:induction false} OrBelow(a: nat, b: nat, n: nat)
    requires a < Pow2(n) && b < Pow2(n)
    ensures Or(a, b) < Pow2(n)
  {
    if n > 0 { OrBelow(a / 2, b / 2, n - 1); }
  }

  lemma {:induction false} AndBelow(a: nat, b: nat)
    ensures And(a, b) <= b
  {
    if a > 0 && b > 0 { AndBelow(a / 2, b / 2); }
  }

  lemma {:induction false} AndNotBelow(a: nat, b: nat)
    ensures AndNot(a, b) <= a
  {
    if a > 0 { AndNotBelow(a / 2, b / 2); }
  }

  lemma {:induction false} ShiftRightBelow(w: nat, n: nat)
    ensures ShiftRight(w, n) <= w
    decreases n
  {
    if n > 0 { ShiftRightBelow(w / 2, n - 1); }
  }

  // ----- Powers of two as masks -----

  ghost predicate IsPow2(v: nat) { exists k: nat :: v == Pow2(k) }

  /** `h & (n - 1)` is the remainder modulo `n` when `n` is a power of two. */
  lemma {:induction false} MaskIsRemainder(h: nat, k: nat)
    ensures And(h, Pow2(k) - 1) == h % Pow2(k)
  {
    if k > 0 {
      MaskIsRemainder(h / 2, k - 1);
      var p := Pow2(k - 1);
      assert (2 * p - 1) / 2 == p - 1;
      assert h == 2 * (h / 2) + h % 2;
      HalfRemainder(h, p);
    }
  }

  lemma HalfRemainder(h: nat, p: nat)
    requires p > 0
    ensures h % (2 * p) == 2 * ((h / 2) % p) + h % 2
  {
    var q, r := (h / 2) / p, (h / 2) % p;
    assert h == q * (2 * p) + (2 * r + h % 2);
    Remainder(h, 2 * p, q, 2 * r + h % 2);
  }

  lemma HalfQuotient(h: nat, p: nat)
    requires p > 0
    ensures h / (2 * p) == (h / 2) / p
  {
    var q, r := (h / 2) / p, (h / 2) % p;
    assert h == q * (2 * p) + (2 * r + h % 2);
    Remainder(h, 2 * p, q, 2 * r + h % 2);
  }

  lemma {:induction false} AtLeastOnce(e: int, d: int)
    requires e >= 1 && d > 0
    ensures e * d >= d
  {
    if e > 1 {
      AtLeastOnce(e - 1, d);
      assert e * d == (e - 1) * d + d;
    }
  }

  lemma MultiplesOrdered(i: int, j: int, u: nat)
    requires i <= j
    ensures i * u <= j * u
  {
    assert (j - i) * u >= 0;
  }

  lemma Remainder(a: int, d: int, q: int, r: int)
    requires d > 0 && 0 <= r < d && a == q * d + r
    ensures a % d == r && a / d == q
  {
    var e := q - a / d;
    assert a == (a / d) * d + a % d;
    assert e * d == q * d - (a / d) * d == a % d - r;
    assert (-e) * d == -(e * d);
    if e >= 1 { AtLeastOnce(e, d); }
    if e <= -1 { AtLeastOnce(-e, d); }
  }

  /** The bit trick behind `is_power_of_two`. */
  lemma {:induction false} PowerOfTwoTrick(v: nat)
    requires v > 0
    ensures And(v, v - 1) == 0 <==> IsPow2(v)
  {
    if v == 1 {
      assert v == Pow2(0);
    } else if v % 2 == 1 {
      assert (v - 1) / 2 == v / 2;
      AndSelf(v / 2);
      assert And(v, v - 1) == 2 * (v / 2);
      forall k: nat
        ensures v != Pow2(k)
      {
      }
    } else {
      PowerOfTwoTrick(v / 2);
      assert (v - 1) / 2 == v / 2 - 1;
      if IsPow2(v / 2) {
        var k: nat :| v / 2 == Pow2(k);
        assert v == Pow2(k + 1);
      }
      if IsPow2(v) {
        var k: nat :| v == Pow2(k);
        assert v / 2 == Pow2(k - 1);
      }
    }
  }

  lemma {:induction false} AndSelf(a: nat)
    ensures And(a, a) == a
  {
    if a > 0 { AndSelf(a / 2); }
  }

  // ----- Rounding up to a power of two -----

  /** The `s` highest of the `n` low bits are set. */
  ghost predicate Smeared(w: nat, n: nat, s: nat) {
    w < Pow2(n) && forall i: nat :: n <= i + s && i < n ==> Bit(w, i)
  }

  lemma SmearStep(w: nat, n: nat, s: nat)
    requires Smeared(w, n, s)
    ensures Smeared(Or(w, ShiftRight(w, s)), n, 2 * s)
  {
    ShiftRightBelow(w, s);
    OrBelow(w, ShiftRight(w, s), n);
    forall i: nat | n <= i + 2 * s && i < n
      ensures Bit(Or(w, ShiftRight(w, s)), i)
    {
      BitOr(w, ShiftRight(w, s), i);
      BitShiftRight(w, s, i);
    }
  }

  lemma {:induction false} AllOnes(w: nat, n: nat, s: nat)
    requires Smeared(w, n, s) && n <= s
    ensures w == Pow2(n) - 1
  {
    if n > 0 {
      assert Bit(w, 0);
      forall i: nat | i < n - 1
        ensures Bit(w / 2, i)
      {
        assert Bit(w, i + 1);
      }
      AllOnes(w / 2, n - 1, s);
    }
  }

  /** The number of binary digits. */
  lemma {:induction false} HighestBit(w: nat) returns (n: nat)
    requires w > 0
    ensures n > 0 && Pow2(n - 1) <= w < Pow2(n) && Smeared(w, n, 1)
  {
    if w == 1 {
      n := 1;
    } else {
      n := HighestBit(w / 2);
      assert Bit(w / 2, n - 1);
      n := n + 1;
      assert Bit(w, n - 1);
    }
  }

  ghost predicate LeastPow2(r: nat, value: nat) {
    IsPow2(r) && value <= r && forall k: nat :: value <= Pow2(k) ==> r <= Pow2(k)
  }

  /** On words: the least power of two that is not below `value`, or 0 where none fits in a word. */
  method RoundUpPowerOfTwo(value: nat) returns (r: nat)
    requires value < WORD_LIMIT
    ensures value <= WORD_LIMIT / 2 <==> LeastPow2(r, value)
    ensures value > WORD_LIMIT / 2 <==> r == 0
  {
    if value <= 1 {
      assert Pow2(0) == 1;
      return 1;
    }
    var w := value - 1;
    ghost var n := HighestBit(w);
    Pow2Word();
    if n > 64 { Pow2Monotone(64, n - 1); }
    SmearStep(w, n, 1);
    w := Or(w, ShiftRight(w, 1));
    SmearStep(w, n, 2);
    w := Or(w, ShiftRight(w, 2));
    SmearStep(w, n, 4);
    w := Or(w, ShiftRight(w, 4));
    SmearStep(w, n, 8);
    w := Or(w, ShiftRight(w, 8));
    SmearStep(w, n, 16);
    w := Or(w, ShiftRight(w, 16));
    SmearStep(w, n, 32);
    w := Or(w, ShiftRight(w, 32));
    AllOnes(w, n, 64);
    r := (w + 1) % WORD_LIMIT;
    RoundedUp(value, n);
    if n == 64 { assert r == 0; } else { Pow2Monotone(n, 63); assert r == Pow2(n); }
  }

  /** The least power of two that is not below `value`, on unbounded numbers. */
  ghost function NextPow2(value: nat): (r: nat)
    ensures LeastPow2(r, value)
  {
    NextPow2Exists(value);
    var r: nat :| LeastPow2(r, value);
    r
  }

  lemma LeastPow2Unique(r: nat, value: nat)
    requires LeastPow2(r, value)
    ensures r == NextPow2(value) && IsPow2(r) && r >= value
  {
    var k: nat :| r == Pow2(k);
    var least := NextPow2(value);
    var j: nat :| least == Pow2(j);
    assert value <= Pow2(k) && value <= Pow2(j);
  }

  lemma LeastPow2Below(r: nat, value: nat)
    requires LeastPow2(r, value) && value > 0
    ensures r < 2 * value
  {
    var k: nat :| r == Pow2(k);
    if k > 0 {
      var half: nat := k - 1;
      assert !(value <= Pow2(half));
    }
  }

  lemma NextPow2Exists(value: nat)
    ensures exists r: nat :: LeastPow2(r, value)
  {
    if value <= 1 {
      assert Pow2(0) == 1;
      assert LeastPow2(1, value);
    } else {
      var n := HighestBit(value - 1);
      RoundedUp(value, n);
    }
  }

  lemma RoundedUp(value: nat, n: nat)
    requires value > 1 && n > 0 && Pow2(n - 1) <= value - 1 < Pow2(n)
    ensures LeastPow2(Pow2(n), value)
    ensures n >= 64 <==> value > WORD_LIMIT / 2
  {
    forall k: nat | value <= Pow2(k)
      ensures Pow2(n) <= Pow2(k)
    {
      if k < n { Pow2Monotone(k, n - 1); } else { Pow2Monotone(n, k); }
    }
    Pow2Word();
    assert Pow2(63) == WORD_LIMIT / 2;
    if n >= 64 { Pow2Monotone(63, n - 1); } else { Pow2Monotone(n, 63); }
  }

  // ----- Places in a ring -----

  /** The place `i` steps after `head` in a ring of `n`, with wrap-around. */
  ghost function Place(head: nat, i: nat, n: nat): (p: nat)
    requires head < n && i <= n
    ensures p < n
  {
    if head + i < n then head + i else head + i - n
  }

  /** How far place `p` lies behind `head`. */
  ghost function Offset(head: nat, p: nat, n: nat): (i: nat)
    requires head < n && p < n
    ensures i < n && Place(head, i, n) == p
  {
    if head <= p then p - head else p + n - head
  }

  lemma PlaceIsRemainder(head: nat, i: nat, n: nat)
    requires head < n && i <= n
    ensures (head + i) % n == Place(head, i, n)
  {
    if head + i < n { Remainder(head + i, n, 0, head + i); } else { Remainder(head + i, n, 1, head + i - n); }
  }

  // ----- Rounding to multiples, divisors -----

  /** The least multiple that is not below `value`, on unbounded numbers. */
  function NextMultiple(value: nat, multiple: nat): (r: nat)
    ensures multiple == 0 ==> r == value
    ensures multiple > 0 ==> value <= r < value + multiple && r % multiple == 0
  {
    if multiple == 0 then value
    else
      var remainder := value % multiple;
      if remainder == 0 then value
      else
        assert (value + (multiple - remainder)) % multiple == 0 by {
          assert value + (multiple - remainder) == (value / multiple + 1) * multiple + 0;
          Remainder(value + (multiple - remainder), multiple, value / multiple + 1, 0);
        }
        value + (multiple - remainder)
  }

  lemma NextMultipleLeast(value: nat, multiple: nat, m: nat)
    requires multiple > 0 && m >= value && Divides(multiple, m)
    ensures NextMultiple(value, multiple) <= m
  {
    var r := NextMultiple(value, multiple);
    DividesRemainder(multiple, m);
    DividesRemainder(multiple, r);
    var i :| Times(i, multiple) == m;
    var j :| Times(j, multiple) == r;
    assert (j - i) * multiple == r - m;
    if i < j { AtLeastOnce(j - i, multiple); }
  }

  /** On words: the least multiple that is not below `value` if it is a word itself. */
  function RoundUpToMultiple(value: nat, multiple: nat): (r: nat)
    requires value < WORD_LIMIT
    ensures r < WORD_LIMIT && (r == NextMultiple(value, multiple) <==> NextMultiple(value, multiple) < WORD_LIMIT)
    ensures NextMultiple(value, multiple) >= WORD_LIMIT && multiple < WORD_LIMIT ==> r < multiple
  {
    if multiple == 0 then value
    else
      var remainder := value % multiple;
      if remainder == 0 then value else (value + (multiple - remainder)) % WORD_LIMIT
  }

  /** `d` goes into `a` without remainder. */
  ghost predicate Divides(d: int, a: int) { exists k: int :: Times(k, d) == a }

  ghost function Times(k: int, d: int): int { k * d }

  lemma DividesRemainder(d: int, a: int)
    requires d > 0
    ensures Divides(d, a) <==> a % d == 0
  {
    if a % d == 0 { assert Times(a / d, d) == a; }
    if Divides(d, a) {
      var k :| Times(k, d) == a;
      Remainder(a, d, k, 0);
    }
  }

  lemma DividesCombination(d: int, a: int, b: int, x: int, y: int)
    requires Divides(d, a) && Divides(d, b)
    ensures Divides(d, x * a + y * b)
  {
    var i :| Times(i, d) == a;
    var j :| Times(j, d) == b;
    assert Times(x * i + y * j, d) == x * (i * d) + y * (j * d);
  }

  /** The greatest common divisor, with the two factors that combine to it. */
  method Gcd(a0: nat, b0: nat) returns (r: nat, ghost x: int, ghost y: int)
    ensures Divides(r, a0) && Divides(r, b0)
    ensures r == x * a0 + y * b0
    ensures r == 0 <==> a0 == 0 && b0 == 0
  {
    var a: nat, b: nat := a0, b0;
    ghost var xa, ya, xb, yb := 1, 0, 0, 1;
    while b != 0
      invariant a == xa * a0 + ya * b0 && b == xb * a0 + yb * b0
      invariant forall d :: Divides(d, a) && Divides(d, b) ==> Divides(d, a0) && Divides(d, b0)
      invariant a == 0 && b == 0 ==> a0 == 0 && b0 == 0
      decreases b
    {
      var t := a % b;
      ghost var q := a / b;
      EuclidStep(a, b, a0, b0);
      EuclidFactors(a, b, a0, b0, xa, ya, xb, yb);
      xa, ya, xb, yb := xb, yb, xa - q * xb, ya - q * yb;
      a := b;
      b := t;
    }
    r, x, y := a, xa, ya;
    assert Times(1, a) == a && Times(0, a) == 0;
    assert Divides(a, a) && Divides(a, b);
    if r == 0 { assert a == 0 && b == 0; }
  }

  lemma EuclidFactors(a: nat, b: nat, a0: nat, b0: nat, xa: int, ya: int, xb: int, yb: int)
    requires b > 0 && a == xa * a0 + ya * b0 && b == xb * a0 + yb * b0
    ensures a % b == (xa - a / b * xb) * a0 + (ya - a / b * yb) * b0
  {
    var q := a / b;
    assert a % b == a - q * b;
    assert q * b == (q * xb) * a0 + (q * yb) * b0;
  }

  lemma EuclidStep(a: nat, b: nat, a0: nat, b0: nat)
    requires b > 0
    requires forall d :: Divides(d, a) && Divides(d, b) ==> Divides(d, a0) && Divides(d, b0)
    ensures forall d :: Divides(d, b) && Divides(d, a % b) ==> Divides(d, a0) && Divides(d, b0)
  {
    forall d | Divides(d, b) && Divides(d, a % b)
      ensures Divides(d, a0) && Divides(d, b0)
    {
      DividesCombination(d, b, a % b, a / b, 1);
      assert (a / b) * b + 1 * (a % b) == a;
    }
  }

  /** The least common multiple, of which every common multiple is a multiple, if it is a word. */
  method Lcm(a: nat, b: nat) returns (l: nat, ghost exact: nat)
    requires a > 0 || b > 0
    ensures l < WORD_LIMIT && (l == exact <==> exact < WORD_LIMIT) && l == exact % WORD_LIMIT
    ensures (exact > 0 <==> a > 0 && b > 0) && Divides(a, exact) && Divides(b, exact)
    ensures forall m :: Divides(a, m) && Divides(b, m) ==> Divides(exact, m)
  {
    var g, x, y := Gcd(a, b);
    DividesRemainder(g, a);
    exact := (a / g) * b;
    l := (a / g) * b % WORD_LIMIT;
    if a > 0 && b > 0 { LcmIsLeast(a, b, g, x, y); } else { LcmWithZero(a, b, g); }
  }

  /** Only 0 is a multiple of 0. */
  lemma LcmWithZero(a: nat, b: nat, g: nat)
    requires g > 0 && (a == 0 || b == 0)
    ensures (a / g) * b == 0 && Divides(a, 0) && Divides(b, 0)
    ensures forall m :: Divides(a, m) && Divides(b, m) ==> Divides(0, m)
  {
    assert Times(0, a) == 0 && Times(0, b) == 0;
    assert a == 0 ==> a / g == 0;
    forall m | Divides(a, m) && Divides(b, m)
      ensures Divides(0, m)
    {
      var i :| Times(i, a) == m;
      var j :| Times(j, b) == m;
      assert Times(0, 0) == m;
    }
  }

  lemma LcmIsLeast(a: nat, b: nat, g: nat, x: int, y: int)
    requires a > 0 && b > 0 && g > 0 && Divides(g, a) && Divides(g, b) && g == x * a + y * b
    ensures var l := (a / g) * b;
      l > 0 && Divides(a, l) && Divides(b, l) && forall m :: Divides(a, m) && Divides(b, m) ==> Divides(l, m)
  {
    var i :| Times(i, g) == a;
    var j :| Times(j, g) == b;
    Remainder(a, g, i, 0);
    var l := i * b;
    PositiveFactor(i, g);
    PositiveFactor(j, g);
    AtLeastOnce(i, b);
    assert Times(i, b) == l;
    Swap(i, j, g);
    assert Times(j, a) == l;
    forall m | Divides(a, m) && Divides(b, m)
      ensures Divides(l, m)
    {
      var p :| Times(p, a) == m;
      var q :| Times(q, b) == m;
      CommonMultiple(i, j, g, x, y, p, q, m);
      assert Times(x * q + y * p, l) == m;
    }
  }

  lemma PositiveFactor(i: int, g: int)
    requires g > 0 && i * g > 0
    ensures i > 0
  {
  }

  lemma Swap(i: int, j: int, g: int)
    ensures j * (i * g) == i * (j * g)
  {
  }

  lemma CommonMultiple(i: int, j: int, g: int, x: int, y: int, p: int, q: int, m: int)
    requires g > 0 && g == x * (i * g) + y * (j * g) && m == p * (i * g) && m == q * (j * g)
    ensures (x * q + y * p) * (i * (j * g)) == m
  {
    var one := x * i + y * j;
    assert one * g == x * (i * g) + y * (j * g);
    assert one == 1 by { assert (one - 1) * g == 0; if one > 1 { AtLeastOnce(one - 1, g); } if one < 1 { AtLeastOnce(1 - one, g); } }
    assert (x * q) * (i * (j * g)) == (x * i) * (q * (j * g));
    assert (y * p) * (i * (j * g)) == (y * j) * (p * (i * g));
    assert (x * i) * m + (y * j) * m == one * m;
  }

  // ----- Searching a bitmap word -----

  lemma BitTest(w: nat, i: nat)
    ensures And(w, ShiftedOne(i)) != 0 <==> Bit(w, i)
  {
    BitAnd(w, Pow2(i), i);
    BitPow2(i, i);
    if Bit(w, i) { BitZero(i); }
    else {
      forall k: nat
        ensures Bit(And(w, Pow2(i)), k) <==> Bit(0, k)
      {
        BitAnd(w, Pow2(i), k);
        BitPow2(i, k);
        BitZero(k);
      }
      SameBits(And(w, Pow2(i)), 0);
    }
  }

  /** A word other than all ones has a clear bit; the lowest one is found. */
  method FindFirstZeroBit(value: nat) returns (index: nat)
    requires value < WORD_LIMIT - 1
    ensures index < 64 && !Bit(value, index)
    ensures forall i: nat :: i < index ==> Bit(value, i)
  {
    index := 0;
    Pow2Word();
    if forall i: nat :: i < 64 ==> Bit(value, i) {
      AllOnes(value, 64, 64);
    }
    BitTest(value, index);
    while And(value, ShiftedOne(index)) != 0
      invariant index < 64 && forall i: nat :: i < index ==> Bit(value, i)
      invariant And(value, ShiftedOne(index)) != 0 <==> Bit(value, index)
      decreases 64 - index
    {
      index := index + 1;
      BitTest(value, index);
    }
  }
}
