/** Conversion of a word to a single-precision float: 24 significant bits, rounded to nearest, ties to even. */
module Floats {
  import opened MathBits

  /** The distance of neighbouring floats around `c`. */
  function Ulp(c: nat): (u: nat)
    ensures u > 0
  {
    if c < 0x100_0000 then 1 else 2 * Ulp(c / 2)
  }

  /** The multiple of `u` nearest to `q * u + r`. */
  function Nearest(q: nat, r: nat, u: nat): nat {
    if 2 * r < u || (2 * r == u && q % 2 == 0) then q * u else (q + 1) * u
  }

  /** The float nearest to `c`. */
  function Rounded(c: nat): nat {
    var u := Ulp(c);
    QuotientIsNat(c, u);
    Nearest(c / u, c % u, u)
  }

  lemma QuotientIsNat(c: nat, u: nat)
    requires u > 0
    ensures c / u >= 0 && 0 <= c % u < u && c == c / u * u + c % u
  {
    var q := c / u;
    assert c == q * u + c % u;
    if q < 0 { MultiplesOrdered(q, -1, u); }
  }

  /** The distance is a power of two and leaves 24 bits. */
  lemma {:induction false} UlpIsPow2(c: nat, m: nat)
    requires Pow2(m) <= c < Pow2(m + 1)
    ensures Ulp(c) == if m < 24 then 1 else Pow2(m - 23)
  {
    Pow2Of24();
    if m >= 24 {
      Pow2Monotone(24, m);
      if m == 24 {
        assert c / 2 < Pow2(24);
        assert Pow2(1) == 2;
      } else {
        UlpIsPow2(c / 2, m - 1);
      }
    } else {
      Pow2Monotone(m + 1, 24);
    }
  }

  lemma Pow2Of24()
    ensures Pow2(24) == 0x100_0000
  {
    assert Pow2(8) == 0x100;
    assert Pow2(16) == 0x1_0000;
  }

  /** A natural number that is a float. */
  ghost predicate IsFloat(x: nat) { Divides(Ulp(x), x) }

  /** Rounding to a multiple of `u` does not step over a multiple of `u`. */
  lemma RoundedBetween(c: nat, b: nat)
    requires Divides(Ulp(c), b)
    ensures b <= c ==> b <= Rounded(c)
    ensures c <= b ==> Rounded(c) <= b
  {
    var u := Ulp(c);
    var q, r := c / u, c % u;
    assert c == q * u + r;
    var t :| Times(t, u) == b;
    assert (q + 1) * u == q * u + u;
    assert (q - t) * u == q * u - b && (t - q - 1) * u == b - q * u - u;
    if t > q { MultiplesOrdered(0, t - q - 1, u); } else { MultiplesOrdered(0, q - t, u); }
    if t == q { assert b == q * u; }
    if t >= q + 2 { AtLeastOnce(t - q - 1, u); }
    if t < q { AtLeastOnce(q - t, u); }
  }

  /** The binade of a positive number. */
  lemma Binade(c: nat) returns (m: nat)
    requires c > 0
    ensures Pow2(m) <= c < Pow2(m + 1)
  {
    var n := HighestBit(c);
    m := n - 1;
  }

  lemma {:induction false} Pow2Divides(e: nat, m: nat)
    requires e <= m
    ensures Divides(Pow2(e), Pow2(m))
  {
    Pow2Add(m - e, e);
    assert Times(Pow2(m - e), Pow2(e)) == Pow2(m);
  }

  /** Powers of two from the binade of `c` on are multiples of the distance. */
  lemma UlpDividesPow2(c: nat, m: nat, j: nat)
    requires Pow2(m) <= c < Pow2(m + 1) && m <= j
    ensures Divides(Ulp(c), Pow2(j))
  {
    UlpIsPow2(c, m);
    if m < 24 { assert Times(Pow2(j), 1) == Pow2(j); } else { Pow2Divides(m - 23, j); }
  }

  /** Rounding does not step over a power of two. */
  lemma RoundedAtPow2(c: nat, k: nat)
    ensures Pow2(k) <= c ==> Pow2(k) <= Rounded(c)
    ensures c <= Pow2(k) ==> Rounded(c) <= Pow2(k)
  {
    if c > 0 {
      var m := Binade(c);
      if k >= m {
        UlpDividesPow2(c, m, k);
        RoundedBetween(c, Pow2(k));
        if k > m { Pow2Monotone(m + 1, k); }
      } else {
        Pow2Monotone(k, m);
        UlpDividesPow2(c, m, m);
        RoundedBetween(c, Pow2(m));
      }
    }
  }

  /** Rounding at most doubles. */
  lemma RoundedBelow(c: nat)
    ensures Rounded(c) <= 2 * c
  {
    if c > 0 {
      var m := Binade(c);
      RoundedAtPow2(c, m + 1);
    }
  }

  /** One more than a power of two is a float up to 2^24, and is rounded down from there on. */
  lemma RoundedNext(k: nat)
    ensures Rounded(Pow2(k) + 1) == if k < 24 then Pow2(k) + 1 else Pow2(k)
  {
    hide Rounded;
    if k < 24 {
      Pow2Of24();
      Pow2Monotone(k, 23);
      assert Pow2(24) == 2 * Pow2(23);
      RoundedSmall(Pow2(k) + 1);
    } else {
      RoundedNextLarge(k);
    }
  }

  lemma RoundedSmall(c: nat)
    requires c < 0x100_0000
    ensures Rounded(c) == c
  {
  }

  lemma RoundedNextLarge(k: nat)
    requires k >= 24
    ensures Rounded(Pow2(k) + 1) == Pow2(k)
  {
    assert Pow2(k) + 1 < Pow2(k + 1) by { assert Pow2(k + 1) == 2 * Pow2(k); }
    UlpIsPow2(Pow2(k) + 1, k);
    RoundedDown(k);
    hide Pow2, Ulp;
  }

  lemma RoundedDown(k: nat)
    requires k >= 24
    ensures var c, u := Pow2(k) + 1, Pow2(k - 23); c / u * u == Pow2(k) && c % u == 1 && c / u % 2 == 0 && u >= 2
  {
    assert Pow2(1) == 2;
    Pow2Monotone(1, k - 23);
    Pow2Add(23, k - 23);
    OnePast(Pow2(22), Pow2(23), Pow2(k - 23), Pow2(k));
  }

  lemma OnePast(half: nat, q: nat, u: nat, product: nat)
    requires u >= 2 && product == q * u && q == 2 * half
    ensures (product + 1) / u * u == product && (product + 1) % u == 1 && (product + 1) / u % 2 == 0
  {
    Remainder(product + 1, u, q, 1);
  }

  /** Rounding keeps the order. */
  lemma RoundedMonotone(a: nat, b: nat)
    requires a <= b
    ensures Rounded(a) <= Rounded(b)
  {
    if a > 0 {
      var m := Binade(a);
      if b < Pow2(m + 1) {
        UlpIsPow2(a, m);
        UlpIsPow2(b, m);
        SameUlp(a, b);
      } else {
        RoundedAtPow2(a, m + 1);
        RoundedAtPow2(b, m + 1);
      }
    } else {
      assert Rounded(a) == 0;
    }
  }

  lemma SameUlp(a: nat, b: nat)
    requires a <= b && Ulp(a) == Ulp(b)
    ensures Rounded(a) <= Rounded(b)
  {
    hide Nearest, Ulp;
    var u := Ulp(a);
    QuotientIsNat(a, u);
    QuotientIsNat(b, u);
    QuotientsOrdered(a, b, u);
    if a / u < b / u {
      var x: nat := b / u * u;
      assert Times(b / u, u) == x;
      RoundedBetween(a, x);
      RoundedBetween(b, x);
    } else {
      NearestMonotone(a / u, a % u, b % u, u);
    }
  }

  lemma NearestMonotone(q: nat, r: nat, s: nat, u: nat)
    requires r <= s
    ensures Nearest(q, r, u) <= Nearest(q, s, u)
  {
    MultiplesOrdered(q, q + 1, u);
  }

  lemma QuotientsOrdered(a: nat, b: nat, u: nat)
    requires a <= b && u > 0
    ensures a / u <= b / u && b / u * u <= b
    ensures a / u < b / u ==> a <= b / u * u
    ensures a / u == b / u ==> a % u <= b % u
  {
    var p, q := a / u, b / u;
    assert a == p * u + a % u && b == q * u + b % u;
    if p > q {
      MultiplesOrdered(q + 1, p, u);
    } else if p < q {
      MultiplesOrdered(p + 1, q, u);
    }
  }

  /** No float is nearer. */
  lemma RoundedNearest(c: nat, x: nat)
    requires IsFloat(x)
    ensures var d, e := Rounded(c) - c, x - c; (if d < 0 then -d else d) <= (if e < 0 then -e else e)
  {
    if c > 0 {
      var m := Binade(c);
      if x >= Pow2(m) {
        var j := Binade(x);
        if j < m { Pow2Monotone(j + 1, m); }
        UlpIsPow2(c, m);
        UlpIsPow2(x, j);
        UlpsDivide(m, j);
        DividesTwice(Ulp(c), Ulp(x), x);
        NearestMultiple(c, x);
      } else {
        UlpDividesPow2(c, m, m);
        NearestMultiple(c, Pow2(m));
      }
    } else {
      assert Rounded(c) == 0;
    }
  }

  lemma UlpsDivide(m: nat, j: nat)
    requires m <= j
    ensures Divides(if m < 24 then 1 else Pow2(m - 23), if j < 24 then 1 else Pow2(j - 23))
  {
    if m < 24 {
      var x := if j < 24 then 1 else Pow2(j - 23);
      assert Times(x, 1) == x;
    } else {
      Pow2Divides(m - 23, j - 23);
    }
  }

  lemma DividesTwice(a: int, b: int, c: int)
    requires Divides(a, b) && Divides(b, c)
    ensures Divides(a, c)
  {
    var i :| Times(i, a) == b;
    var j :| Times(j, b) == c;
    assert Times(j * i, a) == j * (i * a);
  }

  lemma NearestMultiple(c: nat, x: nat)
    requires Divides(Ulp(c), x)
    ensures var d, e := Rounded(c) - c, x - c; (if d < 0 then -d else d) <= (if e < 0 then -e else e)
  {
    var u := Ulp(c);
    var q, r := c / u, c % u;
    assert c == q * u + r;
    var t :| Times(t, u) == x;
    assert (q + 1) * u == q * u + u;
    assert (q - t) * u == q * u - x && (t - q - 1) * u == x - q * u - u;
    if t > q { MultiplesOrdered(0, t - q - 1, u); } else { MultiplesOrdered(0, q - t, u); }
  }

  lemma RoundedIsFloat(c: nat)
    ensures IsFloat(Rounded(c))
  {
    var u := Ulp(c);
    var r := Rounded(c);
    assert Times(if r == (c / u) * u then c / u else c / u + 1, u) == r;
    if c > 0 {
      var m := Binade(c);
      UlpIsPow2(c, m);
      RoundedAtPow2(c, m);
      RoundedAtPow2(c, m + 1);
      if r < Pow2(m + 1) {
        UlpIsPow2(r, m);
      } else {
        assert Pow2(m + 2) == 2 * Pow2(m + 1);
        UlpDividesPow2(r, m + 1, m + 1);
      }
    } else {
      assert r == 0 && Times(0, Ulp(0)) == 0;
    }
  }
}
