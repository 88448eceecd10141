/** Rounding up to a power of two by smearing the highest bit downwards. */
module PowerOfTwo {
  import opened Bits

  function Or(a: nat, b: nat): (r: nat)
    ensures r >= a && r >= b
    decreases a + b
  {
    if a == 0 then b else if b == 0 then a
    else 2 * Or(a / 2, b / 2) + (if a % 2 == 1 || b % 2 == 1 then 1 else 0)
  }

  lemma QuotientNonNegative(v: nat, d: nat)
    requires d > 0
    ensures v / d >= 0
  {
  }

  /** Logical right shift. */
  function Shr(v: nat, j: nat): nat
  {
    QuotientNonNegative(v, Pow2(j));
    v / Pow2(j)
  }

  /** The smallest power of two not below `n`, between 16 and 2^31, computed as the
      client does: smear the highest bit of `n - 1` to the right, then add one. */
  function NextPowerOf2(n: nat): nat
  {
    if n < 16 then 16
    else if n > 0x8000_0000 then 0x8000_0000
    else
      var v0 := n - 1;
      var v1 := Or(v0, Shr(v0, 1));
      var v2 := Or(v1, Shr(v1, 2));
      var v3 := Or(v2, Shr(v2, 4));
      var v4 := Or(v3, Shr(v3, 8));
      var v5 := Or(v4, Shr(v4, 16));
      v5 + 1
  }

  lemma {:induction false} Pow2Add(a: nat, b: nat)
    ensures Pow2(a + b) == Pow2(a) * Pow2(b)
  {
    if a > 0 {
      Pow2Add(a - 1, b);
      assert Pow2(a) * Pow2(b) == 2 * (Pow2(a - 1) * Pow2(b));
    }
  }

  lemma {:induction false} Pow2Monotone(a: nat, b: nat)
    requires a <= b
    ensures Pow2(a) <= Pow2(b)
    decreases b - a
  {
    if a < b {
      Pow2Monotone(a, b - 1);
    }
  }

  lemma {:induction false} OrBound(a: nat, b: nat, m: nat)
    requires a < Pow2(m) && b < Pow2(m)
    ensures Or(a, b) < Pow2(m)
    decreases m
  {
    if a > 0 && b > 0 {
      OrBound(a / 2, b / 2, m - 1);
    }
  }

  lemma OrHalves(a: nat, b: nat)
    ensures Or(a, b) == 2 * Or(a / 2, b / 2) + (if a % 2 == 1 || b % 2 == 1 then 1 else 0)
  {
  }

  /** Bits above position `m` are untouched by or-ing something below it. */
  lemma {:induction false} OrLow(hi: nat, lo: nat, x: nat, m: nat)
    requires lo < Pow2(m) && x < Pow2(m)
    ensures Or(hi * Pow2(m) + lo, x) == hi * Pow2(m) + Or(lo, x)
    decreases m
  {
    hide Or, Pow2;
    if m == 0 {
      OrNothing(hi, lo, x);
    } else {
      Halved(hi, lo, x, m);
      OrLow(hi, lo / 2, x / 2, m - 1);
      OrDoubled(hi * Pow2(m - 1), lo, x);
    }
  }

  lemma OrNothing(hi: nat, lo: nat, x: nat)
    requires lo < Pow2(0) && x < Pow2(0)
    ensures Or(hi * Pow2(0) + lo, x) == hi * Pow2(0) + Or(lo, x)
  {
  }

  lemma Halved(hi: nat, lo: nat, x: nat, m: nat)
    requires m > 0 && lo < Pow2(m) && x < Pow2(m)
    ensures lo / 2 < Pow2(m - 1) && x / 2 < Pow2(m - 1)
    ensures hi * Pow2(m) == 2 * (hi * Pow2(m - 1))
  {
    var p := Pow2(m - 1);
    assert Pow2(m) == 2 * p;
    assert hi * (2 * p) == 2 * (hi * p);
  }

  lemma OrDoubled(t: nat, lo: nat, x: nat)
    requires Or(t + lo / 2, x / 2) == t + Or(lo / 2, x / 2)
    ensures Or(2 * t + lo, x) == 2 * t + Or(lo, x)
  {
    hide Or;
    OrHalves(2 * t + lo, x);
    OrHalves(lo, x);
    assert (2 * t + lo) / 2 == t + lo / 2 && (2 * t + lo) % 2 == lo % 2;
  }

  lemma MulStep(d: nat, a: nat, b: nat)
    ensures a <= b ==> d * a <= d * b
    ensures a < b ==> d * a + d <= d * b
  {
    if a < b {
      var c: nat := b - a - 1;
      assert d * c >= 0;
      assert d * b == d * (a + (1 + c)) == d * a + d * (1 + c) == d * a + (d + d * c);
    }
  }

  lemma DivBetween(v: nat, lo: nat, hi: nat, d: nat)
    requires d > 0 && d * lo <= v < d * hi
    ensures lo <= v / d < hi
  {
    MulStep(d, v / d, lo);
    MulStep(d, hi, v / d);
  }

  /** `v` has `len` bits and the topmost `j` of them are ones. */
  predicate TopOnes(v: nat, len: nat, j: nat)
  {
    1 <= j <= len && Pow2(len) - Pow2(len - j) <= v < Pow2(len)
  }

  lemma ShiftArith(v: nat, p: nat, d: nat, q: nat)
    requires d > 0 && q <= p <= d * q && d * p - p <= v < d * p
    ensures p - q <= v / d < p
  {
    assert d * (p - q) == d * p - d * q;
    DivBetween(v, p - q, p, d);
  }

  lemma Minus(d: nat, p: nat)
    requires d > 0
    ensures (d - 1) * p == d * p - p
  {
  }

  /** Splitting a word of leading ones at position `m`, and shifting it down by `j`. */
  lemma Shifted(v: nat, m: nat, j: nat)
    requires TopOnes(v, m + j, j)
    ensures var p, d := Pow2(m), Pow2(j);
            && Pow2(m + j) == d * p
            && (d - 1) * p <= v < (d - 1) * p + p
            && Shr(v, j) < p
            && Shr(v, j) >= if j <= m then p - Pow2(m - j) else p - 1
  {
    hide Pow2;
    Pow2Add(j, m);
    Minus(Pow2(j), Pow2(m));
    if j <= m {
      Pow2Add(j, m - j);
      Pow2Monotone(m - j, m);
      ShiftArith(v, Pow2(m), Pow2(j), Pow2(m - j));
    } else {
      Pow2Monotone(m, j);
      ShiftArith(v, Pow2(m), Pow2(j), 1);
    }
  }

  /** One smearing step doubles the run of leading ones. */
  lemma SmearStep(v: nat, len: nat, j: nat)
    requires TopOnes(v, len, j)
    ensures TopOnes(Or(v, Shr(v, j)), len, if 2 * j <= len then 2 * j else len)
  {
    hide Or, Pow2;
    var m := len - j;
    var hi, x := Pow2(j) - 1, Shr(v, j);
    Shifted(v, m, j);
    Minus(Pow2(j), Pow2(m));
    var lo := v - hi * Pow2(m);
    OrLow(hi, lo, x, m);
    OrBound(lo, x, m);
    if 2 * j > len {
      Pow2Zero();
    }
  }

  lemma Pow2Zero()
    ensures Pow2(0) == 1
  {
  }

  /** The number of bits of a positive number. */
  lemma {:induction false} BitLength(v: nat) returns (len: nat)
    requires v > 0
    ensures TopOnes(v, len, 1)
  {
    if v == 1 {
      len := 1;
    } else {
      var l := BitLength(v / 2);
      len := l + 1;
      assert Pow2(len) == 2 * Pow2(l) && Pow2(len - 1) == 2 * Pow2(l - 1);
    }
  }

  lemma Powers()
    ensures Pow2(4) == 16 && Pow2(31) == 0x8000_0000
  {
    assert Pow2(8) == 256 && Pow2(7) == 128;
    Pow2Add(8, 8);
    Pow2Add(8, 7);
    Pow2Add(16, 15);
  }

  /** A step by `j`, whether or not the word is already all ones. */
  lemma SmearBy(v: nat, len: nat, j: nat)
    requires j >= 1 && TopOnes(v, len, if j <= len then j else len)
    ensures TopOnes(Or(v, Shr(v, j)), len, if 2 * j <= len then 2 * j else len)
  {
    hide Or, TopOnes, Shr;
    if j <= len {
      SmearStep(v, len, j);
    } else {
      ShrAtMost(v, j);
      AllOnes(v, Shr(v, j), len);
    }
  }

  lemma AllOnes(v: nat, x: nat, len: nat)
    requires TopOnes(v, len, len) && x <= v
    ensures TopOnes(Or(v, x), len, len)
  {
    hide Or;
    OrBound(v, x, len);
  }

  lemma ShrAtMost(v: nat, j: nat)
    ensures Shr(v, j) <= v
  {
    MulStep(Shr(v, j), 1, Pow2(j));
  }

  /** Smearing `v` gives all ones below its highest bit. */
  lemma Smeared(v: nat, len: nat)
    requires len <= 31 && TopOnes(v, len, 1)
    ensures var v1 := Or(v, Shr(v, 1));
            var v2 := Or(v1, Shr(v1, 2));
            var v3 := Or(v2, Shr(v2, 4));
            var v4 := Or(v3, Shr(v3, 8));
            Or(v4, Shr(v4, 16)) + 1 == Pow2(len)
  {
    hide Or, Pow2, Shr;
    var v1 := Or(v, Shr(v, 1));
    SmearBy(v, len, 1);
    var v2 := Or(v1, Shr(v1, 2));
    SmearBy(v1, len, 2);
    var v3 := Or(v2, Shr(v2, 4));
    SmearBy(v2, len, 4);
    var v4 := Or(v3, Shr(v3, 8));
    SmearBy(v3, len, 8);
    SmearBy(v4, len, 16);
    Pow2Zero();
  }

  /** The result is a power of two from 16 to 2^31. Up to 2^31 it is at least `n`, and less than
      twice `n` once that allows 16; a larger `n` gets 2^31. */
  lemma NextPowerOf2Meaning(n: nat)
    ensures IsPow2(NextPowerOf2(n)) && 16 <= NextPowerOf2(n) <= 0x8000_0000
    ensures n <= 0x8000_0000 ==> n <= NextPowerOf2(n) && (n >= 16 ==> NextPowerOf2(n) < 2 * n)
    ensures n > 0x8000_0000 ==> NextPowerOf2(n) == 0x8000_0000
  {
    hide Or, Pow2, Shr;
    Powers();
    if 16 <= n <= 0x8000_0000 {
      var len := BitLength(n - 1);
      Doubling(len);
      if len > 31 {
        Pow2Monotone(31, len - 1);
      }
      Smeared(n - 1, len);
      if len < 4 {
        Pow2Monotone(len, 3);
        Doubling(4);
      } else {
        Pow2Monotone(4, len);
      }
      Pow2Monotone(len, 31);
    }
  }

  lemma Doubling(k: nat)
    requires k > 0
    ensures Pow2(k) == 2 * Pow2(k - 1)
  {
  }
}
