/** Bitwise operations on naturals, as unsigned machine words use them. */
module Bits {
  import Wire

  function And(a: nat, b: nat): (r: nat)
    ensures r <= a && r <= b
  {
    if a == 0 || b == 0 then 0
    else 2 * And(a / 2, b / 2) + (if a % 2 == 1 && b % 2 == 1 then 1 else 0)
  }

  function Xor(a: nat, b: nat): (r: nat)
    decreases a + b
  {
    if a == 0 && b == 0 then 0
    else 2 * Xor(a / 2, b / 2) + (if a % 2 != b % 2 then 1 else 0)
  }

  function Pow2(k: nat): (p: nat)
    ensures p > 0
  {
    if k == 0 then 1 else 2 * Pow2(k - 1)
  }

  ghost predicate IsPow2(n: nat)
  {
    exists k: nat :: n == Pow2(k)
  }

  lemma AndOddMask(x: nat, p: nat)
    requires p > 0
    ensures And(x, 2 * p - 1) == 2 * And(x / 2, p - 1) + x % 2
  {
    assert (2 * p - 1) / 2 == p - 1 && (2 * p - 1) % 2 == 1;
  }

  /** Masking with one less than a power of two is reduction modulo that power. */
  lemma {:induction false} MaskIsMod(x: nat, k: nat)
    ensures And(x, Pow2(k) - 1) == x % Pow2(k)
    decreases k
  {
    hide And;
    if k == 0 {
      AndZero(x);
    } else {
      var p := Pow2(k - 1);
      MaskIsMod(x / 2, k - 1);
      AndOddMask(x, p);
      HalfMod(x, p);
    }
  }

  lemma AndZero(x: nat)
    ensures And(x, 0) == 0
  {
  }

  lemma HalfMod(x: nat, p: nat)
    requires p > 0
    ensures x % (2 * p) == 2 * (x / 2 % p) + x % 2
  {
    var q, r := x / 2 / p, x / 2 % p;
    assert x / 2 == p * q + r;
    assert x == (2 * p) * q + (2 * r + x % 2);
    Wire.DivModUnique(x, 2 * p, q, 2 * r + x % 2);
  }

  /** Exclusive or stays within a word. */
  lemma {:induction false} XorBound(a: nat, b: nat, k: nat)
    requires a < Pow2(k) && b < Pow2(k)
    ensures Xor(a, b) < Pow2(k)
    decreases k
  {
    if a == 0 && b == 0 {
    } else {
      XorBound(a / 2, b / 2, k - 1);
    }
  }

  /** The highest set bit of `mask`, or 0. */
  function HighestBit(mask: nat): (r: nat)
    ensures r <= mask
  {
    if mask == 0 then 0 else if mask == 1 then 1 else 2 * HighestBit(mask / 2)
  }

  /** It is one bit, it is set in the mask, and nothing above it is. */
  lemma {:induction false} HighestBitMeaning(mask: nat)
    requires mask > 0
    ensures IsPow2(HighestBit(mask))
    ensures And(HighestBit(mask), mask) == HighestBit(mask)
    ensures mask < 2 * HighestBit(mask)
  {
    if mask == 1 {
      assert 1 == Pow2(0);
    } else {
      HighestBitMeaning(mask / 2);
      var k: nat :| HighestBit(mask / 2) == Pow2(k);
      assert HighestBit(mask) == Pow2(k + 1);
    }
  }
}
