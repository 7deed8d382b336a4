/** Bitwise operations of unsigned integers, on natural numbers. */
module Bits {

  function And(x: nat, y: nat): nat {
    if x == 0 || y == 0 then 0 else (if x % 2 == 1 && y % 2 == 1 then 1 else 0) + 2 * And(x / 2, y / 2)
  }

  function Xor(x: nat, y: nat): nat {
    if x == 0 then y else if y == 0 then x
    else (if x % 2 != y % 2 then 1 else 0) + 2 * Xor(x / 2, y / 2)
  }

  predicate IsPow2(p: nat) {
    p == 1 || (p > 1 && p % 2 == 0 && IsPow2(p / 2))
  }

  lemma DoubleIsPow2(p: nat)
    requires IsPow2(p)
    ensures IsPow2(2 * p)
  {
    assert 2 * p / 2 == p;
  }

  lemma {:induction false} AndAtMost(x: nat, y: nat)
    ensures And(x, y) <= y
  {
    if x != 0 && y != 0 {
      AndAtMost(x / 2, y / 2);
    }
  }

  lemma OddHalf(p: nat)
    requires p > 0
    ensures (2 * p - 1) % 2 == 1 && (2 * p - 1) / 2 == p - 1
  {
  }

  lemma AndOdd(x: nat, p: nat)
    requires p > 0 && x > 0
    ensures And(x, 2 * p - 1) == x % 2 + 2 * And(x / 2, p - 1)
  {
    OddHalf(p);
  }

  lemma MaskStep(x: nat, p: nat)
    requires p > 0 && x > 0 && And(x / 2, p - 1) == x / 2 % p
    ensures And(x, 2 * p - 1) == x % (2 * p)
  {
    AndOdd(x, p);
    RemainderOfHalf(x, p);
  }

  lemma RemainderOfHalf(x: nat, p: nat)
    requires p > 0
    ensures x % (2 * p) == x % 2 + 2 * (x / 2 % p)
  {
    var q, r := x / 2 / p, x / 2 % p;
    assert x == 2 * (p * q + r) + x % 2;
    assert x == (2 * p) * q + (2 * r + x % 2);
    RemainderIs(x, 2 * p, q, 2 * r + x % 2);
  }

  lemma Multiple(d: int, m: int)
    requires m >= 0
    ensures d >= 1 ==> d * m >= m
    ensures d <= -1 ==> d * m <= -m
  {
  }

  lemma RemainderIs(x: nat, m: nat, q: nat, r: nat)
    requires m > 0 && x == m * q + r && r < m
    ensures x % m == r
  {
    var d: int := x / m - q;
    assert d * m + x % m == r;
    Multiple(d, m);
  }

  /** Masking with one less than a power of two is the remainder by it. */
  lemma {:induction false} MaskIsRemainder(x: nat, p: nat)
    requires IsPow2(p)
    ensures And(x, p - 1) == x % p
    decreases p
  {
    if x == 0 || p == 1 {
      NoRemainder(x, p);
    } else {
      var h := p / 2;
      MaskIsRemainder(x / 2, h);
      assert p == 2 * h;
      MaskStep(x, h);
    }
  }

  lemma NoRemainder(x: nat, p: nat)
    requires p > 0 && (x == 0 || p == 1)
    ensures x % p == 0
  {
  }

  // ---------- What the operations do to each bit ----------

  /** Bit `k` of a number. */
  function Bit(x: nat, k: nat): (b: nat)
    ensures b < 2
  {
    if k == 0 then x % 2 else Bit(x / 2, k - 1)
  }

  lemma NoBits(k: nat)
    ensures Bit(0, k) == 0
  {
  }

  lemma {:induction false} AndBits(x: nat, y: nat, k: nat)
    ensures Bit(And(x, y), k) == if Bit(x, k) == 1 && Bit(y, k) == 1 then 1 else 0
  {
    if x == 0 || y == 0 {
      NoBits(k);
    } else if k > 0 {
      assert And(x, y) / 2 == And(x / 2, y / 2);
      AndBits(x / 2, y / 2, k - 1);
    }
  }

  lemma {:induction false} XorBits(x: nat, y: nat, k: nat)
    ensures Bit(Xor(x, y), k) == if Bit(x, k) != Bit(y, k) then 1 else 0
  {
    if x == 0 || y == 0 {
      NoBits(k);
    } else if k > 0 {
      assert Xor(x, y) / 2 == Xor(x / 2, y / 2);
      XorBits(x / 2, y / 2, k - 1);
    }
  }

  /** A word that two words make stays a word. */
  lemma {:induction false} XorStaysBelow(x: nat, y: nat, p: nat)
    requires IsPow2(p) && x < p && y < p
    ensures Xor(x, y) < p
    decreases p
  {
    if x > 0 && y > 0 {
      XorStaysBelow(x / 2, y / 2, p / 2);
    }
  }
}
