/** Bitwise operations on numbers, and what masking with a complement comes to. */
module Masks {
  import opened Bytes
  import opened Basics

  /** x & y */
  function And(x: nat, y: nat): nat {
    if x == 0 then 0 else (if x % 2 == 1 && y % 2 == 1 then 1 else 0) + 2 * And(x / 2, y / 2)
  }

  /** ~m in a word of w bits */
  function Not(m: nat, w: nat): nat
    requires m < Pow2(w)
  {
    Pow2(w) - 1 - m
  }

  /** x & ~m, in every word that is wide enough for x */
  function AndNot(x: nat, m: nat): nat {
    if x == 0 then 0 else (if x % 2 == 1 && m % 2 == 0 then 1 else 0) + 2 * AndNot(x / 2, m / 2)
  }

  /** The width of the word does not matter as long as both numbers fit. */
  lemma {:induction false} AndNotIsMask(x: nat, m: nat, w: nat)
    requires x < Pow2(w) && m < Pow2(w)
    ensures And(x, Not(m, w)) == AndNot(x, m)
    decreases w
  {
    if x != 0 {
      var n := Not(m, w);
      assert Pow2(w) == 2 * Pow2(w - 1);
      assert n % 2 == 1 - m % 2 && n / 2 == Not(m / 2, w - 1);
      AndNotIsMask(x / 2, m / 2, w - 1);
    }
  }

  /** Masking off the low k bits rounds down to a multiple of 2^k. */
  lemma {:induction false} MaskRoundsDown(x: nat, k: nat)
    ensures AndNot(x, Pow2(k) - 1) == x - x % Pow2(k)
    decreases k
  {
    if k == 0 {
      AndNotZero(x);
    } else {
      MaskRoundsDown(x / 2, k - 1);
      MaskNext(x, Pow2(k - 1), Pow2(k));
    }
  }

  lemma MaskNext(x: nat, p: nat, d: nat)
    requires p > 0 && d == 2 * p && AndNot(x / 2, p - 1) == x / 2 - x / 2 % p
    ensures AndNot(x, d - 1) == x - x % d
  {
    MaskHalf(x, p);
    ModDouble(x, p);
  }

  lemma {:induction false} AndNotZero(x: nat)
    ensures AndNot(x, 0) == x
  {
    if x != 0 {
      AndNotZero(x / 2);
    }
  }

  lemma MaskHalf(x: nat, p: nat)
    requires p > 0
    ensures AndNot(x, 2 * p - 1) == 2 * AndNot(x / 2, p - 1)
  {
    assert (2 * p - 1) % 2 == 1 && (2 * p - 1) / 2 == p - 1;
  }

  lemma ModDouble(x: nat, p: nat)
    requires p > 0
    ensures x % (2 * p) == 2 * (x / 2 % p) + x % 2
  {
    var q, r := x / 2 / p, x / 2 % p;
    assert x / 2 == p * q + r;
    assert x == 2 * p * q + (2 * r + x % 2) by {
      assert 2 * (p * q) == 2 * p * q;
    }
    RemainderIs(x, 2 * p, q, 2 * r + x % 2);
  }

  lemma RemainderIs(x: nat, d: nat, q: nat, r: nat)
    requires r < d && x == d * q + r
    ensures x % d == r
  {
    var q', r' := x / d, x % d;
    assert x == d * q' + r';
    if q' < q {
      Below(d, q', q);
    } else if q < q' {
      Below(d, q, q');
    }
  }

  lemma {:induction false} Below(d: nat, a: nat, b: nat)
    requires a < b
    ensures d * a + d <= d * b
    decreases b
  {
    MulSucc(d, b - 1);
    if a < b - 1 {
      Below(d, a, b - 1);
    }
  }
}
