/** Bitwise conjunction of unbounded naturals, as Python's `&`, and the two facts the tools rely on:
    masking with one bit tests that bit, and `x & (x - 1)` is zero exactly for powers of two. */
module Bits {
  function BitAnd(a: nat, b: nat): nat
    decreases a
  {
    if a == 0 then 0 else 2 * BitAnd(a / 2, b / 2) + if a % 2 == 1 && b % 2 == 1 then 1 else 0
  }

  function Pow2(e: nat): (r: nat)
    ensures r >= 1
  {
    if e == 0 then 1 else 2 * Pow2(e - 1)
  }

  ghost predicate IsPow2(x: nat) {
    exists e: nat :: x == Pow2(e)
  }

  lemma {:induction false} BitAndZero(a: nat)
    ensures BitAnd(a, 0) == 0
    decreases a
  {
    if a != 0 {
      BitAndZero(a / 2);
    }
  }

  /** `a & (1 << e)` is non-zero exactly when bit `e` of `a` is set. */
  lemma {:induction false} BitAndTestsBit(a: nat, e: nat)
    ensures BitAnd(a, Pow2(e)) != 0 <==> a / Pow2(e) % 2 == 1
    decreases a
  {
    if a == 0 {
    } else if e == 0 {
      BitAndZero(a / 2);
      assert Pow2(0) == 1 && a / 1 == a;
    } else {
      BitAndTestsBit(a / 2, e - 1);
      HalveQuotient(a, Pow2(e - 1));
    }
  }

  lemma HalveQuotient(a: nat, p: nat)
    requires p >= 1
    ensures a / (2 * p) == a / 2 / p
  {
    var q, r := a / 2 / p, a / 2 % p;
    assert a / 2 == q * p + r;
    assert a == q * (2 * p) + (2 * r + a % 2);
    QuotientUnique(a, 2 * p, q, 2 * r + a % 2);
  }

  lemma QuotientUnique(a: nat, d: nat, q: nat, r: nat)
    requires d >= 1 && r < d && a == q * d + r
    ensures a / d == q && a % d == r
  {
    var q', r' := a / d, a % d;
    assert a == q' * d + r';
    MulDifference(q', q, d);
    if q' != q {
      MulDifference(q, q', d);
      assert false;
    }
  }

  lemma {:induction false} MulDifference(p: nat, q: nat, d: nat)
    ensures p < q ==> p * d + d <= q * d
    decreases q
  {
    if p + 1 < q {
      MulDifference(p, q - 1, d);
      assert (q - 1) * d == q * d - d;
    }
  }

  lemma DoubleIsPow2(h: nat)
    requires h >= 1
    ensures IsPow2(2 * h) <==> IsPow2(h)
  {
    if e: nat :| h == Pow2(e) {
      assert 2 * h == Pow2(e + 1);
    }
    if e: nat :| 2 * h == Pow2(e) {
      assert e > 0 && h == Pow2(e - 1);
    }
  }

  lemma OddIsNotPow2(h: nat)
    requires h >= 1
    ensures !IsPow2(2 * h + 1)
  {
    forall e: nat ensures Pow2(e) != 2 * h + 1 {
      assert e > 0 ==> Pow2(e) == 2 * Pow2(e - 1);
    }
  }

  lemma BitAndStep(a: nat, b: nat)
    ensures BitAnd(a, b) == 2 * BitAnd(a / 2, b / 2) + if a % 2 == 1 && b % 2 == 1 then 1 else 0
  {
  }

  /** Kernighan's test. */
  lemma {:induction false} ClearLowestBit(x: nat)
    requires x >= 1
    ensures BitAnd(x, x - 1) == 0 <==> IsPow2(x)
    decreases x
  {
    BitAndZero(0);
    BitAndStep(x, x - 1);
    assert Pow2(0) == 1;
    hide BitAnd, Pow2;
    var h := x / 2;
    if x % 2 == 0 {
      ClearLowestBit(h);
      assert (x - 1) / 2 == h - 1 && x == 2 * h;
      DoubleIsPow2(h);
    } else {
      assert (x - 1) / 2 == h && (x - 1) % 2 == 0 && x == 2 * h + 1;
      BitAndSelf(h);
      if h >= 1 {
        OddIsNotPow2(h);
      }
    }
  }

  lemma {:induction false} BitAndSelf(a: nat)
    ensures BitAnd(a, a) == a
    decreases a
  {
    if a != 0 {
      BitAndSelf(a / 2);
    }
  }

  /** A smaller power of two divides a larger one. */
  lemma {:induction false} Pow2Divides(e: nat, f: nat)
    requires e <= f
    ensures Pow2(f) == Pow2(f - e) * Pow2(e)
    decreases f
  {
    if e < f {
      Pow2Divides(e, f - 1);
    }
  }

  lemma {:induction false} Pow2Monotone(e: nat, f: nat)
    requires e <= f
    ensures Pow2(e) <= Pow2(f)
    decreases f
  {
    if e < f {
      Pow2Monotone(e, f - 1);
    }
  }
}
