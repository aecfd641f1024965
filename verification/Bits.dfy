/** Bitwise and on unsigned integers, and powers of two. */
module Bits {

  import opened Arithmetic

  /** x & y. */
  function And(x: nat, y: nat): (r: nat)
    ensures r <= x && r <= y
  {
    if x == 0 || y == 0 then 0 else 2 * And(x / 2, y / 2) + (x % 2) * (y % 2)
  }

  function Pow2(k: nat): (r: nat)
    ensures r > 0
  {
    if k == 0 then 1 else 2 * Pow2(k - 1)
  }

  ghost predicate IsPow2(x: nat) {
    exists k: nat :: x == Pow2(k)
  }

  /** turn_off_least_1bit. */
  function ClearLow(x: nat): (r: nat)
    requires x > 0
    ensures r < x
  {
    And(x, x - 1)
  }

  lemma {:induction false} AndSelf(x: nat)
    ensures And(x, x) == x
  {
    if x > 0 { AndSelf(x / 2); }
  }

  lemma ClearLowOdd(x: nat)
    requires x % 2 == 1
    ensures ClearLow(x) == x - 1
  {
    if x > 1 {
      assert (x - 1) / 2 == x / 2;
      AndSelf(x / 2);
    }
  }

  lemma ClearLowEven(x: nat)
    requires x > 0 && x % 2 == 0
    ensures ClearLow(x) == 2 * ClearLow(x / 2)
  {
    assert (x - 1) / 2 == x / 2 - 1;
  }

  /** Only a power of two has a single bit. */
  lemma {:induction false} ClearLowZero(x: nat)
    requires x > 0
    ensures ClearLow(x) == 0 <==> IsPow2(x)
  {
    if x % 2 == 1 {
      ClearLowOdd(x);
      assert Pow2(0) == 1;
      if k: nat :| x == Pow2(k) { assert k == 0; }
    } else {
      ClearLowEven(x);
      ClearLowZero(x / 2);
      if k: nat :| x / 2 == Pow2(k) { assert x == Pow2(k + 1); }
      if k: nat :| x == Pow2(k) { assert x / 2 == Pow2(k - 1); }
    }
  }

  /** The largest power of two that is not above `x`. */
  function Top(x: nat): (r: nat)
    requires x > 0
    ensures r <= x < 2 * r
  {
    if x == 1 then 1 else 2 * Top(x / 2)
  }

  lemma {:induction false} TopLargest(x: nat, k: nat)
    requires x > 0 && Pow2(k) <= x
    ensures Pow2(k) <= Top(x)
  {
    if k > 0 { TopLargest(x / 2, k - 1); }
  }

  lemma TopHalves(x: nat, y: nat)
    requires x > 1 && y > 1 && x / 2 == y / 2
    ensures Top(x) == Top(y)
  {
  }

  lemma TopHalf(x: nat)
    requires x > 1
    ensures Top(x) == 2 * Top(x / 2)
  {
  }

  /** Clearing the lowest of several bits keeps the top one. */
  lemma {:induction false} ClearLowTop(x: nat)
    requires x > 0 && ClearLow(x) > 0
    ensures Top(ClearLow(x)) == Top(x)
  {
    hide And, ClearLow, Top;
    if x % 2 == 1 {
      ClearLowOdd(x);
      TopHalves(x, x - 1);
    } else {
      ClearLowEven(x);
      ClearLowTop(x / 2);
      TopHalf(ClearLow(x));
      TopHalf(x);
    }
  }

  lemma {:induction false} TopOfPow2(k: nat)
    ensures Top(Pow2(k)) == Pow2(k)
  {
    if k > 0 { TopOfPow2(k - 1); }
  }

  lemma AndHalves(x: nat, y: nat)
    requires x > 0 && y % 2 == 1
    ensures And(x, y) == 2 * And(x / 2, y / 2) + x % 2
  {
  }

  lemma OneLess(k: nat)
    requires k > 0
    ensures Pow2(k) == 2 * Pow2(k - 1)
    ensures (Pow2(k) - 1) / 2 == Pow2(k - 1) - 1 && (Pow2(k) - 1) % 2 == 1
  {
  }

  lemma MaskStep(h: nat, k: nat)
    requires h > 0 && k > 0 && And(h / 2, Pow2(k - 1) - 1) == h / 2 % Pow2(k - 1)
    ensures And(h, Pow2(k) - 1) == h % Pow2(k)
  {
    OneLess(k);
    AndHalves(h, Pow2(k) - 1);
    HalfMod(h, Pow2(k - 1));
    hide And, Pow2;
    assert And(h, Pow2(k) - 1) == 2 * (h / 2 % Pow2(k - 1)) + h % 2;
  }

  /** Masking with one less than a power of two is the remainder. */
  lemma {:induction false} AndMask(h: nat, k: nat)
    ensures And(h, Pow2(k) - 1) == h % Pow2(k)
  {
    if k == 0 {
      assert Pow2(k) == 1;
    } else if h == 0 {
      DivUnique(0, Pow2(k), 0, 0);
    } else {
      AndMask(h / 2, k - 1);
      MaskStep(h, k);
      hide And, Pow2;
    }
  }

  lemma HalfMod(h: nat, m: nat)
    requires m > 0
    ensures h % (2 * m) == 2 * ((h / 2) % m) + h % 2
  {
    var q, r := (h / 2) / m, (h / 2) % m;
    assert h == 2 * (q * m + r) + h % 2;
    DivUnique(h, 2 * m, q, 2 * r + h % 2);
  }
}
