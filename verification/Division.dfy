/** 64-bit division built from the 32-bit DIVL instruction. */
module Division {

  import opened Arithmetic
  import opened Bits

  const B31: int := 0x8000_0000
  const B32: int := 0x1_0000_0000
  const B63: int := 0x8000_0000_0000_0000
  const B64: int := 0x1_0000_0000_0000_0000

  type Word32 = w: int | 0 <= w < B32
  type Word64 = w: int | 0 <= w < B64
  type Long = n: int | -B63 <= n < B63
  type Int = n: int | -B31 <= n < B31

  /** Unsigned 64-bit arithmetic wraps around. */
  function Wrap64(x: int): (w: Word64) {
    x % B64
  }

  /** Conversion to a signed type keeps the low bits. */
  function ToLong(x: int): (n: Long) {
    var w := x % B64;
    if w < B63 then w else w - B64
  }

  function ToInt(x: int): (n: Int) {
    var w := x % B32;
    if w < B31 then w else w - B32
  }

  /** The quotient of a division that rounds toward zero. */
  function Truncated(n: int, d: int): (q: int)
    requires d != 0
  {
    if (n < 0) == (d < 0) then Abs(n) / Abs(d) else -(Abs(n) / Abs(d))
  }

  function Neg(x: int): (r: int) {
    -x
  }

  function Abs(x: int): (r: nat) {
    if x < 0 then -x else x
  }

  lemma {:induction false} PowAdd(a: nat, b: nat)
    ensures Pow2(a + b) == Pow2(a) * Pow2(b)
  {
    if a > 0 { PowAdd(a - 1, b); }
  }

  lemma PowValues()
    ensures Pow2(0) == 1 && Pow2(1) == 2 && Pow2(2) == 4 && Pow2(4) == 16 && Pow2(8) == 256 && Pow2(16) == 65536
    ensures Pow2(31) == B31 && Pow2(32) == B32 && Pow2(33) == 2 * B32
  {
    assert Pow2(2) == 2 * Pow2(1);
    PowAdd(2, 2);
    PowAdd(4, 4);
    PowAdd(8, 8);
    PowAdd(16, 16);
    assert Pow2(33) == 2 * Pow2(32) && Pow2(32) == 2 * Pow2(31);
  }

  /** The DIVL instruction, which traps when the quotient needs more than 32 bits. */
  function Divl(n: Word64, d: Word32): (q: Word32)
    requires d != 0 && n / d < B32
  {
    n / d
  }

  /** nlz: shifts `x` up in halving steps; `n` leading zeros bring it to the top. */
  method Nlz(x0: Word32) returns (n: nat)
    requires x0 != 0
    ensures n <= 31 && B31 <= x0 * Pow2(n) < B32
  {
    PowValues();
    hide Pow2;
    n := 0;
    var x := x0;
    if x <= 0x0000_FFFF { n := n + 16; x := x * 65536; }
    assert x == x0 * Pow2(n) && x >= 0x0001_0000;
    ghost var n1 := n;
    if x <= 0x00FF_FFFF { n := n + 8; x := x * 256; PowStep(x0, n1, 8); }
    assert x == x0 * Pow2(n) && x >= 0x0100_0000;
    ghost var n2 := n;
    if x <= 0x0FFF_FFFF { n := n + 4; x := x * 16; PowStep(x0, n2, 4); }
    assert x == x0 * Pow2(n) && x >= 0x1000_0000;
    ghost var n3 := n;
    if x <= 0x3FFF_FFFF { n := n + 2; x := x * 4; PowStep(x0, n3, 2); }
    assert x == x0 * Pow2(n) && x >= 0x4000_0000;
    ghost var n4 := n;
    if x <= 0x7FFF_FFFF { n := n + 1; PowStep(x0, n4, 1); }
  }

  lemma PowStep(x: int, n: nat, k: nat)
    ensures x * Pow2(n + k) == x * Pow2(n) * Pow2(k)
  {
    PowAdd(n, k);
    assert x * (Pow2(n) * Pow2(k)) == x * Pow2(n) * Pow2(k);
  }

  /** The low part divided, when the high part leaves less than the divisor. */
  lemma LowQuotient(r: int, n0: int, d: int)
    requires 0 <= r < d < B32 && 0 <= n0 < B32
    ensures 0 <= B32 * r + n0 < B64 && (B32 * r + n0) / d < B32
  {
    var m := B32 * r + n0;
    MulMono(r, d - 1, B32);
    assert m < B32 * d;
    MulMono(d, B32, B32);
    var q := m / d;
    assert q * d <= m;
    if q >= B32 { MulMono(B32, q, d); }
  }

  lemma AddQuotients(n: int, d: int, u: int, m: int)
    requires d > 0 && n == u * d + m
    ensures m / d + u == n / d
  {
    var q := m / d;
    assert (q + u) * d == q * d + u * d;
    assert (q + u + 1) * d == (q + 1) * d + u * d;
    DivIs(n, d, q + u);
  }

  /** The comment in the code: splitting `n` at 32 bits when the divisor has 32. */
  lemma SmallDivisor(n: int, d: int)
    requires 0 <= n < B64 && 0 < d < B32
    ensures var n1, n0 := n / B32, n % B32;
            && 0 <= B32 * (n1 % d) + n0 < B64
            && (B32 * (n1 % d) + n0) / d < B32
            && (B32 * (n1 % d) + n0) / d + B32 * (n1 / d) == n / d
  {
    var n1, n0 := n / B32, n % B32;
    LowQuotient(n1 % d, n0, d);
    assert n1 == n1 / d * d + n1 % d;
    assert n == B32 * (n1 / d) * d + (B32 * (n1 % d) + n0);
    AddQuotients(n, d, B32 * (n1 / d), B32 * (n1 % d) + n0);
  }

  lemma Distribute(a: int, b: int, c: int)
    ensures a * (b + c) == a * b + a * c
  {
  }

  /** Dividing by a little less than `d` gives the quotient or one more, provided that
      what was cut off is small against the quotient. */
  lemma EstimateFrom(n: int, D: int, e: int, Q: int)
    requires D > 0 && e >= 0 && Q >= 0 && Q * (D + e) <= n < (Q + 1) * (D + e) && (Q + 1) * e <= D
    ensures Q <= n / D <= Q + 1
  {
    Distribute(Q + 1, D, e);
    Distribute(Q, D, e);
    MulMono(0, Q, e);
    assert (Q + 2) * D == (Q + 1) * D + D;
    var q := n / D;
    assert q * D <= n < (q + 1) * D;
    if q < Q { MulMono(q + 1, Q, D); }
    if q > Q + 1 { MulMono(Q + 2, q, D); }
  }

  /** The quotient is small when the divisor is large. */
  lemma QuotientBound(n: int, d: int, p: int, m: int, Q: int)
    requires 0 <= n < B64 && p * m == 2 * B32 && m > 0 && d >= B31 * p && Q >= 0 && Q * d <= n
    ensures Q < m
  {
    MulMono(B31 * p, d, m);
    assert B31 * p * m == B31 * (p * m);
    assert d * m >= B64;
    if Q >= m { MulMono(m, Q, d); }
  }

  /** 4 (p - 1) <= p * p, scaled: the error of the estimate stays below the divisor. */
  lemma Slack(n: int, d: int, p: int, m: int, Q: int, e: int)
    requires 0 <= n < B64 && p * m == 2 * B32 && m > 0 && p >= 2 && d >= B31 * p && Q >= 0 && Q * d <= n
    requires 0 <= e < p
    ensures (Q + 1) * e <= B31 * p
  {
    QuotientBound(n, d, p, m, Q);
    MulMono(Q + 1, m, e);
    MulMono(e, p - 1, m);
    Square(p, m);
  }

  lemma Estimate(n: int, d: int, p: int, m: int)
    requires 0 <= n < B64 && p * m == 2 * B32 && m > 0 && p >= 2 && d >= B31 * p
    ensures var D := d / p * p; D > 0 && n / d <= n / D <= n / d + 1
  {
    var v, e := d / p, d % p;
    if v < B31 { MulMono(v + 1, B31, p); }
    MulMono(B31, v, p);
    var Q := n / d;
    assert 0 <= Q && Q * d <= n < (Q + 1) * d by { QuotientRange(n, d); }
    Slack(n, d, p, m, Q, e);
    EstimateFrom(n, v * p, e, Q);
  }

  lemma QuotientRange(n: int, d: int)
    requires n >= 0 && d > 0
    ensures 0 <= n / d && n / d * d <= n < (n / d + 1) * d
  {
  }

  lemma Square(p: int, m: int)
    requires p >= 2 && m >= 0 && p * m == 2 * B32
    ensures m * (p - 1) <= B31 * p
  {
    assert (p - 2) * (p - 2) >= 0;
    assert 4 * (p - 1) <= p * p;
    MulMono(4 * (p - 1), p * p, m);
    assert p * p * m == p * (p * m);
    assert 4 * (p - 1) * m == 4 * (m * (p - 1));
  }

  /** Shifting the divisor up to the top of its word and taking the high half drops its
      low bits; here `a` is 2^s and `p` is 2^(32-s). */
  lemma Normalized(d: int, a: int, p: int)
    requires B32 <= d < B64 && a > 0 && p > 0 && a * p == B32 && B31 <= d / B32 * a < B32
    ensures d * a < B64 && d * a / B32 == d / p && B31 <= d / p < B32 && d >= B31 * p
  {
    var d1 := d / B32;
    if d1 >= p { MulMono(p, d1, a); }
    MulMono(d1 + 1, p, a);
    MulMono(d + 1, (d1 + 1) * B32, a);
    assert (d1 + 1) * B32 * a == (d1 + 1) * a * B32;
    NestedDiv(d * a, a, p);
    DivIs(d * a, a, d);
    MulMono(B31, d1 * a, p);
    assert d1 * a * p == d1 * (a * p);
    assert d >= B31 * p;
    if d / p < B31 { MulMono(d / p + 1, B31, p); }
  }

  lemma Halved(n: int, v: int, h: int)
    requires 0 <= n < B64 && v > 0 && h > 0
    ensures n / 2 / v / h == n / (v * (2 * h))
  {
    NestedDiv(n, 2, v);
    NestedDiv(n, 2 * v, h);
    assert 2 * v * h == v * (2 * h);
  }

  lemma LowHalf(n: int, v: int)
    requires 0 <= n < B64 && v >= B31
    ensures n / 2 / v < B32
  {
    var q := n / 2 / v;
    assert q * v <= n / 2;
    if q >= B32 { MulMono(B32, q, v); MulMono(B31, v, B32); }
  }

  /** The large-divisor case: the division does not trap, and what it gives after the
      final shift is the quotient or one more. */
  lemma Shifted(n: int, d: int, s: nat)
    requires 0 <= n < B64 && B32 <= d < B64 && s <= 31 && B31 <= d / B32 * Pow2(s) < B32
    ensures d * Pow2(s) < B64
    ensures var v := d * Pow2(s) / B32;
            && B31 <= v < B32 && n / 2 / v < B32
            && n / d <= n / 2 / v / Pow2(31 - s) <= n / d + 1
  {
    var a, p, h, m := Pow2(s), Pow2(32 - s), Pow2(31 - s), Pow2(1 + s);
    assert a * p == B32 && p * m == 2 * B32 && p == 2 * h && p >= 2 by {
      PowValues();
      PowAdd(s, 32 - s);
      PowAdd(32 - s, 1 + s);
    }
    hide Pow2;
    Normalized(d, a, p);
    LowHalf(n, d / p);
    Halved(n, d / p, h);
    Estimate(n, d, p, m);
  }

  lemma WrapId(x: int)
    requires 0 <= x < B64
    ensures Wrap64(x) == x
  {
  }

  method UdivSmall(n: Word64, d: Word64) returns (q: Word64)
    requires 0 < d < B32
    ensures q == n / d
  {
    hide Wrap64;
    var n1, n0 := n / B32, n % B32;
    SmallDivisor(n, d);
    QuotientSmall(n, d);
    WrapId(n / d);
    q := Wrap64(Divl(B32 * (n1 % d) + n0, d) + B32 * (n1 / d));
  }

  method UdivLarge(n: Word64, d: Word64) returns (q: Word64)
    requires B32 <= d <= n
    ensures q == n / d
  {
    hide Wrap64, Pow2;
    var d1 := d / B32;
    var s := Nlz(d1);
    Shifted(n, d, s);
    WrapId(d * Pow2(s));
    var e: int := Divl(n / 2, Wrap64(d * Pow2(s)) / B32) / Pow2(31 - s);
    Correct(n, d, e);
    WrapId(e - 1);
    WrapId((e - 1) * d);
    WrapId(n - (e - 1) * d);
    q := if Wrap64(n - Wrap64(Wrap64(e - 1) * d)) < d then Wrap64(e - 1) else e;
  }

  /** udiv64: the quotient, for every dividend and every nonzero divisor; DIVL never
      traps on the way. */
  method Udiv64(n: Word64, d: Word64) returns (q: Word64)
    requires d != 0
    ensures q == n / d
  {
    if d / B32 == 0 {
      q := UdivSmall(n, d);
    } else if n < d {
      DivIs(n, d, 0);
      q := 0;
    } else {
      q := UdivLarge(n, d);
    }
  }

  /** umod64 keeps only 32 bits of the remainder. */
  method Umod64(n: Word64, d: Word64) returns (r: Word32)
    requires d != 0
    ensures r == n % d % B32
    ensures d <= B32 ==> r == n % d
  {
    var q := Udiv64(n, d);
    QuotientRange(n, d);
    assert n - d * q == n % d;
    WrapId(n % d);
    WrapId(d * q);
    hide Wrap64;
    r := Wrap64(n - Wrap64(d * q)) % B32;
  }

  /** So a divisor gives the right remainder for every dividend exactly when it is at
      most 2^32. */
  lemma UmodExact(d: Word64)
    requires d != 0
    ensures (forall n: Word64 :: n % d % B32 == n % d) <==> d <= B32
  {
    if d > B32 {
      var n: Word64 := B32;
      Remainder(n, d, 0, B32);
      assert n % d % B32 != n % d;
    } else {
      forall n: Word64 ensures n % d % B32 == n % d {
        Remainder(n % d, B32, 0, n % d);
      }
    }
  }

  lemma Remainder(n: int, d: int, q: int, r: int)
    requires d > 0 && n == q * d + r && 0 <= r < d
    ensures n % d == r
  {
    DivIs(n, d, q);
  }

  /** sdiv64 rounds toward zero, except that the one quotient that does not fit wraps. */
  method Sdiv64(n: Long, d: Long) returns (q: Long)
    requires d != 0
    ensures q == Truncated(n, d) <==> !(n == -B63 && d == -1)
    ensures n == -B63 && d == -1 ==> q == -B63
  {
    hide Wrap64, ToLong;
    if n < 0 { NegWrap(n); }
    if d < 0 { NegWrap(d); }
    var nAbs: Word64 := if n >= 0 then n else Wrap64(B64 - Wrap64(n));
    var dAbs: Word64 := if d >= 0 then d else Wrap64(B64 - Wrap64(d));
    assert nAbs == Abs(n) && dAbs == Abs(d);
    var qAbs := Udiv64(nAbs, dAbs);
    SignedFits(n, d);
    SignBack(qAbs);
    QuotientOne(n);
    q := if (n < 0) == (d < 0) then ToLong(qAbs) else ToLong(Neg(ToLong(qAbs)));
  }

  /** Only -2^63 has a quotient of 2^63, and then the signs decide. */
  lemma QuotientOne(n: int)
    ensures Abs(n) / 1 == Abs(n)
  {
  }

  lemma NegWrap(x: Long)
    requires x < 0
    ensures Wrap64(B64 - Wrap64(x)) == Neg(x)
  {
  }

  lemma SignBack(q: int)
    requires 0 <= q <= B63
    ensures q < B63 ==> ToLong(q) == q && ToLong(Neg(ToLong(q))) == -q
    ensures q == B63 ==> ToLong(q) == -B63 && ToLong(Neg(ToLong(q))) == -B63
  {
  }

  lemma SignedFits(n: Long, d: Long)
    requires d != 0
    ensures Abs(n) / Abs(d) <= B63
    ensures Abs(n) / Abs(d) == B63 <==> n == -B63 && Abs(d) == 1
  {
    QuotientRange(Abs(n), Abs(d));
    QuotientSmall(Abs(n), Abs(d));
    var q := Abs(n) / Abs(d);
    if q == B63 && Abs(d) > 1 { MulMono(2, Abs(d), q); }
  }

  /** smod64 keeps only the low 32 bits of the remainder, as a signed number; that is
      the remainder whenever the divisor is at most 2^31 in size. */
  method Smod64(n: Long, d: Long) returns (r: Int)
    requires d != 0
    ensures r == ToInt(n - d * Truncated(n, d))
    ensures Abs(d) <= B31 ==> r == n - d * Truncated(n, d)
    ensures Abs(n - d * Truncated(n, d)) < Abs(d)
  {
    var q := Sdiv64(n, d);
    SignedRemainder(n, d);
    SmodWraps(n, d, q);
    IntFits(n - d * Truncated(n, d));
    hide ToInt, ToLong, Truncated;
    r := ToInt(ToLong(n - ToLong(d * q)));
  }

  /** A divisor gives the right signed remainder for every dividend exactly when it is at
      most 2^31 in size; 2^31 itself is a dividend for which any larger one fails. */
  lemma SmodExact(d: Long)
    requires d != 0
    ensures (forall n: Long :: ToInt(n - d * Truncated(n, d)) == n - d * Truncated(n, d)) <==> Abs(d) <= B31
  {
    if Abs(d) > B31 {
      var n: Long := B31;
      SmallerDividend(n, d);
      assert ToInt(n - d * Truncated(n, d)) != n - d * Truncated(n, d);
    } else {
      forall n: Long ensures ToInt(n - d * Truncated(n, d)) == n - d * Truncated(n, d) {
        SignedRemainder(n, d);
        IntFits(n - d * Truncated(n, d));
      }
    }
  }

  lemma SmallerDividend(n: Long, d: Long)
    requires 0 <= n < Abs(d)
    ensures Truncated(n, d) == 0 && n - d * Truncated(n, d) == n
  {
    DivIs(n, Abs(d), 0);
  }

  lemma IntFits(x: int)
    ensures Abs(x) < B31 ==> ToInt(x) == x
  {
  }

  lemma SignedRemainder(n: Long, d: Long)
    requires d != 0
    ensures Abs(n - d * Truncated(n, d)) == Abs(n) % Abs(d) < Abs(d)
    ensures Abs(n - d * Truncated(n, d)) < B63
  {
    QuotientRange(Abs(n), Abs(d));
    var q := Abs(n) / Abs(d);
    assert Abs(n) % Abs(d) == Abs(n) - q * Abs(d);
  }

  lemma SmodWraps(n: Long, d: Long, q: Long)
    requires d != 0 && (q == Truncated(n, d) || (n == -B63 && d == -1 && q == -B63))
    ensures ToInt(ToLong(n - ToLong(d * q))) == ToInt(n - d * Truncated(n, d))
  {
    SignedRemainder(n, d);
    if q == Truncated(n, d) {
      WrapTwice(n, d * q);
    }
  }

  lemma ModShift(a: int, n: nat, k: int)
    requires n > 0
    ensures (a + k * n) % n == a % n
  {
    assert a + k * n == (a / n + k) * n + a % n;
    DivUnique(a + k * n, n, a / n + k, a % n);
  }

  /** A conversion takes away a multiple of the width. */
  lemma LongShift(x: int) returns (k: int)
    ensures ToLong(x) == x + k * B64
  {
    var q := x / B64;
    k := if x % B64 < B63 then -q else -q - 1;
  }

  lemma IntShift(x: int, k: int)
    ensures ToInt(x + k * B64) == ToInt(x)
  {
    assert k * B64 == (k * B32) * B32;
    ModShift(x, B32, k * B32);
  }

  lemma WrapTwice(n: int, m: int)
    ensures ToInt(ToLong(n - ToLong(m))) == ToInt(n - m)
  {
    hide ToInt, ToLong;
    var j := LongShift(m);
    var k := LongShift(n - ToLong(m));
    assert ToLong(n - ToLong(m)) == (n - m) + (k - j) * B64;
    IntShift(n - m, k - j);
  }

  lemma QuotientSmall(n: int, d: int)
    requires 0 <= n && d > 0
    ensures 0 <= n / d <= n
  {
    var q := n / d;
    assert q * d <= n;
    if q > 0 { MulMono(1, d, q); }
  }

  /** The final correction, with no wrap-around on the way. */
  lemma Correct(n: int, d: int, e: int)
    requires 0 < d <= n < B64 && (e == n / d || e == n / d + 1)
    ensures 1 <= e && 0 <= (e - 1) * d <= n
    ensures e - 1 < B64
    ensures (if n - (e - 1) * d < d then e - 1 else e) == n / d
  {
    var Q := n / d;
    assert Q * d <= n < (Q + 1) * d;
    if Q < 1 { MulMono(Q + 1, 1, d); }
    QuotientSmall(n, d);
    if e == Q {
      assert (Q - 1) * d == Q * d - d;
    }
    MulMono(0, e - 1, d);
  }
}
