/** Zero-padded octal numbers, as printed by the kernel's printf and as read back from
    archive headers. */
module Octal {

  import opened Arithmetic
  import opened Options
  import opened Sectors

  /** The largest unsigned long. */
  const ULONG_MAX: nat := 0xFFFF_FFFF

  const ZERO: Byte := 48
  const SEVEN: Byte := 55
  const SPACE: Byte := 32

  function Pow8(w: nat): (r: nat)
    ensures r > 0
  {
    if w == 0 then 1 else 8 * Pow8(w - 1)
  }

  ghost predicate IsDigits(ds: seq<Byte>) {
    forall i :: 0 <= i < |ds| ==> ZERO <= ds[i] <= SEVEN
  }

  /** The number that a sequence of octal digits spells. */
  ghost function Value(ds: seq<Byte>): (r: nat)
    requires IsDigits(ds)
  {
    if ds == [] then 0 else Value(ds[..|ds| - 1]) * 8 + (ds[|ds| - 1] - ZERO)
  }

  /** The last `w` octal digits of `v`. */
  function Digits(v: nat, w: nat): (r: seq<Byte>)
    ensures |r| == w && IsDigits(r)
  {
    if w == 0 then [] else Digits(v / 8, w - 1) + [ZERO + v % 8]
  }

  lemma {:induction false} ValueDigits(v: nat, w: nat)
    requires v < Pow8(w)
    ensures Value(Digits(v, w)) == v
  {
    if w > 0 {
      ValueDigits(v / 8, w - 1);
      assert Digits(v, w)[..w - 1] == Digits(v / 8, w - 1);
    }
  }

  lemma {:induction false} ValueGrows(ds: seq<Byte>, i: nat)
    requires IsDigits(ds) && i <= |ds|
    ensures Value(ds[..i]) <= Value(ds)
  {
    if i == |ds| {
      assert ds[..i] == ds;
    } else {
      ValueGrows(ds[..|ds| - 1], i);
      assert ds[..|ds| - 1][..i] == ds[..i];
    }
  }

  lemma ValueStep(ds: seq<Byte>, i: nat)
    requires IsDigits(ds) && i < |ds|
    ensures Value(ds[..i + 1]) == Value(ds[..i]) * 8 + (ds[i] - ZERO)
  {
    assert ds[..i + 1][..i] == ds[..i];
  }

  lemma {:induction false} LeadingZeros(v: nat, m: nat, w: nat)
    requires v < Pow8(m) && m <= w
    ensures Digits(v, w) == seq(w - m, _ => ZERO) + Digits(v, m)
  {
    if m == 0 {
      AllZeros(w);
    } else {
      LeadingZeros(v / 8, m - 1, w - 1);
    }
  }

  lemma {:induction false} AllZeros(w: nat)
    ensures Digits(0, w) == seq(w, _ => ZERO)
  {
    if w > 0 { AllZeros(w - 1); }
  }

  /** parse_octal_field from offset `ofs` on, with `value` read so far. */
  function ParseFrom(s: seq<Byte>, ofs: nat, value: nat): (r: Option<nat>)
    decreases |s| - ofs
  {
    if ofs >= |s| then None
    else if ZERO <= s[ofs] <= SEVEN then
      if value > ULONG_MAX / 8 then None else ParseFrom(s, ofs + 1, s[ofs] - ZERO + value * 8)
    else if s[ofs] == SPACE || s[ofs] == 0 then
      if ofs > 0 then Some(value) else None
    else None
  }

  lemma {:induction false} ParseRest(s: seq<Byte>, ds: seq<Byte>, i: nat)
    requires IsDigits(ds) && ds != [] && i <= |ds| < |s| && s[..|ds|] == ds && (s[|ds|] == 0 || s[|ds|] == SPACE)
    requires Value(ds) <= ULONG_MAX
    ensures ParseFrom(s, i, Value(ds[..i])) == Some(Value(ds))
    decreases |ds| - i
  {
    if i == |ds| {
      assert ds[..i] == ds;
    } else {
      assert s[i] == ds[i];
      ValueStep(ds, i);
      ValueGrows(ds, i + 1);
      ParseRest(s, ds, i + 1);
    }
  }

  /** A field that starts with the digits of a number and a terminator reads as that
      number, if it fits 32 bits. */
  lemma ParseDigits(s: seq<Byte>, v: nat, w: nat)
    requires 0 < w < |s| && s[..w] == Digits(v, w) && (s[w] == 0 || s[w] == SPACE) && v < Pow8(w) && v <= ULONG_MAX
    ensures ParseFrom(s, 0, 0) == Some(v)
  {
    ValueDigits(v, w);
    ParseRest(s, Digits(v, w), 0);
  }

  /** The field starts with `k` octal digits that spell `v`, and a terminator. */
  ghost predicate Spells(s: seq<Byte>, k: nat, v: nat) {
    0 < k < |s| && IsDigits(s[..k]) && (s[k] == 0 || s[k] == SPACE) && Value(s[..k]) == v
  }

  lemma {:induction false} ParseSound(s: seq<Byte>, i: nat) returns (k: nat)
    requires i <= |s| && IsDigits(s[..i]) && Value(s[..i]) <= ULONG_MAX && ParseFrom(s, i, Value(s[..i])).Some?
    ensures var v := ParseFrom(s, i, Value(s[..i])).value; v <= ULONG_MAX && Spells(s, k, v)
    decreases |s| - i
  {
    if ZERO <= s[i] <= SEVEN {
      assert s[..i + 1][..i] == s[..i];
      k := ParseSound(s, i + 1);
    } else {
      k := i;
    }
  }

  /** A field is read as a number exactly if it starts with the digits of that number and a
      terminator, and the number fits 32 bits. */
  lemma ParseExact(s: seq<Byte>, v: nat)
    ensures ParseFrom(s, 0, 0) == Some(v) <==> v <= ULONG_MAX && exists k: nat :: Spells(s, k, v)
  {
    if ParseFrom(s, 0, 0) == Some(v) {
      assert s[..0] == [];
      var k := ParseSound(s, 0);
    }
    if v <= ULONG_MAX && exists k: nat :: Spells(s, k, v) {
      var k: nat :| Spells(s, k, v);
      assert s[..k][..0] == [];
      ParseRest(s, s[..k], 0);
    }
  }

  /** The loop of parse_octal_field. */
  method ParseField(s: seq<Byte>) returns (r: Option<nat>)
    ensures r == ParseFrom(s, 0, 0)
  {
    var value: nat, ofs: nat := 0, 0;
    while ofs < |s|
      invariant ofs <= |s| && ParseFrom(s, ofs, value) == ParseFrom(s, 0, 0)
    {
      var c := s[ofs];
      if ZERO <= c <= SEVEN {
        if value > ULONG_MAX / 8 { return None; }
        value := c - ZERO + value * 8;
      } else if c == SPACE || c == 0 {
        return if ofs > 0 then Some(value) else None;
      } else {
        return None;
      }
      ofs := ofs + 1;
    }
    return None;
  }

  function Reverse(q: seq<Byte>): (r: seq<Byte>)
    ensures |r| == |q|
  {
    if q == [] then [] else Reverse(q[1..]) + [q[0]]
  }

  lemma {:induction false} ReverseSnoc(q: seq<Byte>, b: Byte)
    ensures Reverse(q + [b]) == [b] + Reverse(q)
  {
    if q != [] {
      assert (q + [b])[1..] == q[1..] + [b];
      ReverseSnoc(q[1..], b);
    }
  }

  /** One more digit in front. */
  lemma {:induction false} DigitsSplit(v: nat, k: nat)
    ensures Digits(v, k + 1) == [ZERO + v / Pow8(k) % 8] + Digits(v, k)
    decreases k
  {
    if k == 0 {
      assert Digits(v, 1) == Digits(v / 8, 0) + [ZERO + v % 8];
    } else {
      DigitsSplit(v / 8, k - 1);
      NestedDiv(v, 8, Pow8(k - 1));
      assert Pow8(k) == 8 * Pow8(k - 1);
      hide Pow8;
      assert Digits(v, k + 1) == Digits(v / 8, k) + [ZERO + v % 8];
      assert Digits(v, k) == Digits(v / 8, k - 1) + [ZERO + v % 8];
    }
  }

  lemma {:induction false} Pow8Grows(a: nat, b: nat)
    requires a <= b
    ensures Pow8(a) <= Pow8(b)
  {
    if a < b { Pow8Grows(a, b - 1); }
  }

  lemma QuotientZero(v: nat, n: nat)
    requires n > 0
    ensures v / n == 0 <==> v < n
  {
  }

  /** How many octal digits `v` needs, at least one. */
  ghost function Needs(v: nat): (m: nat)
    ensures m > 0 && v < Pow8(m) && (m > 1 ==> Pow8(m - 1) <= v)
  {
    if v < 8 then assert Pow8(1) == 8; 1 else 1 + Needs(v / 8)
  }

  lemma NeedsUnique(v: nat, m: nat)
    requires m > 0 && v < Pow8(m) && (m > 1 ==> Pow8(m - 1) <= v)
    ensures Needs(v) == m
  {
    hide Pow8, Needs;
    if m < Needs(v) { Pow8Grows(m, Needs(v) - 1); }
    if Needs(v) < m { Pow8Grows(Needs(v), m - 1); }
  }

  lemma {:induction false} NeedsAtMost(v: nat, w: nat)
    requires w > 0 && v < Pow8(w)
    ensures Needs(v) <= w
  {
    hide Pow8, Needs;
    if w < Needs(v) { Pow8Grows(w, Needs(v) - 1); }
  }

  /** format_integer for "%0<width>o": digits come out last first and are turned round
      behind the padding. A number too wide for the field is not cut. */
  method Format(value: nat, width: nat) returns (text: seq<Byte>)
    ensures text == Digits(value, if Needs(value) <= width then width else Needs(value))
  {
    hide Pow8, Needs;
    var v: nat, buf: seq<Byte> := value, [];
    assert Pow8(0) == 1 by { Pow8Zero(); }
    while v > 0
      invariant v == value / Pow8(|buf|) && Reverse(buf) == Digits(value, |buf|)
      invariant |buf| > 0 ==> Pow8(|buf| - 1) <= value
      decreases v
    {
      FormatStep(value, |buf|);
      ReverseSnoc(buf, ZERO + v % 8);
      buf := buf + [ZERO + v % 8];
      v := v / 8;
    }
    QuotientZero(value, Pow8(|buf|));
    if |buf| < 1 {
      assert value == 0;
      buf := buf + [ZERO];
      assert Reverse(buf) == [ZERO] == Digits(0, 1);
      Pow8Grows(0, 1);
    }
    NeedsUnique(value, |buf|);
    var pad := if width >= |buf| then width - |buf| else 0;
    LeadingZeros(value, |buf|, pad + |buf|);
    text := seq(pad, _ => ZERO) + Reverse(buf);
  }

  lemma Pow8Zero()
    ensures Pow8(0) == 1
  {
  }

  lemma FormatStep(value: nat, k: nat)
    requires value / Pow8(k) > 0
    ensures Pow8(k) <= value && value / Pow8(k) / 8 == value / Pow8(k + 1)
    ensures Digits(value, k + 1) == [ZERO + value / Pow8(k) % 8] + Digits(value, k)
  {
    QuotientZero(value, Pow8(k));
    NestedDiv(value, Pow8(k), 8);
    assert Pow8(k + 1) == Pow8(k) * 8;
    DigitsSplit(value, k);
  }
}
