/** The kernel's bitmaps: one array of bits, scanned for runs of equal bits. They
    track file system sectors, swap slots and memory pages. */
module Bitmaps {

  /** What the scans return when there is no run; the code uses SIZE_MAX. */
  const BITMAP_ERROR: int := -1

  /** The `cnt` bits from `start` on all equal `value`. */
  ghost predicate Run(bits: seq<bool>, start: nat, cnt: nat, value: bool)
    requires start + cnt <= |bits|
  {
    forall k :: start <= k < start + cnt ==> bits[k] == value
  }

  /** `bits` with the `cnt` bits from `start` on replaced by `value`. */
  function Fill(bits: seq<bool>, start: nat, cnt: nat, value: bool): (r: seq<bool>)
    requires start + cnt <= |bits|
    ensures |r| == |bits|
    ensures forall k :: 0 <= k < |bits| ==> r[k] == if start <= k < start + cnt then value else bits[k]
  {
    bits[..start] + seq(cnt, _ => value) + bits[start + cnt..]
  }

  /** Where the first run of `cnt` bits equal to `value` at or after `start` begins. */
  ghost predicate IsFirstRun(bits: seq<bool>, start: nat, cnt: nat, value: bool, idx: int) {
    if idx == BITMAP_ERROR then
      forall i :: start <= i <= |bits| - cnt ==> !Run(bits, i, cnt, value)
    else
      && start <= idx <= |bits| - cnt
      && Run(bits, idx, cnt, value)
      && forall i :: start <= i < idx ==> !Run(bits, i, cnt, value)
  }

  /** The number of clear bits. */
  ghost function Zeros(bits: seq<bool>): (n: nat) {
    if bits == [] then 0
    else Zeros(bits[..|bits| - 1]) + if bits[|bits| - 1] then 0 else 1
  }

  lemma {:induction false} ZerosSet(bits: seq<bool>, k: nat)
    requires k < |bits| && !bits[k]
    ensures Zeros(bits[k := true]) == Zeros(bits) - 1
  {
    var n := |bits| - 1;
    var b' := bits[k := true];
    if k < n {
      assert b'[..n] == bits[..n][k := true];
      ZerosSet(bits[..n], k);
    } else {
      assert b'[..n] == bits[..n];
    }
  }

  /** A scan for one clear bit succeeds exactly when some bit is clear. */
  lemma {:induction false} ZerosNone(bits: seq<bool>)
    ensures Zeros(bits) == 0 <==> forall k :: 0 <= k < |bits| ==> bits[k]
  {
    if bits != [] {
      ZerosNone(bits[..|bits| - 1]);
      assert forall k :: 0 <= k < |bits| - 1 ==> bits[..|bits| - 1][k] == bits[k];
    }
  }

  class Bitmap {
    var bits: seq<bool>

    constructor (cnt: nat)
      ensures |bits| == cnt && Run(bits, 0, cnt, false)
    {
      bits := seq(cnt, _ => false);
    }

    method Contains(start: nat, cnt: nat, value: bool) returns (r: bool)
      requires start + cnt <= |bits|
      ensures r <==> !Run(bits, start, cnt, !value)
    {
      var i := 0;
      while i < cnt
        invariant i <= cnt
        invariant Run(bits, start, i, !value)
      {
        if bits[start + i] == value { return true; }
        i := i + 1;
      }
      return false;
    }

    method SetMultiple(start: nat, cnt: nat, value: bool)
      requires start + cnt <= |bits|
      modifies this
      ensures bits == Fill(old(bits), start, cnt, value)
    {
      var i := 0;
      while i < cnt
        invariant i <= cnt
        invariant bits == Fill(old(bits), start, i, value)
      {
        bits := bits[start + i := value];
        i := i + 1;
      }
    }

    method Scan(start: nat, cnt: nat, value: bool) returns (idx: int)
      requires start <= |bits|
      ensures IsFirstRun(bits, start, cnt, value, idx)
    {
      if cnt <= |bits| {
        var last := |bits| - cnt;
        var i := start;
        while i <= last
          invariant start <= i
          invariant forall j :: start <= j < i && j <= last ==> !Run(bits, j, cnt, value)
        {
          var other := Contains(i, cnt, !value);
          if !other { return i; }
          i := i + 1;
        }
      }
      return BITMAP_ERROR;
    }

    method ScanAndFlip(start: nat, cnt: nat, value: bool) returns (idx: int)
      requires start <= |bits|
      modifies this
      ensures IsFirstRun(old(bits), start, cnt, value, idx)
      ensures bits == if idx == BITMAP_ERROR then old(bits) else Fill(old(bits), idx, cnt, !value)
    {
      idx := Scan(start, cnt, value);
      if idx != BITMAP_ERROR {
        SetMultiple(idx, cnt, !value);
      }
    }
  }
}
