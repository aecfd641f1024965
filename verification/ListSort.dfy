/** What natural merge sort computes, on sequences: a sorted, stable rearrangement, in a
    number of passes that halves the number of runs each time. */
module ListSorting {

  /** `less` is a strict weak order on the elements of `s`. */
  ghost predicate StrictWeak<E>(less: (E, E) -> bool, s: seq<E>) {
    && (forall a, b :: a in s && b in s && less(a, b) ==> !less(b, a))
    && (forall a, b, c :: a in s && b in s && c in s && !less(b, a) && !less(c, b) ==> !less(c, a))
  }

  ghost predicate Sorted<E>(less: (E, E) -> bool, s: seq<E>) {
    forall i, j :: 0 <= i < j < |s| ==> !less(s[j], s[i])
  }

  /** The elements of `s` that are equivalent to `x`, in order. */
  ghost function Peers<E>(less: (E, E) -> bool, s: seq<E>, x: E): seq<E> {
    if s == [] then []
    else (if less(s[0], x) || less(x, s[0]) then [] else [s[0]]) + Peers(less, s[1..], x)
  }

  /** `r` has the elements of `s`, and equivalent ones in the same order. */
  ghost predicate StableRearrangement<E>(less: (E, E) -> bool, r: seq<E>, s: seq<E>) {
    && multiset(r) == multiset(s)
    && forall x :: x in s ==> Peers(less, r, x) == Peers(less, s, x)
  }

  /** The length of the run that `s` starts with. */
  ghost function RunLen<E>(less: (E, E) -> bool, s: seq<E>): (n: nat)
    requires s != []
    ensures 1 <= n <= |s|
  {
    if |s| == 1 || less(s[1], s[0]) then 1 else 1 + RunLen(less, s[1..])
  }

  /** The number of runs of `s`. */
  ghost function Runs<E>(less: (E, E) -> bool, s: seq<E>): (n: nat)
    ensures n == 0 <==> s == []
    decreases |s|
  {
    if s == [] then 0 else 1 + Runs(less, s[RunLen(less, s)..])
  }

  ghost function Merge<E>(less: (E, E) -> bool, a: seq<E>, b: seq<E>): (r: seq<E>)
    ensures |r| == |a| + |b|
    decreases |a| + |b|
  {
    if a == [] then b
    else if b == [] then a
    else if !less(b[0], a[0]) then [a[0]] + Merge(less, a[1..], b)
    else [b[0]] + Merge(less, a, b[1..])
  }

  /** One pass: merges the first run with the second, the third with the fourth, ... */
  ghost function Pass<E>(less: (E, E) -> bool, s: seq<E>): (r: seq<E>)
    ensures |r| == |s|
    decreases |s|
  {
    if s == [] then []
    else
      var j := RunLen(less, s);
      if j == |s| then s
      else
        var k := j + RunLen(less, s[j..]);
        Merge(less, s[..j], s[j..k]) + Pass(less, s[k..])
  }

  lemma {:induction false} PeersAppend<E>(less: (E, E) -> bool, a: seq<E>, b: seq<E>, x: E)
    ensures Peers(less, a + b, x) == Peers(less, a, x) + Peers(less, b, x)
  {
    if a == [] {
      assert a + b == b;
    } else {
      assert (a + b)[1..] == a[1..] + b;
      PeersAppend(less, a[1..], b, x);
    }
  }

  lemma PeersCons<E>(less: (E, E) -> bool, h: E, t: seq<E>, x: E)
    ensures Peers(less, [h] + t, x) == if less(h, x) || less(x, h) then Peers(less, t, x) else [h] + Peers(less, t, x)
  {
    assert ([h] + t)[1..] == t;
  }

  lemma MultisetCons<E>(h: E, t: seq<E>)
    ensures multiset([h] + t) == multiset{h} + multiset(t)
  {
  }

  /** Elements of `m` are shared out between `a` and `b`; a new one goes to `a`. */
  lemma ShareOut<E>(h: E, m: seq<E>, a: seq<E>, b: seq<E>)
    requires multiset(m) == multiset(a) + multiset(b)
    ensures multiset([h] + m) == multiset([h] + a) + multiset(b)
  {
    MultisetCons(h, m);
    MultisetCons(h, a);
  }

  /** When the second run has the smaller head it comes first. */
  lemma MergeHead<E>(less: (E, E) -> bool, a: seq<E>, b: seq<E>)
    requires a != [] && b != [] && less(b[0], a[0])
    ensures Merge(less, a, b) == [b[0]] + Merge(less, a, b[1..])
  {
  }

  /** In a tie, or when it has the smaller head, the first run does. */
  lemma MergeTie<E>(less: (E, E) -> bool, a: seq<E>, b: seq<E>)
    requires a != [] && b != [] && !less(b[0], a[0])
    ensures Merge(less, a, b) == [a[0]] + Merge(less, a[1..], b)
  {
  }

  lemma {:induction false} MergeElements<E>(less: (E, E) -> bool, a: seq<E>, b: seq<E>)
    ensures multiset(Merge(less, a, b)) == multiset(a) + multiset(b)
    decreases |a| + |b|
  {
    if a == [] || b == [] {
    } else if !less(b[0], a[0]) {
      hide Merge;
      MergeTie(less, a, b);
      MergeElements(less, a[1..], b);
      ShareOut(a[0], Merge(less, a[1..], b), a[1..], b);
      assert a == [a[0]] + a[1..];
    } else {
      hide Merge;
      MergeHead(less, a, b);
      MergeElements(less, a, b[1..]);
      ShareOut(b[0], Merge(less, a, b[1..]), b[1..], a);
      assert b == [b[0]] + b[1..];
    }
  }

  /** An element is in a merge exactly when it is in one of the parts. */
  lemma MergeMember<E>(less: (E, E) -> bool, a: seq<E>, b: seq<E>, x: E)
    ensures x in Merge(less, a, b) <==> x in a || x in b
  {
    MergeElements(less, a, b);
    assert x in multiset(Merge(less, a, b)) <==> x in multiset(a) + multiset(b);
  }

  lemma SplitThree<E>(s: seq<E>, j: nat, k: nat)
    requires j <= k <= |s|
    ensures s == s[..j] + s[j..k] + s[k..]
  {
  }

  ghost predicate Within<E>(a: seq<E>, u: seq<E>) {
    forall x :: x in a ==> x in u
  }

  /** The smaller of two heads is not above anything. */
  lemma Below<E>(less: (E, E) -> bool, u: seq<E>, a: seq<E>, b: seq<E>)
    requires StrictWeak(less, u) && Within(a, u) && Within(b, u)
    requires Sorted(less, a) && Sorted(less, b) && a != [] && b != [] && !less(b[0], a[0])
    ensures forall x :: x in a || x in b ==> !less(x, a[0])
  {
    forall x | x in a || x in b ensures !less(x, a[0]) {
      if x in a {
        var i :| 0 <= i < |a| && a[i] == x;
        assert i == 0 ==> !less(x, x);
      } else {
        var i :| 0 <= i < |b| && b[i] == x;
        assert b[0] in b && a[0] in a && !less(b[i], b[0]);
      }
    }
  }

  lemma SortedCons<E>(less: (E, E) -> bool, m: E, s: seq<E>)
    requires Sorted(less, s) && forall x :: x in s ==> !less(x, m)
    ensures Sorted(less, [m] + s)
  {
  }

  lemma {:induction false} MergeSorted<E>(less: (E, E) -> bool, u: seq<E>, a: seq<E>, b: seq<E>)
    requires StrictWeak(less, u) && Within(a, u) && Within(b, u) && Sorted(less, a) && Sorted(less, b)
    ensures Sorted(less, Merge(less, a, b))
    decreases |a| + |b|
  {
    if a != [] && b != [] {
      if !less(b[0], a[0]) {
        MergeSorted(less, u, a[1..], b);
        Below(less, u, a, b);
        forall x | x in Merge(less, a[1..], b) ensures !less(x, a[0]) {
          MergeMember(less, a[1..], b, x);
          assert x in a || x in b;
        }
        SortedCons(less, a[0], Merge(less, a[1..], b));
      } else {
        MergeSorted(less, u, a, b[1..]);
        assert a[0] in a && b[0] in b;
        Below(less, u, b, a);
        forall x | x in Merge(less, a, b[1..]) ensures !less(x, b[0]) {
          MergeMember(less, a, b[1..], x);
          assert x in a || x in b;
        }
        SortedCons(less, b[0], Merge(less, a, b[1..]));
      }
    }
  }

  lemma {:induction false} NoPeers<E>(less: (E, E) -> bool, s: seq<E>, x: E)
    requires forall e :: e in s ==> less(x, e)
    ensures Peers(less, s, x) == []
  {
    if s != [] {
      assert forall e :: e in s[1..] ==> e in s;
      NoPeers(less, s[1..], x);
    }
  }

  /** Everything in a sorted run whose head is above a peer of `x` is above `x`. */
  lemma AboveAll<E>(less: (E, E) -> bool, u: seq<E>, a: seq<E>, m: E, x: E)
    requires StrictWeak(less, u) && Within(a, u) && m in u && x in u && Sorted(less, a) && a != []
    requires less(m, a[0]) && !less(m, x) && !less(x, m)
    ensures forall e :: e in a ==> less(x, e)
  {
    forall e | e in a ensures less(x, e) {
      var i :| 0 <= i < |a| && a[i] == e;
      assert a[0] in a && (i > 0 ==> !less(e, a[0]));
      assert !less(x, e) ==> !less(m, e);
    }
  }

  lemma Associative<E>(a: seq<E>, b: seq<E>, c: seq<E>)
    ensures a + (b + c) == a + b + c
  {
  }

  lemma FromFirst<E>(less: (E, E) -> bool, h: E, a: seq<E>, b: seq<E>, m: seq<E>, x: E)
    requires Peers(less, m, x) == Peers(less, a, x) + Peers(less, b, x)
    ensures Peers(less, [h] + m, x) == Peers(less, [h] + a, x) + Peers(less, b, x)
  {
    hide Peers;
    PeersCons(less, h, m, x);
    PeersCons(less, h, a, x);
    Associative([h], Peers(less, a, x), Peers(less, b, x));
  }

  lemma FromSecond<E>(less: (E, E) -> bool, h: E, a: seq<E>, b: seq<E>, m: seq<E>, x: E)
    requires Peers(less, m, x) == Peers(less, a, x) + Peers(less, b, x)
    requires less(h, x) || less(x, h) || Peers(less, a, x) == []
    ensures Peers(less, [h] + m, x) == Peers(less, a, x) + Peers(less, [h] + b, x)
  {
    hide Peers;
    PeersCons(less, h, m, x);
    PeersCons(less, h, b, x);
  }

  lemma PeersSkip<E>(less: (E, E) -> bool, u: seq<E>, a: seq<E>, b: seq<E>, x: E)
    requires StrictWeak(less, u) && Within(a, u) && Within(b, u) && Sorted(less, a) && x in u
    requires a != [] && b != [] && less(b[0], a[0]) && !less(b[0], x) && !less(x, b[0])
    ensures Peers(less, a, x) == []
  {
    assert b[0] in b;
    AboveAll(less, u, a, b[0], x);
    NoPeers(less, a, x);
  }

  /** Merging is stable: elements of the first run stay in front of their peers. */
  lemma {:induction false} MergeStable<E>(less: (E, E) -> bool, u: seq<E>, a: seq<E>, b: seq<E>, x: E)
    requires StrictWeak(less, u) && Within(a, u) && Within(b, u) && Sorted(less, a) && Sorted(less, b) && x in u
    ensures Peers(less, Merge(less, a, b), x) == Peers(less, a, x) + Peers(less, b, x)
    decreases |a| + |b|
  {
    if a == [] || b == [] {
    } else if !less(b[0], a[0]) {
      SliceWithin(a, u, 1, |a|);
      assert a == [a[0]] + a[1..];
      hide Peers;
      MergeStable(less, u, a[1..], b, x);
      FromFirst(less, a[0], a[1..], b, Merge(less, a[1..], b), x);
    } else {
      SliceWithin(b, u, 1, |b|);
      assert b == [b[0]] + b[1..];
      hide Peers;
      MergeStable(less, u, a, b[1..], x);
      if !less(b[0], x) && !less(x, b[0]) {
        PeersSkip(less, u, a, b, x);
      }
      FromSecond(less, b[0], a, b[1..], Merge(less, a, b[1..]), x);
    }
  }

  /** A run is sorted. */
  lemma {:induction false} RunSorted<E>(less: (E, E) -> bool, u: seq<E>, s: seq<E>)
    requires StrictWeak(less, u) && Within(s, u) && s != []
    ensures Sorted(less, s[..RunLen(less, s)])
  {
    var n := RunLen(less, s);
    if n > 1 {
      var t := s[1..];
      assert forall x :: x in t ==> x in s;
      RunSorted(less, u, t);
      var run := t[..n - 1];
      assert s[..n] == [s[0]] + run;
      forall x | x in run ensures !less(x, s[0]) {
        var i :| 0 <= i < |run| && run[i] == x;
        assert run[0] == s[1] && s[1] in s && s[0] in s && x in t;
        if i > 0 { assert !less(x, s[1]); }
      }
      SortedCons(less, s[0], run);
    }
  }

  lemma MultisetJoin<E>(a: seq<E>, b: seq<E>, c: seq<E>, m: seq<E>, p: seq<E>)
    requires multiset(m) == multiset(a) + multiset(b) && multiset(p) == multiset(c)
    ensures multiset(m + p) == multiset(a + b + c)
  {
  }

  /** A pass keeps the elements. */
  lemma {:induction false} PassElements<E>(less: (E, E) -> bool, s: seq<E>)
    ensures multiset(Pass(less, s)) == multiset(s)
    decreases |s|
  {
    if s != [] {
      var j := RunLen(less, s);
      if j < |s| {
        var k := j + RunLen(less, s[j..]);
        var a, b, c := s[..j], s[j..k], s[k..];
        MergeElements(less, a, b);
        PassElements(less, c);
        SplitThree(s, j, k);
        MultisetJoin(a, b, c, Merge(less, a, b), Pass(less, c));
      }
    }
  }

  lemma SliceWithin<E>(s: seq<E>, u: seq<E>, i: nat, j: nat)
    requires Within(s, u) && i <= j <= |s|
    ensures Within(s[i..j], u)
  {
    forall x | x in s[i..j] ensures x in u {
      assert x in s;
    }
  }

  lemma SliceSlice<E>(s: seq<E>, j: nat, k: nat, n: nat)
    requires j <= k <= n <= |s|
    ensures s[j..n][k - j..] == s[k..n] && s[j..n][..k - j] == s[j..k]
  {
  }

  lemma PassParts<E>(less: (E, E) -> bool, r: seq<E>, j: nat, k: nat, p: seq<E>, q: seq<E>)
    requires r != [] && j == RunLen(less, r) < |r| && k == j + RunLen(less, r[j..]) <= |r|
    requires p == Pass(less, r) && q == Pass(less, r[k..])
    ensures p == Merge(less, r[..j], r[j..k]) + q
  {
    hide Merge, RunLen;
  }

  lemma PassTwo<E>(less: (E, E) -> bool, r: seq<E>, j: nat, k: nat)
    requires r != [] && j == RunLen(less, r) < |r| && k == j + RunLen(less, r[j..])
    ensures k <= |r| && Pass(less, r) == Merge(less, r[..j], r[j..k]) + Pass(less, r[k..])
  {
    hide Merge, RunLen, Pass;
    PassParts(less, r, j, k, Pass(less, r), Pass(less, r[k..]));
  }

  lemma RunsFirst<E>(less: (E, E) -> bool, s: seq<E>)
    requires s != []
    ensures Runs(less, s) == 1 + Runs(less, s[RunLen(less, s)..])
  {
    hide RunLen;
  }

  lemma RunsTwo<E>(less: (E, E) -> bool, r: seq<E>, j: nat, k: nat)
    requires r != [] && j == RunLen(less, r) < |r| && k == j + RunLen(less, r[j..])
    ensures k <= |r| && Runs(less, r) == 2 + Runs(less, r[k..])
  {
    hide RunLen, Runs;
    RunsFirst(less, r);
    RunsFirst(less, r[j..]);
    SliceSlice(r, j, k, |r|);
    assert r[j..|r|] == r[j..] && r[k..|r|] == r[k..];
  }

  /** The first two runs of `s` are sorted slices of it. */
  lemma FirstRuns<E>(less: (E, E) -> bool, u: seq<E>, s: seq<E>, j: nat, k: nat)
    requires StrictWeak(less, u) && Within(s, u)
    requires s != [] && j == RunLen(less, s) < |s| && k == j + RunLen(less, s[j..])
    ensures k <= |s| && Within(s[..j], u) && Within(s[j..k], u) && Within(s[k..], u)
    ensures Sorted(less, s[..j]) && Sorted(less, s[j..k])
  {
    hide RunLen, StrictWeak, Sorted, Within;
    SliceWithin(s, u, 0, j);
    SliceWithin(s, u, j, k);
    SliceWithin(s, u, k, |s|);
    SliceWithin(s, u, j, |s|);
    assert s[..j] == s[0..j] && s[k..] == s[k..|s|] && s[j..] == s[j..|s|];
    RunSorted(less, u, s);
    RunSorted(less, u, s[j..]);
    SliceSlice(s, j, k, |s|);
  }

  lemma {:induction false} PassStable<E>(less: (E, E) -> bool, u: seq<E>, s: seq<E>, x: E)
    requires StrictWeak(less, u) && Within(s, u) && x in u
    ensures Peers(less, Pass(less, s), x) == Peers(less, s, x)
    decreases |s|
  {
    if s != [] {
      var j := RunLen(less, s);
      if j < |s| {
        var k := j + RunLen(less, s[j..]);
        var a, b, c := s[..j], s[j..k], s[k..];
        FirstRuns(less, u, s, j, k);
        SplitThree(s, j, k);
        PassTwo(less, s, j, k);
        hide *;
        MergeStable(less, u, a, b, x);
        PassStable(less, u, c, x);
        PeersAppend(less, Merge(less, a, b), Pass(less, c), x);
        PeersAppend(less, a, b, x);
        PeersAppend(less, a + b, c, x);
      }
    }
  }

  /** The first run of a sorted piece followed by `t` ends with the piece, or goes on to
      the end of the first run of `t`. */
  lemma {:induction false} RunAcross<E>(less: (E, E) -> bool, a: seq<E>, t: seq<E>)
    requires a != [] && Sorted(less, a)
    ensures t == [] ==> RunLen(less, a + t) == |a|
    ensures t != [] ==> RunLen(less, a + t) == |a| || RunLen(less, a + t) == |a| + RunLen(less, t)
  {
    var s := a + t;
    if |a| == 1 {
      assert s[1..] == t;
    } else {
      assert s[1..] == a[1..] + t;
      RunAcross(less, a[1..], t);
    }
  }

  lemma RunsAcross<E>(less: (E, E) -> bool, a: seq<E>, t: seq<E>)
    requires a != [] && Sorted(less, a)
    ensures Runs(less, a + t) <= 1 + Runs(less, t)
  {
    RunAcross(less, a, t);
    var n := RunLen(less, a + t);
    if t == [] {
      assert (a + t)[n..] == [];
    } else if n == |a| {
      assert (a + t)[n..] == t;
    } else {
      assert (a + t)[n..] == t[RunLen(less, t)..];
    }
  }

  /** How many runs a pass writes: one for each pair of input runs. */
  ghost function OutputRuns<E>(less: (E, E) -> bool, s: seq<E>): (n: nat) {
    (Runs(less, s) + 1) / 2
  }

  /** Each pass at least halves the number of runs, rounding up. */
  lemma {:induction false} PassHalves<E>(less: (E, E) -> bool, u: seq<E>, s: seq<E>)
    requires StrictWeak(less, u) && Within(s, u)
    ensures Runs(less, Pass(less, s)) <= OutputRuns(less, s)
    decreases |s|
  {
    if s != [] {
      var j := RunLen(less, s);
      if j < |s| {
        var k := j + RunLen(less, s[j..]);
        var a, b, c := s[..j], s[j..k], s[k..];
        FirstRuns(less, u, s, j, k);
        PassTwo(less, s, j, k);
        RunsTwo(less, s, j, k);
        hide Pass, Merge, RunLen, Runs, Sorted, StrictWeak, Within;
        MergeSorted(less, u, a, b);
        PassHalves(less, u, c);
        RunsAcross(less, Merge(less, a, b), Pass(less, c));
      } else {
        assert s[j..] == [];
      }
    }
  }

  lemma OneRunSorted<E>(less: (E, E) -> bool, u: seq<E>, s: seq<E>)
    requires StrictWeak(less, u) && Within(s, u) && Runs(less, s) <= 1
    ensures Sorted(less, s)
  {
    if s != [] {
      RunSorted(less, u, s);
      assert s[..|s|] == s;
    }
  }
}
