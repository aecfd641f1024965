/** The kernel's doubly linked lists, with a sentinel at each end, and their natural
    merge sort. */
module Lists {
  import opened ListSorting
  import opened Sequences

  /** A list element: the links, and the structure that it is embedded in. */
  class Elem<T> {
    var prev: Elem?<T>
    var next: Elem?<T>
    const value: T

    constructor (value: T)
      ensures this.value == value && prev == null && next == null
    {
      this.value := value;
      prev, next := null, null;
    }
  }

  lemma NextOf<T>(nodes: seq<Elem<T>>, i: nat)
    requires Linked(nodes) && i < |nodes| - 1
    ensures nodes[i].next == nodes[i + 1] && nodes[i + 1].prev == nodes[i]
  {
  }

  lemma SamePlace<E>(s: seq<E>, i: nat, j: nat)
    requires Distinct(s) && i < |s| && j < |s| && s[i] == s[j]
    ensures i == j
  {
  }

  /** Nothing else is at position `i`. */
  ghost predicate Only<E>(s: seq<E>, i: nat)
    requires i < |s|
  {
    forall k :: 0 <= k < |s| && k != i ==> s[k] != s[i]
  }

  /** Each node is linked to the next one and back. */
  ghost predicate Linked<T>(nodes: seq<Elem<T>>)
    reads nodes
  {
    forall i {:trigger nodes[i].next} {:trigger nodes[i + 1].prev} :: 0 <= i < |nodes| - 1 ==>
      nodes[i].next == nodes[i + 1] && nodes[i + 1].prev == nodes[i]
  }

  /** `s` with positions `f` to `l - 1` moved to position `b`. */
  ghost function Moved<E>(s: seq<E>, b: nat, f: nat, l: nat): (r: seq<E>)
    requires b <= f <= l <= |s|
    ensures |r| == |s|
  {
    s[..b] + s[f..l] + s[b..f] + s[l..]
  }

  /** Where position `i` of a moved sequence comes from. */
  function From(b: nat, f: nat, l: nat, i: nat): (k: nat)
    requires b <= f <= l
  {
    if i < b || i >= l then i else if i < b + (l - f) then f + (i - b) else i - (l - f)
  }

  lemma MovedAt<E>(s: seq<E>, b: nat, f: nat, l: nat, i: nat)
    requires b <= f <= l <= |s| && i < |s|
    ensures From(b, f, l, i) < |s| && Moved(s, b, f, l)[i] == s[From(b, f, l, i)]
  {
  }

  lemma MovedDiffer<E>(s: seq<E>, b: nat, f: nat, l: nat)
    requires b <= f <= l <= |s| && Distinct(s)
    ensures Distinct(Moved(s, b, f, l))
  {
    hide Moved;
    var r := Moved(s, b, f, l);
    forall i, j | 0 <= i < j < |r| ensures r[i] != r[j] {
      MovedAt(s, b, f, l, i);
      MovedAt(s, b, f, l, j);
    }
  }

  /** `s` with positions `f` to `l - 1` moved in front of the element at `b`. */
  ghost function Spliced<E>(s: seq<E>, b: nat, f: nat, l: nat): (r: seq<E>)
    requires f <= l <= |s| && b <= |s| && !(f <= b < l)
    ensures |r| == |s|
  {
    if b < f then Moved(s, b, f, l) else Moved(s, f, l, b)
  }

  lemma MovedNothing<E>(s: seq<E>, b: nat, f: nat)
    requires b <= f <= |s|
    ensures Moved(s, b, f, f) == s && Moved(s, b, b, f) == s
  {
  }

  lemma MovedEnds<E>(s: seq<E>, b: nat, f: nat, l: nat)
    requires 1 <= b <= f <= l < |s|
    ensures Moved(s, b, f, l)[0] == s[0] && Moved(s, b, f, l)[|s| - 1] == s[|s| - 1]
  {
  }

  lemma AllOnly<E>(s: seq<E>)
    requires Distinct(s)
    ensures forall i :: 0 <= i < |s| ==> Only(s, i)
  {
  }

  lemma LinksBack<T>(s: seq<Elem<T>>)
    requires Linked(s)
    ensures forall k :: 0 < k < |s| ==> s[k - 1].next == s[k] && s[k].prev == s[k - 1]
  {
    forall k | 0 < k < |s| ensures s[k - 1].next == s[k] && s[k].prev == s[k - 1] {
      assert s[k - 1].next == s[k - 1 + 1];
    }
  }

  /** The links of `s` once `f` to `l - 1` hang between `b - 1` and `b`. */
  ghost predicate Respliced<T>(s: seq<Elem<T>>, b: nat, f: nat, l: nat)
    requires 1 <= b < f < l < |s|
    reads s
  {
    && (forall k :: 0 <= k < |s| - 1 && k != f - 1 && k != l - 1 && k != b - 1 ==> s[k].next == s[k + 1])
    && (forall k :: 0 < k < |s| && k != f && k != l && k != b ==> s[k].prev == s[k - 1])
    && s[f - 1].next == s[l] && s[l].prev == s[f - 1]
    && s[b - 1].next == s[f] && s[f].prev == s[b - 1]
    && s[l - 1].next == s[b] && s[b].prev == s[l - 1]
  }

  /** After the six pointer updates of a splice the moved sequence is linked. */
  lemma LinkMoved<T>(s: seq<Elem<T>>, b: nat, f: nat, l: nat)
    requires 1 <= b < f < l < |s| && Respliced(s, b, f, l)
    ensures Linked(Moved(s, b, f, l))
  {
    hide Moved;
    var r := Moved(s, b, f, l);
    forall i | 0 <= i < |r| - 1 ensures r[i].next == r[i + 1] && r[i + 1].prev == r[i] {
      MovedAt(s, b, f, l, i);
      MovedAt(s, b, f, l, i + 1);
    }
  }

  /** A moved list is a list. */
  lemma LinkRange<T>(s: seq<Elem<T>>, b: nat, f: nat, l: nat)
    requires 1 <= b < f < l < |s| && Respliced(s, b, f, l) && Distinct(s)
    ensures var r := Moved(s, b, f, l);
            Linked(r) && Distinct(r) && r[0] == s[0] && r[|r| - 1] == s[|s| - 1]
  {
    MovedDiffer(s, b, f, l);
    MovedEnds(s, b, f, l);
    LinkMoved(s, b, f, l);
  }

  /** `s` with the runs from `i` and from `j` merged up to `k`. */
  ghost function MergedAt<E>(less: (E, E) -> bool, s: seq<E>, i: nat, j: nat, k: nat): (r: seq<E>)
    requires i <= j <= k <= |s|
    ensures |r| == |s|
  {
    s[..i] + Merge(less, s[i..j], s[j..k]) + s[k..]
  }

  lemma MergeTakesFirst<E>(less: (E, E) -> bool, s: seq<E>, i: nat, j: nat, k: nat)
    requires i < j < k <= |s| && !less(s[j], s[i])
    ensures MergedAt(less, s, i + 1, j, k) == MergedAt(less, s, i, j, k)
  {
    assert s[i..j][1..] == s[i + 1..j];
    assert s[..i + 1] == s[..i] + [s[i]];
  }

  lemma MovedOne<E>(s: seq<E>, i: nat, j: nat)
    requires i <= j < |s|
    ensures var r := Moved(s, i, j, j + 1);
            r[..i + 1] == s[..i] + [s[j]] && r[i + 1..j + 1] == s[i..j] && r[j + 1..] == s[j + 1..]
  {
    assert s[j..j + 1] == [s[j]];
    Pieces(s[..i], [s[j]], s[i..j], s[j + 1..]);
  }

  lemma Pieces<E>(a: seq<E>, b: seq<E>, c: seq<E>, d: seq<E>)
    ensures var r := a + b + c + d;
            var m := |a| + |b|;
            r[..m] == a + b && r[m..m + |c|] == c && r[m + |c|..] == d
  {
  }

  lemma SameTail<E>(r: seq<E>, s: seq<E>, j: nat, k: nat)
    requires |r| == |s| && j <= k <= |s| && r[j..] == s[j..]
    ensures r[j..k] == s[j..k] && r[k..] == s[k..]
  {
    assert r[j..k] == r[j..][..k - j] && s[j..k] == s[j..][..k - j];
    assert r[k..] == r[j..][k - j..] && s[k..] == s[j..][k - j..];
  }

  lemma MergeTakesSecond<E>(less: (E, E) -> bool, s: seq<E>, i: nat, j: nat, k: nat)
    requires i < j < k <= |s| && less(s[j], s[i])
    ensures var r := Moved(s, i, j, j + 1);
            MergedAt(less, r, i + 1, j + 1, k) == MergedAt(less, s, i, j, k)
            && r[i + 1] == s[i] && r[j + 1..] == s[j + 1..]
  {
    var r := Moved(s, i, j, j + 1);
    hide Merge;
    MovedOne(s, i, j);
    hide Moved;
    SameTail(r, s, j + 1, k);
    MergeHead(less, s[i..j], s[j..k]);
    assert s[j..k][1..] == s[j + 1..k];
    Associative(s[..i], [s[j]], Merge(less, s[i..j], s[j + 1..k]));
  }

  lemma MergeDone<E>(less: (E, E) -> bool, s: seq<E>, i: nat, j: nat, k: nat)
    requires i <= j <= k <= |s| && (i == j || j == k)
    ensures MergedAt(less, s, i, j, k) == s
  {
    SplitThree(s, i, k);
  }

  lemma MovedWithin<E>(s: seq<E>, b: nat, f: nat, l: nat)
    requires b <= f <= l <= |s|
    ensures Within(Moved(s, b, f, l), s)
  {
  }

  lemma NoRuns<E>(less: (E, E) -> bool)
    ensures Pass(less, []) == [] && Runs(less, []) == 0
  {
  }

  /** A list that is a single run. */
  lemma OnlyRun<E>(less: (E, E) -> bool, s: seq<E>)
    requires s != [] && RunLen(less, s) == |s|
    ensures Pass(less, s) == s && Runs(less, s) == 1
  {
  }

  lemma Slices<E>(s: seq<E>, i: nat, j: nat, k: nat, n: nat)
    requires i <= j <= k <= n <= |s|
    ensures var r := s[i..n];
            r[j - i..] == s[j..n] && r[..j - i] == s[i..j] && r[j - i..k - i] == s[j..k] && r[k - i..] == s[k..n]
  {
    var r := s[i..n];
    SliceSlice(s, i, j, n);
    SliceSlice(s, i, k, n);
    assert forall q :: 0 <= q < k - j ==> r[j - i..k - i][q] == r[j - i + q] == s[j + q] == s[j..k][q];
  }

  /** What the first two runs of `s[i..n]` mean for a pass over it. */
  lemma TwoRuns<E>(less: (E, E) -> bool, s: seq<E>, i: nat, j: nat, k: nat, n: nat)
    requires i < j < n <= |s| && j == i + RunLen(less, s[i..n])
    requires k == j + RunLen(less, s[j..n])
    ensures k <= n
    ensures Pass(less, s[i..n]) == Merge(less, s[i..j], s[j..k]) + Pass(less, s[k..n])
    ensures Runs(less, s[i..n]) == 2 + Runs(less, s[k..n])
  {
    hide RunLen, Pass, Runs, Merge;
    Slices(s, i, j, k, n);
    PassTwo(less, s[i..n], j - i, k - i);
    RunsTwo(less, s[i..n], j - i, k - i);
  }

  lemma MergedParts<E>(less: (E, E) -> bool, s: seq<E>, i: nat, j: nat, k: nat, n: nat)
    requires 1 <= i <= j <= k <= n <= |s|
    ensures var r := MergedAt(less, s, i, j, k);
            r[1..k] == s[1..i] + Merge(less, s[i..j], s[j..k]) && r[k..n] == s[k..n] && r[k..] == s[k..]
  {
  }

  /** What a pass of list_sort has established when it is at `i`. */
  ghost predicate Passed<E>(less: (E, E) -> bool, s0: seq<E>, s: seq<E>, i: nat, n: nat, runs: nat)
    requires 1 <= i <= n <= |s|
  {
    && s[1..i] + Pass(less, s[i..n]) == Pass(less, s0)
    && 2 * runs + Runs(less, s[i..n]) == Runs(less, s0)
  }

  lemma PassStarts<E>(less: (E, E) -> bool, s: seq<E>, n: nat)
    requires 1 <= n <= |s|
    ensures Passed(less, s[1..n], s, 1, n, 0)
  {
    hide Pass, Runs;
    assert s[1..1] + Pass(less, s[1..n]) == Pass(less, s[1..n]);
  }

  /** Merging the two runs from `i` to `k` keeps it. */
  lemma PassGoesOn<E>(less: (E, E) -> bool, s0: seq<E>, s: seq<E>, i: nat, j: nat, k: nat, n: nat, runs: nat)
    requires 1 <= i < j < n <= |s| && j == i + RunLen(less, s[i..n]) && k == j + RunLen(less, s[j..n])
    requires Passed(less, s0, s, i, n, runs)
    ensures k <= n && Passed(less, s0, MergedAt(less, s, i, j, k), k, n, runs + 1)
    ensures MergedAt(less, s, i, j, k)[k..] == s[k..]
  {
    hide Pass, Runs, RunLen, Merge, MergedAt;
    TwoRuns(less, s, i, j, k, n);
    MergedParts(less, s, i, j, k, n);
    var a, m, p := s[1..i], Merge(less, s[i..j], s[j..k]), Pass(less, s[k..n]);
    assert a + (m + p) == a + m + p;
  }

  /** A pass is over when one run is left, or none. */
  lemma PassEnds<E>(less: (E, E) -> bool, s0: seq<E>, s: seq<E>, i: nat, n: nat, runs: nat)
    requires 1 <= i <= n <= |s| && Passed(less, s0, s, i, n, runs)
    requires i == n || RunLen(less, s[i..n]) == n - i
    ensures s[1..n] == Pass(less, s0) && OutputRuns(less, s0) == if i == n then runs else runs + 1
  {
    if i == n {
      assert s[i..n] == [];
      NoRuns<E>(less);
    } else {
      OnlyRun(less, s[i..n]);
    }
    hide *;
    assert s[1..i] + s[i..n] == s[1..n];
  }

  lemma SameMembers<E>(less: (E, E) -> bool, r: seq<E>, s: seq<E>)
    requires StableRearrangement(less, r, s)
    ensures Within(r, s) && Within(s, r)
  {
    assert forall x :: x in r ==> x in multiset(r);
    assert forall x :: x in s ==> x in multiset(s);
  }

  /** A pass keeps a stable rearrangement stable and halves its runs. */
  lemma PassProgress<E>(less: (E, E) -> bool, u: seq<E>, s: seq<E>, r: seq<E>)
    requires StrictWeak(less, u) && StableRearrangement(less, s, u) && r == Pass(less, s)
    ensures StableRearrangement(less, r, u) && Runs(less, r) <= OutputRuns(less, s)
  {
    SameMembers(less, s, u);
    PassElements(less, s);
    PassHalves(less, u, s);
    forall x | x in u ensures Peers(less, r, x) == Peers(less, u, x) {
      PassStable(less, u, s, x);
    }
  }

  class List<T> {
    const head: Elem<T>
    const tail: Elem<T>
    ghost var nodes: seq<Elem<T>>

    ghost predicate Valid()
      reads this, nodes
    {
      && |nodes| >= 2 && nodes[0] == head && nodes[|nodes| - 1] == tail
      && Distinct(nodes) && Linked(nodes)
    }

    /** list_init. The sentinels are embedded in nothing; `filler` is never looked at. */
    constructor (filler: T)
      ensures Valid() && Inner() == [] && fresh(nodes)
    {
      var h := new Elem(filler);
      var t := new Elem(filler);
      h.next := t;
      t.prev := h;
      head, tail := h, t;
      nodes := [h, t];
    }

    /** The elements between the sentinels. */
    ghost function Inner(): (v: seq<Elem<T>>)
      requires |nodes| >= 2
      reads this
      ensures |v| == |nodes| - 2
    {
      nodes[1..|nodes| - 1]
    }

    /** The pointer updates of list_splice. */
    static method Relink(before: Elem<T>, first: Elem<T>, last: Elem<T>,
                         ghost s: seq<Elem<T>>, ghost b: nat, ghost f: nat, ghost l: nat)
      requires 1 <= f < l < |s| && 1 <= b < |s| && !(f <= b < l) && before == s[b] && first == s[f] && last == s[l]
      requires Linked(s)
      requires Only(s, f - 1) && Only(s, l - 1) && Only(s, b - 1) && Only(s, l) && Only(s, f) && Only(s, b)
      modifies s
      ensures b < f ==> Respliced(s, b, f, l)
      ensures l < b ==> Respliced(s, f, l, b)
      ensures l == b ==> Linked(s)
    {
      LinksBack(s);
      hide Linked;
      assert s[l].prev == s[l - 1] && s[f].prev == s[f - 1] && s[b].prev == s[b - 1] && s[l - 1].next == s[l];
      var back := last.prev;
      first.prev.next := back.next;
      back.next.prev := first.prev;
      first.prev := before.prev;
      back.next := before;
      before.prev.next := first;
      before.prev := back;
      forall k | 0 < k < |s| && k != f && k != l && k != b ensures s[k].prev == s[k - 1] {
        assert old(s[k].prev) == s[k - 1];
      }
      forall k | 0 <= k < |s| - 1 && k != f - 1 && k != l - 1 && k != b - 1 ensures s[k].next == s[k + 1] {
        assert old(s[k + 1 - 1].next) == s[k + 1];
      }
    }

    /** list_splice of a range that is not empty. */
    method MoveRange(before: Elem<T>, first: Elem<T>, last: Elem<T>, ghost b: nat, ghost f: nat, ghost l: nat)
      requires Valid() && 1 <= f < l < |nodes| && 1 <= b < |nodes| && !(f <= b < l)
      requires before == nodes[b] && first == nodes[f] && last == nodes[l]
      modifies this, nodes
      ensures Valid() && nodes == Spliced(old(nodes), b, f, l)
    {
      hide Distinct, Linked, Moved, Only, Respliced;
      ghost var s := nodes;
      AllOnly(s);
      Relink(before, first, last, s, b, f, l);
      nodes := Spliced(s, b, f, l);
      if b < f {
        LinkRange(s, b, f, l);
      } else if l < b {
        LinkRange(s, f, l, b);
      } else {
        MovedNothing(s, f, l);
      }
    }

    /** list_splice within one list: moves FIRST up to LAST in front of BEFORE, which is
        not one of them. */
    method Splice(before: Elem<T>, first: Elem<T>, last: Elem<T>, ghost b: nat, ghost f: nat, ghost l: nat)
      requires Valid() && 1 <= f <= l < |nodes| && 1 <= b < |nodes| && !(f <= b < l)
      requires before == nodes[b] && first == nodes[f] && last == nodes[l]
      modifies this, nodes
      ensures Valid() && nodes == Spliced(old(nodes), b, f, l)
    {
      if first == last {
        SamePlace(nodes, f, l);
        MovedNothing(nodes, if b < f then b else f, if b < f then f else b);
      } else {
        MoveRange(before, first, last, b, f, l);
      }
    }

    /** find_end_of_run, of the elements from `a` up to `b`. */
    method FindEndOfRun(a: Elem<T>, b: Elem<T>, less: (Elem<T>, Elem<T>) -> bool, ghost i: nat, ghost n: nat)
      returns (e: Elem<T>, ghost j: nat)
      requires Valid() && 1 <= i < n < |nodes| && a == nodes[i] && b == nodes[n]
      ensures j == i + RunLen(less, nodes[i..n]) && e == nodes[j]
    {
      assert nodes[i].next == nodes[i + 1];
      e, j := a.next, i + 1;
      while e != b && !less(e, e.prev)
        invariant i < j <= n && e == nodes[j] && (j < n ==> e != b)
        invariant nodes[j].prev == nodes[j - 1]
        invariant RunLen(less, nodes[i..n]) == (j - 1 - i) + RunLen(less, nodes[j - 1..n])
        decreases n - j
      {
        assert nodes[j - 1..n][1..] == nodes[j..n];
        assert nodes[j].next == nodes[j + 1];
        e, j := e.next, j + 1;
      }
    }

    /** inplace_merge of positions `i` to `j - 1` with positions `j` to `k - 1`. */
    method InplaceMerge(a0: Elem<T>, a1b0: Elem<T>, b1: Elem<T>, less: (Elem<T>, Elem<T>) -> bool,
                        ghost i0: nat, ghost j0: nat, ghost k: nat)
      requires Valid() && 1 <= i0 < j0 < k < |nodes|
      requires a0 == nodes[i0] && a1b0 == nodes[j0] && b1 == nodes[k]
      modifies this, nodes
      ensures Valid() && nodes == MergedAt(less, old(nodes), i0, j0, k) && Within(nodes, old(nodes))
    {
      hide Distinct, Linked, MergedAt, Moved;
      ghost var goal := MergedAt(less, nodes, i0, j0, k);
      var x, y := a0, a1b0;
      ghost var i, j := i0, j0;
      while x != y && y != b1
        invariant Valid() && Within(nodes, old(nodes)) && 1 <= i <= j <= k < |nodes|
        invariant x == nodes[i] && y == nodes[j] && b1 == nodes[k]
        invariant MergedAt(less, nodes, i, j, k) == goal
        decreases k - i
      {
        NextOf(nodes, i);
        NextOf(nodes, j);
        if !less(y, x) {
          MergeTakesFirst(less, nodes, i, j, k);
          x := x.next;
          i := i + 1;
        } else {
          MergeTakesSecond(less, nodes, i, j, k);
          MovedWithin(nodes, i, j, j + 1);
          y := y.next;
          assert forall q :: 0 <= q < |nodes| ==> nodes[q] in old(nodes);
          Splice(x, y.prev, y, i, j, j + 1);
          i, j := i + 1, j + 1;
        }
      }
      if x == y { SamePlace(nodes, i, j); } else { SamePlace(nodes, j, k); }
      MergeDone(less, nodes, i, j, k);
    }

    /** One pass of list_sort over the whole list; `runs` counts the runs it writes. */
    method SortPass(less: (Elem<T>, Elem<T>) -> bool) returns (runs: nat)
      requires Valid()
      modifies this, nodes
      ensures Valid() && Within(nodes, old(nodes)) && |nodes| == old(|nodes|)
      ensures Inner() == Pass(less, old(Inner())) && runs == OutputRuns(less, old(Inner()))
    {
      hide Distinct, Linked, MergedAt, Merge, RunLen, Pass, Runs, OutputRuns, Passed;
      ghost var n, s0 := |nodes| - 1, Inner();
      runs := 0;
      NextOf(nodes, 0);
      PassStarts(less, nodes, n);
      var a0 := head.next;
      ghost var i := 1;
      while a0 != tail
        invariant Valid() && Within(nodes, old(nodes)) && |nodes| == n + 1 && 1 <= i <= n && a0 == nodes[i]
        invariant Passed(less, s0, nodes, i, n, runs)
        decreases n - i
      {
        runs := runs + 1;
        var a1b0, b1;
        ghost var j, k;
        a1b0, j := FindEndOfRun(a0, tail, less, i, n);
        if a1b0 == tail {
          SamePlace(nodes, j, n);
          PassEnds(less, s0, nodes, i, n, runs - 1);
          return;
        }
        b1, k := FindEndOfRun(a1b0, tail, less, j, n);
        PassGoesOn(less, s0, nodes, i, j, k, n, runs - 1);
        assert forall q :: 0 <= q < |nodes| ==> nodes[q] in old(nodes);
        InplaceMerge(a0, a1b0, b1, less, i, j, k);
        a0, i := b1, k;
      }
      SamePlace(nodes, i, n);
      PassEnds(less, s0, nodes, i, n, runs);
    }

    /** list_sort: terminates because each pass at least halves the number of runs, and
        leaves the same elements sorted, equivalent ones in their old order. */
    method Sort(less: (Elem<T>, Elem<T>) -> bool)
      requires Valid() && StrictWeak(less, Inner())
      modifies this, nodes
      ensures Valid() && Sorted(less, Inner()) && StableRearrangement(less, Inner(), old(Inner()))
    {
      hide Distinct, StrictWeak, Sorted;
      ghost var u := Inner();
      var runs := SortPass(less);
      PassProgress(less, u, u, Inner());
      while runs > 1
        invariant Valid() && |nodes| == old(|nodes|) && Within(nodes, old(nodes))
        invariant StableRearrangement(less, Inner(), u)
        invariant Runs(less, Inner()) <= runs
        decreases runs
      {
        ghost var before := Inner();
        assert forall q :: 0 <= q < |nodes| ==> nodes[q] in old(nodes);
        runs := SortPass(less);
        PassProgress(less, u, before, Inner());
      }
      SameMembers(less, Inner(), u);
      OneRunSorted(less, u, Inner());
    }
  }
}
