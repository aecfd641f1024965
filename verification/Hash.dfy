/** The chained hash table that resizes itself. */
module Hash {

  import opened Bits
  import opened Options

  /** What a user of the table supplies. Two elements are equal when neither is less;
      `key` names the class of equal elements. */
  datatype Ops<!E(!new), !K(!new)> = Ops(hash: E -> nat, less: (E, E) -> bool, ghost key: E -> K)

  /** Equal elements must have the same hash. */
  ghost predicate Lawful<E(!new), K(!new)>(ops: Ops<E, K>) {
    && (forall a, b :: !ops.less(a, b) && !ops.less(b, a) <==> ops.key(a) == ops.key(b))
    && (forall a, b :: ops.key(a) == ops.key(b) ==> ops.hash(a) == ops.hash(b))
  }

  /** find_bucket: the index of the bucket for `e` among `cnt`. */
  function BucketOf<E(!new), K(!new)>(ops: Ops<E, K>, cnt: nat, e: E): (r: nat)
    requires cnt > 0
    ensures r < cnt
  {
    And(ops.hash(e), cnt - 1)
  }

  /** With a power of two buckets, masking spreads the hashes over all of them. */
  lemma BucketIsRemainder<E(!new), K(!new)>(ops: Ops<E, K>, cnt: nat, e: E)
    requires IsPow2(cnt)
    ensures cnt > 0 && BucketOf(ops, cnt, e) == ops.hash(e) % cnt
  {
    var k: nat :| cnt == Pow2(k);
    AndMask(ops.hash(e), k);
  }

  /** The buckets hold the elements of `content`, each once and in its own bucket. */
  ghost predicate Table<E(!new), K(!new)>(ops: Ops<E, K>, buckets: seq<seq<E>>, content: map<K, E>) {
    && |buckets| > 0
    && (forall i, j :: 0 <= i < |buckets| && 0 <= j < |buckets[i]| ==> Placed(ops, |buckets|, content, i, buckets[i][j]))
    && (forall i, j, m :: 0 <= i < |buckets| && 0 <= j < m < |buckets[i]| ==> ops.key(buckets[i][j]) != ops.key(buckets[i][m]))
    && (forall k :: k in content ==> ops.key(content[k]) == k && content[k] in buckets[BucketOf(ops, |buckets|, content[k])])
  }

  ghost predicate Placed<E(!new), K(!new)>(ops: Ops<E, K>, cnt: nat, content: map<K, E>, i: nat, e: E)
    requires cnt > 0
  {
    ops.key(e) in content && content[ops.key(e)] == e && BucketOf(ops, cnt, e) == i
  }

  /** An element with a new key goes to the front of its bucket. */
  lemma TableInsert<E(!new), K(!new)>(ops: Ops<E, K>, buckets: seq<seq<E>>, content: map<K, E>, e: E)
    requires Table(ops, buckets, content) && ops.key(e) !in content
    ensures var i := BucketOf(ops, |buckets|, e);
            Table(ops, buckets[i := [e] + buckets[i]], content[ops.key(e) := e])
  {
    var at := BucketOf(ops, |buckets|, e);
    var b, c := buckets[at := [e] + buckets[at]], content[ops.key(e) := e];
    hide BucketOf;
    forall i, j | 0 <= i < |b| && 0 <= j < |b[i]| ensures Placed(ops, |b|, c, i, b[i][j]) {
      if i == at && j == 0 {
      } else {
        assert Placed(ops, |buckets|, content, i, if i == at then buckets[i][j - 1] else buckets[i][j]);
      }
    }
    forall i, j, m | 0 <= i < |b| && 0 <= j < m < |b[i]| ensures ops.key(b[i][j]) != ops.key(b[i][m]) {
      if i == at { assert Placed(ops, |buckets|, content, i, buckets[i][m - 1]); }
    }
    forall k | k in c ensures ops.key(c[k]) == k && c[k] in b[BucketOf(ops, |b|, c[k])] {
      if k == ops.key(e) { assert b[at][0] == e; }
    }
  }

  ghost function Without<E>(buckets: seq<seq<E>>, at: nat, at2: nat): seq<seq<E>>
    requires at < |buckets| && at2 < |buckets[at]|
  {
    buckets[at := buckets[at][..at2] + buckets[at][at2 + 1..]]
  }

  /** Where element `j` of bucket `i` was before. */
  lemma WithoutAt<E>(buckets: seq<seq<E>>, at: nat, at2: nat, i: nat, j: nat)
    requires at < |buckets| && at2 < |buckets[at]| && i < |buckets| && j < |Without(buckets, at, at2)[i]|
    ensures var j1 := if i == at && j >= at2 then j + 1 else j;
            j1 < |buckets[i]| && Without(buckets, at, at2)[i][j] == buckets[i][j1] && (i == at ==> j1 != at2)
  {
  }

  lemma WithoutHas<E>(buckets: seq<seq<E>>, at: nat, at2: nat, i: nat, j: nat)
    requires at < |buckets| && at2 < |buckets[at]| && i < |buckets| && j < |buckets[i]| && (i == at ==> j != at2)
    ensures buckets[i][j] in Without(buckets, at, at2)[i]
  {
    var b := Without(buckets, at, at2);
    assert b[i][if i == at && j > at2 then j - 1 else j] == buckets[i][j];
  }

  /** Element `at2` of bucket `at` is taken out. */
  lemma TableRemove<E(!new), K(!new)>(ops: Ops<E, K>, buckets: seq<seq<E>>, content: map<K, E>, at: nat, at2: nat)
    requires Table(ops, buckets, content) && at < |buckets| && at2 < |buckets[at]|
    ensures Table(ops, Without(buckets, at, at2), content - {ops.key(buckets[at][at2])})
  {
    var e := buckets[at][at2];
    var b, c := Without(buckets, at, at2), content - {ops.key(e)};
    assert |b| == |buckets|;
    assert Placed(ops, |buckets|, content, at, e);
    hide BucketOf, Without;
    forall i, j | 0 <= i < |b| && 0 <= j < |b[i]| ensures Placed(ops, |b|, c, i, b[i][j]) {
      WithoutAt(buckets, at, at2, i, j);
      var j1 := if i == at && j >= at2 then j + 1 else j;
      assert Placed(ops, |buckets|, content, i, buckets[i][j1]);
    }
    forall i, j, m | 0 <= i < |b| && 0 <= j < m < |b[i]| ensures ops.key(b[i][j]) != ops.key(b[i][m]) {
      WithoutAt(buckets, at, at2, i, j);
      WithoutAt(buckets, at, at2, i, m);
    }
    forall k | k in c ensures ops.key(c[k]) == k && c[k] in b[BucketOf(ops, |b|, c[k])] {
      var i := BucketOf(ops, |buckets|, content[k]);
      var j :| 0 <= j < |buckets[i]| && buckets[i][j] == content[k];
      WithoutHas(buckets, at, at2, i, j);
    }
  }

  lemma KeyOf<E(!new), K(!new)>(ops: Ops<E, K>, buckets: seq<seq<E>>, content: map<K, E>, k: K)
    requires Table(ops, buckets, content) && k in content
    ensures ops.key(content[k]) == k
  {
  }

  /** The bucket of `e` has an equal element exactly when the content has its key. */
  lemma TableFind<E(!new), K(!new)>(ops: Ops<E, K>, buckets: seq<seq<E>>, content: map<K, E>, e: E)
    requires Lawful(ops) && Table(ops, buckets, content)
    ensures var b := buckets[BucketOf(ops, |buckets|, e)];
            && (ops.key(e) in content ==> content[ops.key(e)] in b)
            && (forall j :: 0 <= j < |b| && ops.key(b[j]) == ops.key(e) ==> ops.key(e) in content && b[j] == content[ops.key(e)])
  {
    var k, i := ops.key(e), BucketOf(ops, |buckets|, e);
    if k in content { assert BucketOf(ops, |buckets|, content[k]) == i; }
    forall j | 0 <= j < |buckets[i]| && ops.key(buckets[i][j]) == k ensures k in content && buckets[i][j] == content[k] {
      assert Placed(ops, |buckets|, content, i, buckets[i][j]);
    }
  }

  /** Half the number of elements, and at least four. */
  function Wanted(elemCnt: nat): (r: nat)
    ensures r >= 4
  {
    if elemCnt / 2 < 4 then 4 else elemCnt / 2
  }

  /** The largest power of two that is not above half the number of elements, and at least
      four. */
  ghost predicate Ideal(cnt: nat, elemCnt: nat) {
    && IsPow2(cnt) && 4 <= cnt <= Wanted(elemCnt)
    && forall k: nat :: Pow2(k) <= Wanted(elemCnt) ==> Pow2(k) <= cnt
  }

  /** The number of buckets that rehash wants. */
  method IdealCount(elemCnt: nat) returns (r: nat)
    ensures Ideal(r, elemCnt)
  {
    r := elemCnt / 2;
    if r < 4 { r := 4; }
    ghost var start := r;
    while ClearLow(r) != 0
      invariant r > 0 && Top(r) == Top(start)
      decreases r
    {
      ClearLowTop(r);
      r := ClearLow(r);
    }
    ClearLowZero(r);
    ghost var k: nat :| r == Pow2(k);
    TopOfPow2(k);
    assert Pow2(2) == 4;
    forall k: nat | Pow2(k) <= start ensures Pow2(k) <= r {
      TopLargest(start, k);
    }
  }

  /** The buckets before `i`, and the first `j` elements of bucket `i`, are in `done`;
      the other elements are not. */
  ghost predicate Progress<E(!new), K(!new)>(ops: Ops<E, K>, from: seq<seq<E>>, content: map<K, E>, done: map<K, E>, i: nat, j: nat) {
    && (forall k :: k in done ==> k in content && done[k] == content[k])
    && (forall a, b :: 0 <= a < |from| && 0 <= b < |from[a]| ==> (ops.key(from[a][b]) in done <==> a < i || (a == i && b < j)))
  }

  lemma {:induction false} EmptyBuckets<E(!new), K(!new)>(ops: Ops<E, K>, cnt: nat)
    requires cnt > 0
    ensures Table(ops, seq(cnt, _ => []), map[])
  {
  }

  lemma ProgressStep<E(!new), K(!new)>(ops: Ops<E, K>, from: seq<seq<E>>, content: map<K, E>, done: map<K, E>, i: nat, j: nat)
    requires Table(ops, from, content) && Progress(ops, from, content, done, i, j) && i < |from| && j < |from[i]|
    ensures ops.key(from[i][j]) !in done
    ensures Progress(ops, from, content, done[ops.key(from[i][j]) := from[i][j]], i, j + 1)
  {
    var e := from[i][j];
    assert Placed(ops, |from|, content, i, e);
    forall a, b | 0 <= a < |from| && 0 <= b < |from[a]|
      ensures ops.key(from[a][b]) in done[ops.key(e) := e] <==> a < i || (a == i && b < j + 1)
    {
      assert Placed(ops, |from|, content, a, from[a][b]);
      assert a == i && b != j ==> ops.key(from[a][b]) != ops.key(e);
    }
  }

  lemma ProgressDone<E(!new), K(!new)>(ops: Ops<E, K>, from: seq<seq<E>>, content: map<K, E>, done: map<K, E>)
    requires Table(ops, from, content) && Progress(ops, from, content, done, |from|, 0)
    ensures done == content
  {
    forall k | k in content ensures k in done {
      var i := BucketOf(ops, |from|, content[k]);
      var j :| 0 <= j < |from[i]| && from[i][j] == content[k];
    }
  }

  class HashTable<E(!new), K(!new)> {
    const ops: Ops<E, K>
    var buckets: seq<seq<E>>
    var elemCnt: nat
    /** The finite map that the table stands for. */
    ghost var content: map<K, E>

    ghost predicate Valid()
      reads this
    {
      && Lawful(ops) && Table(ops, buckets, content)
      && elemCnt == |content| && IsPow2(|buckets|) && |buckets| >= 4
    }

    constructor (ops: Ops<E, K>)
      requires Lawful(ops)
      ensures Valid() && content == map[] && this.ops == ops
    {
      this.ops := ops;
      buckets, elemCnt, content := seq(4, _ => []), 0, map[];
      assert Pow2(2) == 4;
    }

    /** find_elem: where an equal element is in the bucket. */
    method FindElem(e: E) returns (at: Option<nat>)
      requires Valid()
      ensures at.None? <==> ops.key(e) !in content
      ensures at.Some? ==> var b := buckets[BucketOf(ops, |buckets|, e)]; at.value < |b| && b[at.value] == content[ops.key(e)]
    {
      TableFind(ops, buckets, content, e);
      var bucket := buckets[BucketOf(ops, |buckets|, e)];
      var j := 0;
      while j < |bucket|
        invariant j <= |bucket|
        invariant forall m :: 0 <= m < j ==> ops.key(bucket[m]) != ops.key(e)
      {
        if !ops.less(bucket[j], e) && !ops.less(e, bucket[j]) {
          return Some(j);
        }
        j := j + 1;
      }
      return None;
    }

    /** The moving loops of rehash. */
    method Redistribute(cnt: nat) returns (dest: seq<seq<E>>)
      requires Valid() && cnt > 0
      ensures |dest| == cnt && Table(ops, dest, content)
    {
      hide BucketOf, Lawful;
      dest := seq(cnt, _ => []);
      ghost var done: map<K, E> := map[];
      EmptyBuckets(ops, cnt);
      var i := 0;
      while i < |buckets|
        invariant i <= |buckets| && |dest| == cnt
        invariant Table(ops, dest, done) && Progress(ops, buckets, content, done, i, 0)
      {
        var j := 0;
        while j < |buckets[i]|
          invariant j <= |buckets[i]| && |dest| == cnt
          invariant Table(ops, dest, done) && Progress(ops, buckets, content, done, i, j)
        {
          var e := buckets[i][j];
          ProgressStep(ops, buckets, content, done, i, j);
          TableInsert(ops, dest, done, e);
          var b := BucketOf(ops, cnt, e);
          dest := dest[b := [e] + dest[b]];
          done := done[ops.key(e) := e];
          j := j + 1;
        }
        i := i + 1;
      }
      ProgressDone(ops, buckets, content, done);
    }

    /** rehash; `granted` is the answer to its request for memory. */
    method Rehash(granted: bool)
      requires Valid()
      modifies this`buckets
      ensures Valid()
      ensures if granted then Ideal(|buckets|, elemCnt) else buckets == old(buckets)
    {
      hide Lawful, Table;
      var cnt := IdealCount(elemCnt);
      if cnt == |buckets| { return; }
      if !granted { return; }
      buckets := Redistribute(cnt);
    }

    /** insert_elem. */
    method InsertElem(e: E)
      requires Valid() && ops.key(e) !in content
      modifies this
      ensures Valid() && content == old(content)[ops.key(e) := e] && |buckets| == |old(buckets)|
    {
      TableInsert(ops, buckets, content, e);
      Bigger(content, ops.key(e), e);
      hide Table, Lawful;
      elemCnt := elemCnt + 1;
      var i := BucketOf(ops, |buckets|, e);
      buckets := buckets[i := [e] + buckets[i]];
      content := content[ops.key(e) := e];
    }

    /** remove_elem on element `j` of the bucket of `e`. */
    method RemoveElem(e: E, j: nat)
      requires Valid() && ops.key(e) in content
      requires var b := buckets[BucketOf(ops, |buckets|, e)]; j < |b| && b[j] == content[ops.key(e)]
      modifies this
      ensures Valid() && content == old(content) - {ops.key(e)} && |buckets| == |old(buckets)|
    {
      hide Table, Lawful, BucketOf;
      var i := BucketOf(ops, |buckets|, e);
      KeyOf(ops, buckets, content, ops.key(e));
      TableRemove(ops, buckets, content, i, j);
      Smaller(content, ops.key(e));
      elemCnt := elemCnt - 1;
      buckets := buckets[i := buckets[i][..j] + buckets[i][j + 1..]];
      content := content - {ops.key(e)};
    }

    method Find(e: E) returns (r: Option<E>)
      requires Valid()
      ensures r == if ops.key(e) in content then Some(content[ops.key(e)]) else None
    {
      var at := FindElem(e);
      hide Table, Lawful;
      if at.None? { return None; }
      return Some(buckets[BucketOf(ops, |buckets|, e)][at.value]);
    }

    /** An equal element that is already there stays, and is returned. */
    method Insert(e: E, granted: bool) returns (r: Option<E>)
      requires Valid()
      modifies this
      ensures Valid()
      ensures r == if ops.key(e) in old(content) then Some(old(content)[ops.key(e)]) else None
      ensures content == if ops.key(e) in old(content) then old(content) else old(content)[ops.key(e) := e]
      ensures if granted then Ideal(|buckets|, elemCnt) else |buckets| == |old(buckets)|
    {
      hide Table, Lawful, BucketOf;
      r := Find(e);
      if r.None? { InsertElem(e); }
      Rehash(granted);
    }

    /** An equal element that is already there gives way, and is returned. */
    method Replace(e: E, granted: bool) returns (r: Option<E>)
      requires Valid()
      modifies this
      ensures Valid()
      ensures r == if ops.key(e) in old(content) then Some(old(content)[ops.key(e)]) else None
      ensures content == old(content)[ops.key(e) := e]
      ensures if granted then Ideal(|buckets|, elemCnt) else |buckets| == |old(buckets)|
    {
      hide Table, Lawful, BucketOf;
      r := None;
      var at := FindElem(e);
      if at.Some? {
        r := Some(buckets[BucketOf(ops, |buckets|, e)][at.value]);
        RemoveElem(e, at.value);
      }
      InsertElem(e);
      assert content == old(content)[ops.key(e) := e];
      Rehash(granted);
    }

    method Delete(e: E, granted: bool) returns (r: Option<E>)
      requires Valid()
      modifies this
      ensures Valid() && content == old(content) - {ops.key(e)}
      ensures if granted && ops.key(e) in old(content) then Ideal(|buckets|, elemCnt) else |buckets| == |old(buckets)|
      ensures r == if ops.key(e) in old(content) then Some(old(content)[ops.key(e)]) else None
    {
      hide Table, Lawful, BucketOf;
      r := None;
      var at := FindElem(e);
      if at.Some? {
        r := Some(buckets[BucketOf(ops, |buckets|, e)][at.value]);
        RemoveElem(e, at.value);
        Rehash(granted);
      }
    }
  }

  lemma Bigger<K, V>(m: map<K, V>, k: K, v: V)
    requires k !in m
    ensures |m[k := v]| == |m| + 1
  {
    assert m[k := v].Keys == m.Keys + {k};
  }

  lemma Smaller<K, V>(m: map<K, V>, k: K)
    requires k in m
    ensures |m - {k}| == |m| - 1 && |m| > 0
  {
    assert m.Keys == (m - {k}).Keys + {k};
  }
}
