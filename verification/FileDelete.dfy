/** The last close of a removed file: every sector it reaches is released, once. */
module FileDelete {
  import opened Sectors
  import opened BlockTree
  import opened Inodes
  import opened FileBytes
  import opened Files
  import opened InodeRollback

  /** From `flat0` and `used0`, exactly the sectors in `gone` were released. */
  ghost predicate Released(flat0: seq<seq<Byte>>, used0: seq<bool>, v: Volume, gone: set<Word>)
    reads v.cache, v.freeMap.used
  {
    && v.Valid() && |v.cache.flat| == |flat0| == |used0|
    && forall x :: 0 <= x < |used0| ==>
         if x in gone then !v.freeMap.used.bits[x]
         else v.freeMap.used.bits[x] == used0[x] && v.cache.flat[x] == flat0[x]
  }

  /** Data sectors `a` to `b - 1`. */
  ghost function Span(s: seq<Word>, a: nat, b: nat): set<Word> {
    set k | a <= k < b && k < |s| :: s[k]
  }

  /** The sectors at the positions in `at`. */
  ghost function Picks(s: seq<Word>, at: set<nat>): set<Word> {
    set i | i in at && i < |s| :: s[i]
  }

  lemma SpanNext(s: seq<Word>, a: nat, b: nat)
    requires a <= b
    ensures Span(s, a, b + 1) == Span(s, a, b) + if b < |s| then {s[b]} else {}
  {
  }

  lemma SpanAll(s: seq<Word>, n: nat)
    requires |s| <= n
    ensures Span(s, 0, n) == set x | x in s
  {
    forall x | x in s ensures x in Span(s, 0, n) {
      var k :| 0 <= k < |s| && s[k] == x;
    }
  }

  /** Releases one sector that is still in use. */
  method Release(v: Volume, sector: nat, ghost flat0: seq<seq<Byte>>, ghost used0: seq<bool>, ghost gone: set<Word>)
    requires Released(flat0, used0, v, gone) && sector < |flat0| && used0[sector] && sector !in gone
    modifies v.cache, v.freeMap.used
    ensures Released(flat0, used0, v, gone + {sector})
  {
    v.FreeOne(sector);
  }

  /** What a file's sectors look like while it is being taken apart. */
  ghost predicate Dismantling(flat0: seq<seq<Byte>>, used0: seq<bool>, v: Volume, f: File, dataGone: nat, idxGone: set<nat>)
    reads v.cache, v.freeMap.used
  {
    && Healthy(flat0, used0, f)
    && Released(flat0, used0, v, Span(f.data, 0, dataGone) + Picks(f.idx, idxGone))
  }

  /** The next data sector is still there. */
  lemma DataStays(flat: seq<seq<Byte>>, used: seq<bool>, f: File, k: nat, idxGone: set<nat>)
    requires Healthy(flat, used, f) && k < |f.data|
    ensures f.data[k] < |flat| == |used| && used[f.data[k]]
    ensures f.data[k] !in Span(f.data, 0, k) + Picks(f.idx, idxGone)
  {
    TreePointers(TreeOf(flat, used, f), {});
    hide Tree;
  }

  /** So is an index block that was not released. */
  lemma IndexStays(flat: seq<seq<Byte>>, used: seq<bool>, f: File, b: nat, n: nat, idxGone: set<nat>)
    requires Healthy(flat, used, f) && b < |f.idx| && b !in idxGone
    ensures f.idx[b] < |flat| == |used| && used[f.idx[b]] && f.idx[b] != NONE
    ensures f.idx[b] !in Span(f.data, 0, n) + Picks(f.idx, idxGone)
    ensures Covers(Unpack(flat[f.idx[b]]), if b == 1 then f.idx else f.data, BaseOf(b))
  {
    TreePointers(TreeOf(flat, used, f), {});
    TreeBlock(TreeOf(flat, used, f), {}, b);
    hide Tree;
  }

  method ReleaseData(v: Volume, sector: nat, ghost k: nat, ghost flat0: seq<seq<Byte>>, ghost used0: seq<bool>,
                     ghost f: File, ghost idxGone: set<nat>)
    requires Dismantling(flat0, used0, v, f, k, idxGone) && k < |f.data| && sector == f.data[k]
    modifies v.cache, v.freeMap.used
    ensures Dismantling(flat0, used0, v, f, k + 1, idxGone)
  {
    hide Healthy, Released, Span;
    DataStays(flat0, used0, f, k, idxGone);
    ghost var idx := Picks(f.idx, idxGone);
    Release(v, sector, flat0, used0, Span(f.data, 0, k) + idx);
    SpanNext(f.data, 0, k);
    assert Span(f.data, 0, k) + idx + {sector} == Span(f.data, 0, k + 1) + idx;
  }

  method ReleaseIndex(v: Volume, sector: nat, ghost b: nat, ghost n: nat, ghost flat0: seq<seq<Byte>>,
                      ghost used0: seq<bool>, ghost f: File, ghost idxGone: set<nat>)
    requires Dismantling(flat0, used0, v, f, n, idxGone) && b < |f.idx| && b !in idxGone && sector == f.idx[b]
    modifies v.cache, v.freeMap.used
    ensures Dismantling(flat0, used0, v, f, n, idxGone + {b})
  {
    hide Healthy, Released, Span;
    IndexStays(flat0, used0, f, b, n, idxGone);
    ghost var idx := Picks(f.idx, idxGone);
    ghost var idx' := Picks(f.idx, idxGone + {b});
    Release(v, sector, flat0, used0, Span(f.data, 0, n) + idx);
    assert idx' == idx + {sector};
    assert Span(f.data, 0, n) + idx + {sector} == Span(f.data, 0, n) + idx';
  }

  method ReadLive(v: Volume, sector: nat, ghost b: nat, ghost n: nat, ghost flat0: seq<seq<Byte>>,
                  ghost used0: seq<bool>, ghost f: File, ghost idxGone: set<nat>) returns (ib: seq<Word>)
    requires Dismantling(flat0, used0, v, f, n, idxGone) && b < |f.idx| && b !in idxGone && sector == f.idx[b]
    modifies v.cache
    ensures Dismantling(flat0, used0, v, f, n, idxGone)
    ensures Covers(ib, if b == 1 then f.idx else f.data, BaseOf(b))
  {
    IndexStays(flat0, used0, f, b, n, idxGone);
    hide Healthy, Span, Covers;
    ib := v.ReadIndex(sector);
  }

  lemma NothingThere(flat0: seq<seq<Byte>>, used0: seq<bool>, v: Volume, f: File, a: nat, b: nat, idxGone: set<nat>)
    requires Dismantling(flat0, used0, v, f, a, idxGone) && |f.data| <= a <= b
    ensures Dismantling(flat0, used0, v, f, b, idxGone)
  {
    assert Span(f.data, 0, a) == Span(f.data, 0, b);
  }

  /** inode_indirect_close on index block `b`. */
  method IndirectClose(v: Volume, sector: nat, ghost b: nat, ghost flat0: seq<seq<Byte>>, ghost used0: seq<bool>,
                       ghost f: File, ghost idxGone: set<nat>)
    requires b != 1 && b < |f.idx| && b !in idxGone && sector == f.idx[b]
    requires Dismantling(flat0, used0, v, f, BaseOf(b), idxGone)
    modifies v.cache, v.freeMap.used
    ensures Dismantling(flat0, used0, v, f, BaseOf(b) + 128, idxGone + {b})
  {
    hide Released, Span, Healthy, Picks;
    var ib := ReadLive(v, sector, b, BaseOf(b), flat0, used0, f, idxGone);
    HealthyPointers(flat0, used0, f);
    hide Dismantling;
    var i := 0;
    while i < WORDS
      invariant 0 <= i <= WORDS && Dismantling(flat0, used0, v, f, BaseOf(b) + i, idxGone)
    {
      if ib[i] != NONE {
        ReleaseData(v, ib[i], BaseOf(b) + i, flat0, used0, f, idxGone);
      } else {
        NothingThere(flat0, used0, v, f, BaseOf(b) + i, BaseOf(b) + i + 1, idxGone);
      }
      i := i + 1;
    }
    ReleaseIndex(v, sector, b, BaseOf(b) + 128, flat0, used0, f, idxGone);
  }

  /** The index blocks that are gone once the first `n` blocks below the doubly indirect
      block are. */
  ghost function Below(n: nat): (r: set<nat>)
    ensures forall j: nat :: j in r <==> j < n + 2 && j != 1
  {
    if n == 0 then {0} else Below(n - 1) + {n + 1}
  }

  method CloseDirect(v: Volume, d: InodeDisk, ghost flat0: seq<seq<Byte>>, ghost used0: seq<bool>, ghost f: File)
    requires Matches(d, f) && Dismantling(flat0, used0, v, f, 0, {})
    modifies v.cache, v.freeMap.used
    ensures Dismantling(flat0, used0, v, f, DIRECT, {})
  {
    hide Healthy, Released, Span, Picks;
    HealthyPointers(flat0, used0, f);
    hide Dismantling;
    var i := 0;
    while i < DIRECT
      invariant 0 <= i <= DIRECT && Dismantling(flat0, used0, v, f, i, {})
    {
      if d.direct[i] != NONE {
        ReleaseData(v, d.direct[i], i, flat0, used0, f, {});
      } else {
        NothingThere(flat0, used0, v, f, i, i + 1, {});
      }
      i := i + 1;
    }
  }

  /** One pointer of the doubly indirect block. */
  method CloseSub(v: Volume, ghost i: nat, sector: Word, ghost flat0: seq<seq<Byte>>, ghost used0: seq<bool>, ghost f: File)
    requires Dismantling(flat0, used0, v, f, SINGLE + 128 * i, Below(i)) && 2 <= |f.idx|
    requires sector == Entry(f.idx, i + 2) && (sector == NONE <==> |f.idx| <= i + 2)
    modifies v.cache, v.freeMap.used
    ensures Dismantling(flat0, used0, v, f, SINGLE + 128 * (i + 1), Below(i + 1))
  {
    hide Dismantling;
    assert Below(i + 1) == Below(i) + {i + 2};
    if sector != NONE {
      IndirectClose(v, sector, i + 2, flat0, used0, f, Below(i));
    } else {
      NoBlock(flat0, used0, v, f, i);
    }
  }

  method CloseDoubly(v: Volume, d: InodeDisk, ghost flat0: seq<seq<Byte>>, ghost used0: seq<bool>, ghost f: File)
    requires Matches(d, f) && Dismantling(flat0, used0, v, f, SINGLE, {0}) && |f.idx| >= 2
    modifies v.cache, v.freeMap.used
    ensures Dismantling(flat0, used0, v, f, MAX_SECTORS, Below(WORDS) + {1})
  {
    hide Healthy, Released, Span, Picks;
    HealthyPointers(flat0, used0, f);
    var dib := ReadLive(v, d.doublyIndirect, 1, SINGLE, flat0, used0, f, {0});
    hide Dismantling;
    var i := 0;
    assert Below(0) == {0};
    while i < WORDS
      invariant 0 <= i <= WORDS && Dismantling(flat0, used0, v, f, SINGLE + 128 * i, Below(i))
    {
      CloseSub(v, i, dib[i], flat0, used0, f);
      i := i + 1;
    }
    ReleaseIndex(v, d.doublyIndirect, 1, MAX_SECTORS, flat0, used0, f, Below(WORDS));
  }

  lemma NoBlock(flat0: seq<seq<Byte>>, used0: seq<bool>, v: Volume, f: File, i: nat)
    requires Dismantling(flat0, used0, v, f, SINGLE + 128 * i, Below(i)) && 2 <= |f.idx| <= i + 2
    ensures Dismantling(flat0, used0, v, f, SINGLE + 128 * (i + 1), Below(i + 1))
  {
    TreePointers(TreeOf(flat0, used0, f), {});
    CapOf(|f.idx|, i + 2);
    NothingThere(flat0, used0, v, f, SINGLE + 128 * i, SINGLE + 128 * (i + 1), Below(i));
    assert Picks(f.idx, Below(i)) == Picks(f.idx, Below(i + 1));
  }

  lemma CapOf(m: nat, n: nat)
    requires 2 <= m <= n
    ensures Cap(m) <= SINGLE + 128 * (n - 2)
  {
  }

  /** inode_close, for the last opener of a removed file: exactly the sectors that the
      file owns become free, each of them released once. */
  method CloseRemoved(v: Volume, d: InodeDisk, sector: Word, ghost f: File)
    requires v.Valid() && Healthy(v.cache.flat, v.freeMap.used.bits, f) && Matches(d, f) && sector == f.sector
    modifies v.cache, v.freeMap.used
    ensures Released(old(v.cache.flat), old(v.freeMap.used.bits), v, Owned(f))
  {
    v.cache.Flush();
    ghost var flat, used := v.cache.flat, v.freeMap.used.bits;
    hide Healthy;
    CloseTree(v, d, flat, used, f);
    OwnedUsed(flat, used, f);
    Release(v, sector, flat, used, Owned(f) - {sector});
    assert Owned(f) - {sector} + {sector} == Owned(f);
  }

  /** Releases everything below the inode. */
  method CloseTree(v: Volume, d: InodeDisk, ghost flat: seq<seq<Byte>>, ghost used: seq<bool>, ghost f: File)
    requires v.Valid() && flat == v.cache.flat && used == v.freeMap.used.bits && Healthy(flat, used, f) && Matches(d, f)
    modifies v.cache, v.freeMap.used
    ensures Released(flat, used, v, Owned(f) - {f.sector})
  {
    hide Healthy, Released, Span, Owned, Picks;
    HealthyPointers(flat, used, f);
    Untaken(flat, used, v, f);
    CloseDirect(v, d, flat, used, f);
    ghost var n: nat, gone: set<nat> := DIRECT, {};
    if d.indirect != NONE {
      IndirectClose(v, d.indirect, 0, flat, used, f, {});
      n, gone := SINGLE, {0};
      assert {} + {0} == gone;
    }
    if d.doublyIndirect != NONE {
      CloseDoubly(v, d, flat, used, f);
      n, gone := MAX_SECTORS, Below(WORDS) + {1};
      CapMonotone(|f.idx|, MAX_INDEX);
    }
    Whole(flat, used, f, n, gone);
  }

  lemma Untaken(flat: seq<seq<Byte>>, used: seq<bool>, v: Volume, f: File)
    requires v.Valid() && flat == v.cache.flat && used == v.freeMap.used.bits && Healthy(flat, used, f)
    ensures Dismantling(flat, used, v, f, 0, {})
  {
    assert Span(f.data, 0, 0) + Picks(f.idx, {}) == {};
  }

  lemma Whole(flat: seq<seq<Byte>>, used: seq<bool>, f: File, n: nat, gone: set<nat>)
    requires Healthy(flat, used, f) && |f.data| <= n && forall i :: 0 <= i < |f.idx| ==> i in gone
    ensures Span(f.data, 0, n) + Picks(f.idx, gone) == Owned(f) - {f.sector}
  {
    SpanAll(f.data, n);
    var idx := Picks(f.idx, gone);
    forall x | x in f.idx ensures x in idx {
      var i :| 0 <= i < |f.idx| && f.idx[i] == x;
      assert i in gone;
    }
    assert idx == set x | x in f.idx;
    hide Tree;
  }
}
