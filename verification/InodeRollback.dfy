/** Undoing a growth that ran out of disk space: the `fail` path of growing an inode.

    It pops data sectors from the end of the file until as many are gone as the failed
    call had obtained, and releases each index block that becomes empty on the way. */
module InodeRollback {
  import opened Sectors
  import opened Bitmaps
  import opened BlockTree
  import opened Inodes

  /** A growth of `s0` under way: `got` data sectors obtained, and at most the index
      blocks that the next data sector needs. */
  ghost predicate Growing(v: Volume, d: InodeDisk, s0: Snap, got: nat, stale: set<nat>)
    reads v.cache, v.freeMap.used, d
  {
    && v.Holds(d, stale)
    && Tree(s0, {}) && |s0.idx| == NeededIndex(|s0.data|)
    && Grown(s0, v.Now(d)) && |d.data| == |s0.data| + got
    && (|d.idx| > 0 ==> |d.data| >= Cap(|d.idx| - 1))
  }

  /** Everything that belonged to the file before is as it was before. */
  ghost predicate Restored(v: Volume, d: InodeDisk, s0: Snap)
    reads v.cache, v.freeMap.used, d
  {
    && v.Holds(d, {})
    && d.data == s0.data && d.idx == s0.idx
    && v.freeMap.used.bits == s0.used
    && |v.cache.flat| == |s0.flat| == |s0.used|
    && forall x :: 0 <= x < |s0.flat| && s0.used[x] ==> v.cache.flat[x] == s0.flat[x]
  }

  lemma AllUndone(v: Volume, d: InodeDisk, s0: Snap)
    requires Growing(v, d, s0, 0, {}) && |d.idx| == |s0.idx|
    ensures Restored(v, d, s0)
  {
    GrownBack(s0, v.Now(d));
  }

  /** Releases the last data sector. */
  method DropData(v: Volume, d: InodeDisk, sector: nat, got: nat, ghost s0: Snap, ghost stale: set<nat>)
    requires Growing(v, d, s0, got, stale) && got > 0 && sector == d.data[|d.data| - 1]
    requires |d.data| <= DIRECT || BlockOf(|d.data| - 1) in stale
    modifies v.cache, v.freeMap.used, d`data
    ensures v.Valid() && Tree(v.Now(d), stale) && Grown(s0, v.Now(d))
    ensures d.data == old(d.data)[..old(|d.data|) - 1]
  {
    hide Tree, Grown, Owns;
    ghost var s := v.Now(d);
    TreePointers(s, stale);
    v.FreeOne(sector);
    d.data := d.data[..|d.data| - 1];
    DropDataTree(s, v.Now(d), stale);
    DropDataGrown(s0, s, v.Now(d));
  }

  /** Releases the last index block. */
  method DropIndex(v: Volume, d: InodeDisk, sector: nat, ghost s0: Snap, ghost stale: set<nat>)
    requires v.Valid() && Tree(v.Now(d), stale) && Grown(s0, v.Now(d))
    requires |d.idx| > |s0.idx| && sector == d.idx[|d.idx| - 1] && |d.data| <= Cap(|d.idx| - 1)
    requires |d.idx| <= 2 || 1 in stale
    modifies v.cache, v.freeMap.used, d`idx
    ensures v.Valid() && Tree(v.Now(d), stale - {|d.idx|}) && Grown(s0, v.Now(d))
    ensures d.idx == old(d.idx)[..old(|d.idx|) - 1]
  {
    hide Tree, Grown, Owns;
    ghost var s := v.Now(d);
    TreePointers(s, stale);
    v.FreeOne(sector);
    d.idx := d.idx[..|d.idx| - 1];
    DropIndexTree(s, v.Now(d), stale);
    DropIndexGrown(s0, s, v.Now(d));
  }

  /** Pops the pointers of index block `b`, held in memory as `ib0`, from its end. When
      the last obtained sector goes, `at` is the position it had in the block. */
  method UndoBlock(v: Volume, d: InodeDisk, ghost b: nat, ib0: seq<Word>, got0: nat, ghost s0: Snap,
                   ghost stale: set<nat>)
    returns (got: nat, ib: seq<Word>, at: int)
    requires Growing(v, d, s0, got0, stale) && got0 > 0
    requires b in stale && b != 1 && |d.idx| > 0
    requires DIRECT <= BaseOf(b) && Cap(|d.idx| - 1) <= BaseOf(b) <= |d.data| <= BaseOf(b) + 128
    requires Covers(ib0, d.data, BaseOf(b))
    modifies v.cache, v.freeMap.used, d`data
    ensures Growing(v, d, s0, got, stale) && Covers(ib, d.data, BaseOf(b))
    ensures got > 0 ==> |d.data| == BaseOf(b)
    ensures got == 0 ==> 0 <= at < WORDS && |d.data| == BaseOf(b) + at
  {
    hide Tree, Grown, Owns, Covers, Volume.Valid, Cap, NeededIndex, Zeros;
    got, ib, at := got0, ib0, -1;
    var j := WORDS - 1;
    while j >= 0 && got > 0
      invariant -1 <= j < WORDS
      invariant Growing(v, d, s0, got, stale) && Covers(ib, d.data, BaseOf(b))
      invariant BaseOf(b) <= |d.data|
      invariant got > 0 ==> |d.data| <= BaseOf(b) + j + 1
      invariant got == 0 ==> 0 <= at < WORDS && |d.data| == BaseOf(b) + at
      decreases j
    {
      TreePointers(v.Now(d), stale);
      CoversAt(ib, d.data, BaseOf(b), j);
      if ib[j] != NONE {
        CoversDrop(ib, d.data, BaseOf(b), j);
        DropData(v, d, ib[j], got, s0, stale);
        ib := ib[j := NONE];
        got := got - 1;
        if got == 0 { at := j; }
      }
      j := j - 1;
    }
  }

  /** The last obtained data sector is gone and the index block still holds older ones. */
  method KeepSub(v: Volume, d: InodeDisk, i: nat, ghost at: nat, ib: seq<Word>, dib: seq<Word>, ghost s0: Snap)
    requires Growing(v, d, s0, 0, {1, i + 2}) && i < WORDS && |d.idx| == i + 3
    requires 0 < at < WORDS && |d.data| == SINGLE + 128 * i + at
    requires Covers(dib, d.idx, 2) && Covers(ib, d.data, BaseOf(i + 2))
    modifies v.cache
    ensures Growing(v, d, s0, 0, {}) && |d.idx| == |s0.idx|
  {
    hide Tree, Grown, Owns;
    TreePointers(v.Now(d), {1, i + 2});
    v.StoreIndex(d, i + 2, dib[i], ib, s0, {1, i + 2});
    assert {1, i + 2} - {i + 2} == {1};
    v.StoreIndex(d, 1, d.doublyIndirect, dib, s0, {1});
    assert {1} - {1} == {};
  }

  /** Index block `i + 2` is empty: release it. */
  method EmptySub(v: Volume, d: InodeDisk, i: nat, dib0: seq<Word>, ghost got: nat, ghost s0: Snap)
    returns (dib: seq<Word>)
    requires Growing(v, d, s0, got, {1, i + 2}) && i < WORDS && |d.idx| == i + 3
    requires |d.data| == SINGLE + 128 * i && Covers(dib0, d.idx, 2)
    modifies v.cache, v.freeMap.used, d`idx
    ensures Growing(v, d, s0, got, {1}) && |d.idx| == i + 2 && Covers(dib, d.idx, 2)
  {
    hide Tree, Grown, Owns;
    TreePointers(v.Now(d), {1, i + 2});
    NeededIndexMonotone(|s0.data|, |d.data|);
    DropIndex(v, d, dib0[i], s0, {1, i + 2});
    dib := dib0[i := NONE];
    assert {1, i + 2} - {i + 2} == {1};
  }

  /** The last obtained data sector is gone and index block `i + 2` of the file is empty:
      release it, and with the first one the doubly indirect block too. */
  method CloseSub(v: Volume, d: InodeDisk, i: nat, dib0: seq<Word>, ghost s0: Snap)
    requires Growing(v, d, s0, 0, {1, i + 2}) && i < WORDS && |d.idx| == i + 3 && |d.data| == SINGLE + 128 * i
    requires Covers(dib0, d.idx, 2)
    modifies v.cache, v.freeMap.used, d`data, d`idx, d`doublyIndirect
    ensures Growing(v, d, s0, 0, {}) && |d.idx| == |s0.idx|
  {
    hide Tree, Grown, Owns, Volume.Valid, Covers, Zeros, NeededIndex;
    var dib := EmptySub(v, d, i, dib0, 0, s0);
    TreePointers(v.Now(d), {1});
    if i == 0 {
      DropTop(v, d, d.doublyIndirect, 1, s0, {1});
      d.doublyIndirect := NONE;
    } else {
      v.StoreIndex(d, 1, d.doublyIndirect, dib, s0, {1});
      assert {1} - {1} == {};
    }
  }

  /** One index block below the doubly indirect block, whose pointers are in `dib0`. */
  method UndoSub(v: Volume, d: InodeDisk, i: nat, dib0: seq<Word>, got0: nat, ghost s0: Snap)
    returns (got: nat, dib: seq<Word>)
    requires Growing(v, d, s0, got0, {1}) && got0 > 0
    requires i < WORDS && |d.idx| == i + 3 && Covers(dib0, d.idx, 2)
    modifies v.cache, v.freeMap.used, d`data, d`idx, d`doublyIndirect
    ensures got == 0 ==> Growing(v, d, s0, 0, {}) && |d.idx| == |s0.idx|
    ensures got > 0 ==> Growing(v, d, s0, got, {1}) && |d.idx| == i + 2 && Covers(dib, d.idx, 2)
    ensures got > 0 ==> |d.data| == SINGLE + 128 * i
  {
    hide Tree, Grown, Owns;
    dib := dib0;
    TreePointers(v.Now(d), {1});
    TreeBlock(v.Now(d), {1}, i + 2);
    TreeWeaken(v.Now(d), {1}, {1, i + 2});
    var ib := v.ReadIndex(dib[i]);
    var at;
    got, ib, at := UndoBlock(v, d, i + 2, ib, got0, s0, {1, i + 2});
    if got > 0 {
      dib := EmptySub(v, d, i, dib, got, s0);
    } else if at == 0 {
      CloseSub(v, d, i, dib, s0);
    } else {
      KeepSub(v, d, i, at, ib, dib, s0);
    }
  }

  /** The loop over the index blocks below the doubly indirect block. It does nothing
      when no data sector was obtained; `done` says that nothing is left to undo. */
  method UndoSubs(v: Volume, d: InodeDisk, dib0: seq<Word>, got0: nat, ghost s0: Snap)
    returns (done: bool, got: nat)
    requires Growing(v, d, s0, got0, {1}) && |d.idx| >= 2 && Covers(dib0, d.idx, 2)
    modifies v.cache, v.freeMap.used, d`data, d`idx, d`doublyIndirect
    ensures done ==> Growing(v, d, s0, 0, {}) && |d.idx| == |s0.idx|
    ensures !done ==> Growing(v, d, s0, got, {1}) && (got0 > 0 ==> |d.idx| == 2 && got > 0)
    ensures got0 == 0 ==> !done && got == 0 && v.Now(d) == old(v.Now(d))
  {
    hide Tree, Grown, Owns;
    done, got := false, got0;
    var dib := dib0;
    var i := WORDS - 1;
    TreePointers(v.Now(d), {1});
    while i >= 0 && got > 0
      invariant -1 <= i < WORDS
      invariant got > 0 ==> Growing(v, d, s0, got, {1}) && 2 <= |d.idx| <= i + 3 && Covers(dib, d.idx, 2)
      invariant got == 0 <==> got0 == 0
      invariant got == 0 ==> i == WORDS - 1
      invariant i == WORDS - 1 ==> got == got0 && Growing(v, d, s0, got0, {1}) && v.Now(d) == old(v.Now(d))
      decreases i
    {
      TreePointers(v.Now(d), {1});
      if dib[i] != NONE {
        got, dib := UndoSub(v, d, i, dib, got, s0);
        if got == 0 { done := true; return; }
      }
      i := i - 1;
    }
  }

  /** Releases top-level index block `m`, at `sector`, without looking at what it points to. */
  method DropTop(v: Volume, d: InodeDisk, sector: nat, ghost m: nat, ghost s0: Snap, ghost stale: set<nat>)
    requires v.Valid() && Tree(v.Now(d), stale)
    requires m < 2 && m < |d.idx| && Cap(m) <= |d.data| && sector == d.idx[m]
    requires forall i :: i in stale ==> i >= m
    modifies v.cache, v.freeMap.used, d`data, d`idx
    ensures v.Valid() && Tree(v.Now(d), {})
    ensures d.data == old(d.data)[..Cap(m)] && d.idx == old(d.idx)[..m]
    ensures OnlyReleased(old(v.Now(d)), v.Now(d), {sector})
    ensures old(Grown(s0, v.Now(d)) && |d.idx| == m + 1 > |s0.idx| && |d.data| == Cap(m)) ==> Grown(s0, v.Now(d))
  {
    hide Tree, Grown, Owns;
    ghost var s := v.Now(d);
    TreePointers(s, stale);
    v.FreeOne(sector);
    d.data, d.idx := d.data[..Cap(m)], d.idx[..m];
    CutTree(s, v.Now(d), m, stale);
    if Grown(s0, s) && |s.idx| == m + 1 > |s0.idx| && |s.data| == Cap(m) {
      DropIndexGrown(s0, s, v.Now(d));
    }
  }

  /** Releases the doubly indirect block. */
  method DropDoubly(v: Volume, d: InodeDisk, ghost got: nat, ghost s0: Snap)
    requires Growing(v, d, s0, got, {1}) && |d.idx| >= 2 && (got > 0 ==> |d.idx| == 2)
    modifies v.cache, v.freeMap.used, d`data, d`idx, d`doublyIndirect
    ensures got > 0 ==> Growing(v, d, s0, got, {}) && |d.idx| == 1
    ensures v.Holds(d, {}) && old(|d.data|) >= SINGLE
    ensures d.data == old(d.data)[..SINGLE] && d.idx == old(d.idx)[..1]
    ensures OnlyReleased(old(v.Now(d)), v.Now(d), {old(d.idx)[1]})
  {
    hide Tree, Grown, Owns, OnlyReleased;
    TreePointers(v.Now(d), {1});
    NeededIndexMonotone(|s0.data|, |d.data|);
    DropTop(v, d, d.doublyIndirect, 1, s0, {1});
    d.doublyIndirect := NONE;
  }

  /** The doubly indirect part of the rollback. With nothing obtained, the doubly
      indirect block goes whatever it holds. */
  method UndoDoubly(v: Volume, d: InodeDisk, got0: nat, ghost s0: Snap) returns (done: bool, got: nat)
    requires Growing(v, d, s0, got0, {}) && |d.idx| >= 2
    modifies v.cache, v.freeMap.used, d`data, d`idx, d`doublyIndirect
    ensures done ==> Growing(v, d, s0, 0, {}) && |d.idx| == |s0.idx|
    ensures !done && got0 > 0 ==> Growing(v, d, s0, got, {}) && |d.idx| == 1 && got > 0
    ensures got0 == 0 ==> !done && got == 0 && v.Holds(d, {}) && old(|d.data|) >= SINGLE
                          && d.data == old(d.data)[..SINGLE] && d.idx == old(d.idx)[..1]
                          && OnlyReleased(old(v.Now(d)), v.Now(d), {old(d.idx)[1]})
  {
    hide Tree, Grown, Owns, OnlyReleased;
    GrownSizes(s0, v.Now(d));
    TreePointers(v.Now(d), {});
    TreeBlock(v.Now(d), {}, 1);
    TreeWeaken(v.Now(d), {}, {1});
    var dib := v.ReadIndex(d.doublyIndirect);
    done, got := UndoSubs(v, d, dib, got0, s0);
    if !done {
      DropDoubly(v, d, got, s0);
    }
  }

  /** The last obtained data sector was at position `at` of the indirect block. */
  method CloseIndirect(v: Volume, d: InodeDisk, at: nat, ib: seq<Word>, ghost s0: Snap)
    requires Growing(v, d, s0, 0, {0}) && |d.idx| == 1 && at < WORDS && |d.data| == DIRECT + at
    requires Covers(ib, d.data, BaseOf(0))
    modifies v.cache, v.freeMap.used, d`data, d`idx, d`indirect
    ensures Growing(v, d, s0, 0, {}) && |d.idx| == |s0.idx|
  {
    hide Tree, Grown, Owns;
    TreePointers(v.Now(d), {0});
    if at == 0 {
      DropTop(v, d, d.indirect, 0, s0, {0});
      d.indirect := NONE;
    } else {
      v.StoreIndex(d, 0, d.indirect, ib, s0, {0});
      assert {0} - {0} == {};
    }
  }

  /** The indirect part of the rollback. With nothing obtained, the indirect block goes
      whatever it holds. */
  method UndoIndirect(v: Volume, d: InodeDisk, got0: nat, ghost s0: Snap) returns (done: bool, got: nat)
    requires v.Holds(d, {}) && |d.idx| == 1 && |d.data| >= DIRECT
    requires got0 > 0 ==> Growing(v, d, s0, got0, {})
    modifies v.cache, v.freeMap.used, d`data, d`idx, d`indirect
    ensures done ==> Growing(v, d, s0, 0, {}) && |d.idx| == |s0.idx|
    ensures !done && got0 > 0 ==> Growing(v, d, s0, got, {}) && |d.idx| == 0 && got > 0
    ensures got0 == 0 && old(Growing(v, d, s0, 0, {})) && |s0.data| <= DIRECT ==> Growing(v, d, s0, 0, {})
    ensures got0 == 0 ==> !done && got == 0 && v.Holds(d, {}) && old(|d.data|) >= DIRECT
                          && d.data == old(d.data)[..DIRECT] && d.idx == []
                          && OnlyReleased(old(v.Now(d)), v.Now(d), {old(d.idx)[0]})
  {
    hide Tree, Grown, Owns, OnlyReleased, Volume.Valid, Zeros, Covers;
    if Grown(s0, v.Now(d)) { GrownSizes(s0, v.Now(d)); }
    TreePointers(v.Now(d), {});
    TreeBlock(v.Now(d), {}, 0);
    TreeWeaken(v.Now(d), {}, {0});
    done, got := false, got0;
    var ib := v.ReadIndex(d.indirect);
    if got > 0 {
      var at;
      got, ib, at := UndoBlock(v, d, 0, ib, got0, s0, {0});
      if got == 0 {
        done := true;
        CloseIndirect(v, d, at, ib, s0);
        return;
      }
    }
    TreePointers(v.Now(d), {0});
    DropTop(v, d, d.indirect, 0, s0, {0});
    d.indirect := NONE;
  }

  /** The direct part of the rollback. */
  method UndoDirect(v: Volume, d: InodeDisk, got0: nat, ghost s0: Snap)
    requires v.Holds(d, {}) && |d.idx| == 0 && (got0 > 0 ==> Growing(v, d, s0, got0, {}))
    modifies v.cache, v.freeMap.used, d`data, d`direct
    ensures v.Holds(d, {}) && d.idx == old(d.idx)
    ensures old(Growing(v, d, s0, got0, {})) ==> Growing(v, d, s0, 0, {})
    ensures got0 == 0 ==> v.Now(d) == old(v.Now(d))
  {
    hide Tree, Grown, Owns;
    var got := got0;
    var i := DIRECT - 1;
    TreePointers(v.Now(d), {});
    while i >= 0 && got > 0
      invariant -1 <= i < DIRECT
      invariant v.Holds(d, {}) && d.idx == old(d.idx)
      invariant old(Growing(v, d, s0, got0, {})) ==> Growing(v, d, s0, got, {})
      invariant |d.data| <= i + 1 || got == 0
      invariant got0 == 0 ==> got == 0 && v.Now(d) == old(v.Now(d))
      decreases i
    {
      TreePointers(v.Now(d), {});
      if d.direct[i] != NONE {
        DropData(v, d, d.direct[i], got, s0, {});
        d.direct := d.direct[i := NONE];
        got := got - 1;
      }
      i := i - 1;
    }
  }

  /** Growth past the direct pointers. */
  method GrowIndexed(v: Volume, d: InodeDisk, sectors: nat, got0: nat, ghost s0: Snap) returns (ok: bool, got: nat)
    requires Growing(v, d, s0, got0, {}) && got0 < sectors && |d.data| >= DIRECT && |d.idx| == NeededIndex(|d.data|)
    modifies v.cache, v.freeMap.used, d`data, d`idx, d`indirect, d`doublyIndirect
    ensures Growing(v, d, s0, got, {}) && got <= sectors && |d.idx| <= NeededIndex(|d.data| + 1)
    ensures ok ==> got == sectors && |d.idx| == NeededIndex(|d.data|)
    ensures !ok ==> got < sectors
    ensures !ok && !v.freeMap.mayFail ==> Zeros(v.freeMap.used.bits) == 0 || |d.data| == MAX_SECTORS
  {
    hide Tree, Grown, Owns, NeededIndex;
    ok, got := v.GrowIndirect(d, sectors, got0, s0);
    if ok && got < sectors {
      ok, got := v.GrowDoubly(d, sectors, got, s0);
      if got < sectors { ok := false; }
    }
    if |d.idx| > 0 { NeededIndexTight(|d.data|, |d.idx|); }
  }

  /** Everything that growing an inode does before it gives up. */
  method GrowUp(v: Volume, d: InodeDisk, sectors: nat, ghost s0: Snap) returns (ok: bool, got: nat)
    requires v.Holds(d, {}) && s0 == v.Now(d) && |d.idx| == NeededIndex(|d.data|) && sectors > 0
    modifies v.cache, v.freeMap.used, d`data, d`idx, d`direct, d`indirect, d`doublyIndirect
    ensures Growing(v, d, s0, got, {}) && got <= sectors && |d.idx| <= NeededIndex(|d.data| + 1)
    ensures ok ==> got == sectors && |d.idx| == NeededIndex(|d.data|)
    ensures !ok ==> got < sectors
    ensures !ok && !v.freeMap.mayFail ==> Zeros(v.freeMap.used.bits) == 0 || |d.data| == MAX_SECTORS
  {
    hide Tree, Grown, Owns;
    ok, got := v.GrowDirect(d, sectors, s0);
    NeededIndexMonotone(|d.data|, |d.data| + 1);
    if ok && got < sectors {
      ok, got := GrowIndexed(v, d, sectors, got, s0);
    }
  }

  lemma TopsAre(idx: seq<Word>)
    requires |idx| > 0
    ensures Tops(idx) == (if |idx| > 1 then {idx[1]} else {}) + {idx[0]}
  {
    assert forall x :: x in Tops(idx) ==> x == idx[0] || (|idx| > 1 && x == idx[1]);
    assert idx[0] in Tops(idx) && (|idx| > 1 ==> idx[1] in Tops(idx));
  }

  /** With nothing obtained for an indexed file, the top index blocks went one by one. */
  lemma NothingUndone(s0: Snap, s: Snap, m: Snap, r: Snap)
    requires Tree(s0, {}) && Grown(s0, s) && |s.data| == |s0.data| > DIRECT && |s0.idx| == NeededIndex(|s0.data|)
    requires |s.idx| > 0 && |s.data| >= Cap(|s.idx| - 1)
    requires if |s.idx| > 1 then OnlyReleased(s, m, {s.idx[1]}) else m == s
    requires OnlyReleased(m, r, {s.idx[0]}) && r.data == s.data[..DIRECT] && r.idx == []
    ensures Damaged(s0, r)
  {
    hide Tree, Grown, OnlyReleased, Damaged, Tops;
    TopsAre(s.idx);
    if |s.idx| > 1 {
      ReleasedTwice(s, m, r, {s.idx[1]}, {s.idx[0]});
    } else {
      assert {} + {s.idx[0]} == {s.idx[0]};
    }
    GrownSizes(s0, s);
    CutIsDamaged(s0, s, r);
  }

  /** The `fail` path. With nothing obtained, the top index blocks of an indexed file go
      whatever they hold. */
  method Undo(v: Volume, d: InodeDisk, got0: nat, ghost s0: Snap)
    requires Growing(v, d, s0, got0, {})
    modifies v.cache, v.freeMap.used, d`data, d`idx, d`direct, d`indirect, d`doublyIndirect
    ensures v.Holds(d, {})
    ensures got0 > 0 || |s0.data| <= DIRECT ==> Restored(v, d, s0)
    ensures got0 == 0 && |s0.data| > DIRECT ==> Damaged(s0, v.Now(d))
  {
    hide Tree, Grown, Owns, OnlyReleased, Damaged;
    ghost var s := v.Now(d);
    TreePointers(s, {});
    GrownSizes(s0, s);
    var done, got := false, got0;
    if d.doublyIndirect != NONE {
      done, got := UndoDoubly(v, d, got, s0);
      if done { AllUndone(v, d, s0); return; }
    }
    ghost var m := v.Now(d);
    TreePointers(m, {});
    if d.indirect != NONE {
      done, got := UndoIndirect(v, d, got, s0);
      if done { AllUndone(v, d, s0); return; }
    }
    UndoDirect(v, d, got, s0);
    if got0 > 0 || |s0.data| <= DIRECT {
      GrownSizes(s0, v.Now(d));
      AllUndone(v, d, s0);
    } else {
      NothingUndone(s0, s, m, v.Now(d));
    }
  }

  /** How many sectors growing a file from `n` to `m` data sectors takes from the free
      map, index blocks included. */
  function Cost(n: nat, m: nat): (c: nat)
    requires n <= m
    ensures c >= m - n
  {
    NeededIndexMonotone(n, m);
    m - n + NeededIndex(m) - NeededIndex(n)
  }

  /** inode_grow_unlocked. The ghost result is the number of data sectors obtained.

      When the free map file can always be written, growth succeeds exactly when the
      file stays within its limit and the disk has room, and a growth that fails leaves
      the file as it was exactly when it has at most 10 data sectors or there was room
      for one more. Otherwise it loses everything past its direct pointers, and releases
      only the top index blocks. */
  method Grow(v: Volume, d: InodeDisk, sectors: nat) returns (ok: bool, ghost obtained: nat)
    requires v.Holds(d, {}) && |d.idx| == NeededIndex(|d.data|)
    modifies v.cache, v.freeMap.used, d`data, d`idx, d`direct, d`indirect, d`doublyIndirect
    ensures v.Holds(d, {})
    ensures ok ==> && |d.data| == old(|d.data|) + sectors && |d.idx| == NeededIndex(|d.data|)
                   && Grown(old(v.Now(d)), v.Now(d))
    ensures !ok && (old(|d.data|) <= DIRECT || obtained > 0) ==> Restored(v, d, old(v.Now(d)))
    ensures !ok && old(|d.data|) > DIRECT && obtained == 0 ==> Damaged(old(v.Now(d)), v.Now(d))
    ensures !v.freeMap.mayFail ==>
              (ok <==> sectors == 0 || (old(|d.data|) + sectors <= MAX_SECTORS
                        && Cost(old(|d.data|), old(|d.data|) + sectors) <= old(Zeros(v.freeMap.used.bits))))
    ensures !ok && !v.freeMap.mayFail ==>
              (obtained > 0 <==> old(|d.data|) < MAX_SECTORS
                                 && Cost(old(|d.data|), old(|d.data|) + 1) <= old(Zeros(v.freeMap.used.bits)))
  {
    hide Tree, Grown, Owns, Damaged, Volume.Valid, InodeDisk.Shape, Zeros, Restored, Cost, NeededIndex, Cap;
    ghost var s0 := v.Now(d);
    GrownRefl(s0);
    obtained := 0;
    if sectors == 0 { return true, 0; }
    var got;
    ok, got := GrowUp(v, d, sectors, s0);
    obtained := got;
    GrownSizes(s0, v.Now(d));
    TreePointers(v.Now(d), {});
    Accounting(s0, v.Now(d), sectors, got, ok, v.freeMap.mayFail);
    if !ok {
      Undo(v, d, got, s0);
    }
  }

  /** The free map pays for every sector of a growth, so its clear bits before the
      growth tell how far the growth got. */
  lemma Accounting(s0: Snap, s: Snap, sectors: nat, got: nat, ok: bool, mayFail: bool)
    requires Zeros(s.used) + |s.data| + |s.idx| == Zeros(s0.used) + |s0.data| + |s0.idx|
    requires |s.data| == |s0.data| + got && got <= sectors && sectors > 0 && |s0.idx| == NeededIndex(|s0.data|)
    requires |s.data| <= Cap(|s.idx|) && |s.idx| <= MAX_INDEX && |s.idx| <= NeededIndex(|s.data| + 1)
    requires ok ==> got == sectors && |s.idx| == NeededIndex(|s.data|)
    requires !ok ==> got < sectors && (!mayFail ==> Zeros(s.used) == 0 || |s.data| == MAX_SECTORS)
    ensures !mayFail ==> (ok <==> |s0.data| + sectors <= MAX_SECTORS && Cost(|s0.data|, |s0.data| + sectors) <= Zeros(s0.used))
    ensures !ok && !mayFail ==> (got > 0 <==> |s0.data| < MAX_SECTORS && Cost(|s0.data|, |s0.data| + 1) <= Zeros(s0.used))
  {
    var n, n0 := |s.data|, |s0.data|;
    NeededIndexMonotone(n0, n);
    assert NeededIndex(n) <= |s.idx| by {
      if NeededIndex(n) > |s.idx| { CapMonotone(|s.idx|, NeededIndex(n) - 1); }
    }
    if !ok {
      NeededIndexMonotone(n + 1, n0 + sectors);
      if got > 0 { NeededIndexMonotone(n0 + 1, n); }
    }
    assert Cost(n0, n0 + sectors) == sectors + NeededIndex(n0 + sectors) - NeededIndex(n0);
    assert Cost(n0, n0 + 1) == 1 + NeededIndex(n0 + 1) - NeededIndex(n0);
    assert n <= MAX_SECTORS by { CapMonotone(|s.idx|, MAX_INDEX); }
    hide *;
  }

  lemma CapMonotone(m: nat, n: nat)
    requires m <= n
    ensures Cap(m) <= Cap(n)
  {
  }
}
