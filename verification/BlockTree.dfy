/** The block tree of an indexed file: 10 direct pointers, one index block of 128
    pointers and one doubly indirect block of 128 index blocks.

    A file's tree is described by two sequences: its data sectors in file order, and
    its index sectors in the order in which growth allocates them (the indirect block,
    the doubly indirect block, then the index blocks below it). */
module BlockTree {
  import opened Sectors
  import opened Bitmaps
  import opened Cache

  const DIRECT: nat := 10
  const SINGLE: nat := 138
  const MAX_SECTORS: nat := 16522
  const MAX_INDEX: nat := 130

  /** Everything a growing file depends on: the flat disk, the free map and its tree. */
  datatype Snap = Snap(flat: seq<seq<Byte>>, used: seq<bool>, data: seq<Word>, idx: seq<Word>)

  /** The pointer stored for position `k`. */
  function Entry(s: seq<Word>, k: nat): (w: Word) {
    if k < |s| then s[k] else NONE
  }

  /** Index block `ib` holds positions `base` to `base + 127` of `s`. */
  ghost predicate Covers(ib: seq<Word>, s: seq<Word>, base: nat) {
    |ib| == WORDS && forall j :: 0 <= j < WORDS ==> ib[j] == Entry(s, base + j)
  }

  lemma CoversAt(ib: seq<Word>, s: seq<Word>, base: nat, j: nat)
    requires Covers(ib, s, base) && j < WORDS && (forall k :: 0 <= k < |s| ==> s[k] != NONE)
    ensures |ib| == WORDS && (ib[j] == NONE <==> |s| <= base + j) && (ib[j] != NONE ==> ib[j] == s[base + j])
  {
  }

  lemma CoversAdd(ib: seq<Word>, s: seq<Word>, base: nat, j: nat, x: Word)
    requires Covers(ib, s, base) && j < WORDS && |s| == base + j
    ensures |ib| == WORDS && Covers(ib[j := x], s + [x], base)
  {
  }

  lemma CoversDrop(ib: seq<Word>, s: seq<Word>, base: nat, j: nat)
    requires Covers(ib, s, base) && j < WORDS && |s| == base + j + 1
    ensures |ib| == WORDS && Covers(ib[j := NONE], s[..|s| - 1], base)
  {
  }

  /** How many data sectors `ni` index blocks make room for. */
  function Cap(ni: nat): (n: nat) {
    if ni == 0 then DIRECT
    else if ni == 1 then SINGLE
    else SINGLE + 128 * (ni - 2)
  }

  /** How many index blocks a file of `n` data sectors has. */
  function NeededIndex(n: nat): (ni: nat)
    ensures n <= Cap(ni)
    ensures ni > 0 ==> n > Cap(ni - 1)
    ensures ni != 2
  {
    if n <= DIRECT then 0
    else if n <= SINGLE then 1
    else 2 + (n - SINGLE + 127) / 128
  }

  lemma NeededIndexTight(n: nat, ni: nat)
    requires 0 < ni <= NeededIndex(n + 1)
    ensures n >= Cap(ni - 1)
  {
  }

  lemma NeededIndexIs(n: nat, ni: nat)
    requires ni > 0 ==> n > Cap(ni - 1)
    ensures ni <= NeededIndex(n)
    ensures n <= Cap(ni) && ni != 2 ==> ni == NeededIndex(n)
  {
  }

  /** The first position that index block `i` covers. */
  function BaseOf(i: nat): (b: nat) {
    if i == 0 then DIRECT
    else if i == 1 then 2
    else SINGLE + 128 * (i - 2)
  }

  /** The index block that covers data position `k`. */
  function BlockOf(k: nat): (i: nat)
    requires k >= DIRECT
    ensures i != 1 && BaseOf(i) <= k < BaseOf(i) + 128
    ensures k < MAX_SECTORS ==> i < MAX_INDEX
  {
    if k < SINGLE then 0 else 2 + (k - SINGLE) / 128
  }

  /** Index block `i` of the tree holds what it should. */
  ghost predicate IndexOk(s: Snap, i: nat)
    requires i < |s.idx| && s.idx[i] < |s.flat|
  {
    Covers(Unpack(s.flat[s.idx[i]]), if i == 1 then s.idx else s.data, BaseOf(i))
  }

  /** The tree's sectors exist, are marked used, and none is reached twice. */
  ghost predicate Owns(s: Snap)
    requires |s.used| == |s.flat|
  {
    && (forall k :: 0 <= k < |s.data| ==> s.data[k] < |s.flat| && s.used[s.data[k]])
    && (forall i :: 0 <= i < |s.idx| ==> s.idx[i] < |s.flat| && s.used[s.idx[i]])
    && (forall j, k :: 0 <= j < k < |s.data| ==> s.data[j] != s.data[k])
    && (forall j, k :: 0 <= j < k < |s.idx| ==> s.idx[j] != s.idx[k])
    && (forall k, i :: 0 <= k < |s.data| && 0 <= i < |s.idx| ==> s.data[k] != s.idx[i])
  }

  /** A well-formed tree, except that the index blocks in `stale` are not up to date
      on the disk. */
  ghost predicate Tree(s: Snap, stale: set<nat>) {
    && |s.used| == |s.flat| <= NONE && AllSectors(s.flat)
    && |s.idx| <= MAX_INDEX && |s.data| <= Cap(|s.idx|)
    && Owns(s)
    && forall i :: 0 <= i < |s.idx| && i !in stale ==> IndexOk(s, i)
  }

  ghost function ZeroSector(): seq<Byte> {
    seq(SECTOR_SIZE, _ => 0)
  }

  /** `s` extends `s0` with fresh sectors only: every sector in use before is untouched
      unless it is one of the tree's own index blocks, and the free map differs by
      exactly the new sectors. */
  ghost predicate Grown(s0: Snap, s: Snap) {
    && |s.flat| == |s0.flat| == |s.used| == |s0.used|
    && s0.data <= s.data && s0.idx <= s.idx
    && Fresh(s0, s) && OnlyFresh(s0, s) && Untouched(s0, s)
    && Zeros(s.used) + |s.data| + |s.idx| == Zeros(s0.used) + |s0.data| + |s0.idx|
  }

  /** The added sectors were free and are used now; the data sectors hold zeros. */
  ghost predicate Fresh(s0: Snap, s: Snap)
    requires |s.flat| == |s0.flat| == |s.used| == |s0.used| && |s0.data| <= |s.data| && |s0.idx| <= |s.idx|
  {
    && (forall k :: |s0.data| <= k < |s.data| ==>
          && s.data[k] < |s.flat| && !s0.used[s.data[k]] && s.used[s.data[k]]
          && s.flat[s.data[k]] == ZeroSector())
    && (forall i :: |s0.idx| <= i < |s.idx| ==> s.idx[i] < |s.flat| && !s0.used[s.idx[i]] && s.used[s.idx[i]])
  }

  /** No other bit of the free map changed. */
  ghost predicate OnlyFresh(s0: Snap, s: Snap)
    requires |s.used| == |s0.used|
  {
    forall x :: 0 <= x < |s.used| ==> (s0.used[x] ==> s.used[x]) && (s.used[x] && !s0.used[x] ==> x in s.data || x in s.idx)
  }

  ghost predicate Untouched(s0: Snap, s: Snap)
    requires |s.flat| == |s0.flat| == |s0.used|
  {
    forall x :: 0 <= x < |s.flat| && s0.used[x] && x !in s0.idx ==> s.flat[x] == s0.flat[x]
  }

  /** A pointer that is in use is never BLOCK_SECTOR_NONE. */
  lemma TreePointers(s: Snap, stale: set<nat>)
    requires Tree(s, stale)
    ensures |s.used| == |s.flat| && Owns(s)
    ensures |s.idx| <= MAX_INDEX && |s.data| <= Cap(|s.idx|)
    ensures forall k :: 0 <= k < |s.data| ==> s.data[k] < |s.flat| == |s.used| && s.used[s.data[k]] && s.data[k] != NONE
    ensures forall i :: 0 <= i < |s.idx| ==> s.idx[i] < |s.flat| == |s.used| && s.used[s.idx[i]] && s.idx[i] != NONE
  {
  }

  lemma TreeSectors(s: Snap, stale: set<nat>)
    requires Tree(s, stale)
    ensures AllSectors(s.flat)
  {
  }

  lemma GrownRefl(s: Snap)
    requires Tree(s, {})
    ensures Grown(s, s)
  {
  }

  /** The tree after free sector `x` became its next data sector, filled with zeros. */
  ghost function AddData(s: Snap, x: Word): (r: Snap)
    requires x < |s.flat| == |s.used|
  {
    Snap(s.flat[x := ZeroSector()], s.used[x := true], s.data + [x], s.idx)
  }

  lemma AddDataTree(s: Snap, x: Word, stale: set<nat>)
    requires Tree(s, stale) && x < |s.flat| && !s.used[x] && |s.data| < Cap(|s.idx|)
    requires |s.data| < DIRECT || BlockOf(|s.data|) in stale
    ensures Tree(AddData(s, x), stale)
  {
    var r := AddData(s, x);
    forall i | 0 <= i < |r.idx| && i !in stale ensures IndexOk(r, i) {
      assert r.idx[i] != x && IndexOk(s, i);
      if i != 1 {
        assert !(BaseOf(i) <= |s.data| < BaseOf(i) + 128);
      }
    }
  }

  lemma AddDataGrown(s0: Snap, s: Snap, x: Word)
    requires Grown(s0, s) && x < |s.flat| && !s.used[x]
    ensures Grown(s0, AddData(s, x))
  {
    var r := AddData(s, x);
    ZerosSet(s.used, x);
    assert forall k :: |s0.data| <= k < |s.data| ==> r.data[k] == s.data[k] && r.data[k] != x;
  }

  /** An index block with no pointers yet. */
  function EmptyBlock(): seq<Word> {
    seq(WORDS, _ => NONE)
  }

  ghost function AddIndex(s: Snap, x: Word): (r: Snap)
    requires x < |s.flat| == |s.used|
  {
    Snap(s.flat[x := Pack(EmptyBlock())], s.used[x := true], s.data, s.idx + [x])
  }

  lemma EmptyBlockCovers(s: seq<Word>, base: nat)
    requires |s| <= base
    ensures Covers(Unpack(Pack(EmptyBlock())), s, base)
  {
    UnpackPack(EmptyBlock());
  }

  lemma AddIndexTree(s: Snap, x: Word, stale: set<nat>)
    requires Tree(s, stale) && x < |s.flat| && !s.used[x] && |s.idx| < MAX_INDEX
    requires |s.idx| < 2 || 1 in stale
    ensures Tree(AddIndex(s, x), stale)
  {
    var r := AddIndex(s, x);
    forall i | 0 <= i < |r.idx| && i !in stale ensures IndexOk(r, i) {
      if i < |s.idx| {
        assert r.idx[i] != x && IndexOk(s, i);
        assert i == 1 ==> |s.idx| < 2;
      } else {
        EmptyBlockCovers(if i == 1 then r.idx else r.data, BaseOf(i));
      }
    }
  }

  lemma AddIndexGrown(s0: Snap, s: Snap, x: Word)
    requires Grown(s0, s) && x < |s.flat| && !s.used[x]
    ensures Grown(s0, AddIndex(s, x))
  {
    var r := AddIndex(s, x);
    ZerosSet(s.used, x);
  }

  /** Index block `i` written back to the disk. */
  ghost function PutIndex(s: Snap, i: nat, ib: seq<Word>): (r: Snap)
    requires i < |s.idx| && s.idx[i] < |s.flat|
  {
    s.(flat := s.flat[s.idx[i] := Pack(ib)])
  }

  lemma PutIndexTree(s: Snap, i: nat, ib: seq<Word>, stale: set<nat>)
    requires Tree(s, stale) && i < |s.idx|
    requires Covers(ib, if i == 1 then s.idx else s.data, BaseOf(i))
    ensures Tree(PutIndex(s, i, ib), stale - {i})
  {
    var r := PutIndex(s, i, ib);
    UnpackPack(ib);
    forall j | 0 <= j < |r.idx| && j !in stale - {i} ensures IndexOk(r, j) {
      if j != i { assert IndexOk(s, j); }
    }
  }

  lemma PutIndexGrown(s0: Snap, s: Snap, i: nat, ib: seq<Word>)
    requires Grown(s0, s) && Tree(s0, {}) && i < |s.idx|
    requires Owns(s)
    ensures Grown(s0, PutIndex(s, i, ib))
  {
    if i < |s0.idx| {
      assert s.idx[i] == s0.idx[i];
    }
  }

  /** `r` is `s` after its last data sector was dropped from the cache and released. */
  ghost predicate DataDropped(s: Snap, r: Snap) {
    && |s.data| > 0 && |r.flat| == |s.flat| == |s.used| && AllSectors(r.flat)
    && var x := s.data[|s.data| - 1];
    && x < |s.flat|
    && (forall y :: 0 <= y < |s.flat| && y != x ==> r.flat[y] == s.flat[y])
    && r.used == s.used[x := false]
    && r.data == s.data[..|s.data| - 1] && r.idx == s.idx
  }

  lemma DropDataTree(s: Snap, r: Snap, stale: set<nat>)
    requires Tree(s, stale) && DataDropped(s, r)
    requires |r.data| < DIRECT || BlockOf(|r.data|) in stale
    ensures Tree(r, stale)
  {
    var x := s.data[|s.data| - 1];
    forall i | 0 <= i < |r.idx| && i !in stale ensures IndexOk(r, i) {
      assert r.idx[i] != x && IndexOk(s, i);
      if i != 1 {
        assert !(BaseOf(i) <= |r.data| < BaseOf(i) + 128);
      }
    }
  }

  lemma ZerosClear(bits: seq<bool>, k: nat)
    requires k < |bits| && bits[k]
    ensures Zeros(bits[k := false]) == Zeros(bits) + 1
  {
    ZerosSet(bits[k := false], k);
    assert bits[k := false][k := true] == bits;
  }

  /** The data sector that is dropped was fresh, and nothing else points to it. */
  lemma DroppedDataWasFresh(s0: Snap, s: Snap, r: Snap)
    requires Grown(s0, s) && |s.used| == |s.flat| && Owns(s) && DataDropped(s, r) && |s.data| > |s0.data|
    ensures var x := s.data[|s.data| - 1];
            !s0.used[x] && x !in r.data && x !in r.idx && (forall y :: y in s.data && y != x ==> y in r.data)
  {
    hide Zeros, OnlyFresh, Untouched;
    assert s.data == r.data + [s.data[|s.data| - 1]];
  }

  lemma DropDataParts(s0: Snap, s: Snap, r: Snap)
    requires Grown(s0, s) && |s.used| == |s.flat| && Owns(s) && DataDropped(s, r) && |s.data| > |s0.data|
    ensures Fresh(s0, r) && OnlyFresh(s0, r) && Untouched(s0, r)
  {
    DroppedDataWasFresh(s0, s, r);
    hide Zeros, Owns;
  }

  lemma DropDataGrown(s0: Snap, s: Snap, r: Snap)
    requires Grown(s0, s) && |s.used| == |s.flat| && Owns(s) && DataDropped(s, r) && |s.data| > |s0.data|
    ensures Grown(s0, r)
  {
    DropDataParts(s0, s, r);
    hide Fresh, OnlyFresh, Untouched;
    ZerosClear(s.used, s.data[|s.data| - 1]);
  }

  /** `r` is `s` after its last index block was dropped from the cache and released. */
  ghost predicate IndexDropped(s: Snap, r: Snap) {
    && |s.idx| > 0 && |r.flat| == |s.flat| == |s.used| && AllSectors(r.flat)
    && var x := s.idx[|s.idx| - 1];
    && x < |s.flat|
    && (forall y :: 0 <= y < |s.flat| && y != x ==> r.flat[y] == s.flat[y])
    && r.used == s.used[x := false]
    && r.data == s.data && r.idx == s.idx[..|s.idx| - 1]
  }

  lemma DropIndexTree(s: Snap, r: Snap, stale: set<nat>)
    requires Tree(s, stale) && IndexDropped(s, r) && |r.data| <= Cap(|r.idx|)
    requires |r.idx| < 2 || 1 in stale
    ensures Tree(r, stale - {|r.idx|})
  {
    var x := s.idx[|s.idx| - 1];
    forall i | 0 <= i < |r.idx| && i !in stale - {|r.idx|} ensures IndexOk(r, i) {
      assert r.idx[i] != x && IndexOk(s, i);
      assert i == 1 ==> |r.idx| < 2;
    }
  }

  /** The index block that is dropped was fresh, and nothing else points to it. */
  lemma DroppedWasFresh(s0: Snap, s: Snap, r: Snap)
    requires Grown(s0, s) && |s.used| == |s.flat| && Owns(s) && IndexDropped(s, r) && |s.idx| > |s0.idx|
    ensures var x := s.idx[|s.idx| - 1];
            !s0.used[x] && x !in r.idx && x !in r.data && (forall y :: y in s.idx && y != x ==> y in r.idx)
  {
    hide Zeros, OnlyFresh, Untouched;
    assert s.idx == r.idx + [s.idx[|s.idx| - 1]];
  }

  lemma DropIndexParts(s0: Snap, s: Snap, r: Snap)
    requires Grown(s0, s) && |s.used| == |s.flat| && Owns(s) && IndexDropped(s, r) && |s.idx| > |s0.idx|
    ensures Fresh(s0, r) && OnlyFresh(s0, r) && Untouched(s0, r)
  {
    DroppedWasFresh(s0, s, r);
    hide Zeros, Owns;
  }

  lemma DropIndexGrown(s0: Snap, s: Snap, r: Snap)
    requires Grown(s0, s) && |s.used| == |s.flat| && Owns(s) && IndexDropped(s, r) && |s.idx| > |s0.idx|
    ensures Grown(s0, r)
  {
    DropIndexParts(s0, s, r);
    hide Fresh, OnlyFresh, Untouched;
    ZerosClear(s.used, s.idx[|s.idx| - 1]);
  }

  /** Back at the original tree, the free map and every sector in use are back too. */
  lemma GrownBack(s0: Snap, s: Snap)
    requires Grown(s0, s) && Tree(s0, {}) && Tree(s, {}) && s.data == s0.data && s.idx == s0.idx
    ensures s.used == s0.used
    ensures forall x :: 0 <= x < |s.flat| && s0.used[x] ==> s.flat[x] == s0.flat[x]
  {
    forall x | 0 <= x < |s.flat| && s0.used[x] ensures s.flat[x] == s0.flat[x] {
      if x in s0.idx {
        var i :| 0 <= i < |s0.idx| && s0.idx[i] == x;
        assert IndexOk(s, i) && IndexOk(s0, i);
        assert Unpack(s.flat[x]) == Unpack(s0.flat[x]);
        PackUnpack(s.flat[x]);
        PackUnpack(s0.flat[x]);
      }
    }
  }

  lemma TreeWeaken(s: Snap, stale: set<nat>, more: set<nat>)
    requires Tree(s, stale) && stale <= more
    ensures Tree(s, more)
  {
  }

  /** What an index block read back from the disk holds. */
  lemma TreeBlock(s: Snap, stale: set<nat>, i: nat)
    requires Tree(s, stale) && i < |s.idx| && i !in stale
    ensures s.idx[i] < |s.flat| == |s.used| && s.used[s.idx[i]] && s.idx[i] != NONE
    ensures Covers(Unpack(s.flat[s.idx[i]]), if i == 1 then s.idx else s.data, BaseOf(i))
  {
    assert IndexOk(s, i);
  }

  lemma GrownSizes(s0: Snap, s: Snap)
    requires Grown(s0, s)
    ensures s0.data <= s.data && s0.idx <= s.idx && |s.flat| == |s0.flat|
    ensures Zeros(s.used) + |s.data| + |s.idx| == Zeros(s0.used) + |s0.data| + |s0.idx|
  {
  }

  lemma NeededIndexMonotone(m: nat, n: nat)
    requires m <= n
    ensures NeededIndex(m) <= NeededIndex(n)
  {
  }

  /** `r` is `s` after the top of the index tree was cut at block `m`: everything that
      block `m` and the later ones reached is no longer part of the file. */
  ghost predicate Cut(s: Snap, r: Snap, m: nat) {
    && m < |s.idx| && m < 2 && Cap(m) <= |s.data| && |r.flat| == |s.flat| == |s.used| && AllSectors(r.flat)
    && s.idx[m] < |s.flat|
    && (forall y :: 0 <= y < |s.flat| && y != s.idx[m] ==> r.flat[y] == s.flat[y])
    && r.used == s.used[s.idx[m] := false]
    && r.data == s.data[..Cap(m)] && r.idx == s.idx[..m]
  }

  lemma CutTree(s: Snap, r: Snap, m: nat, stale: set<nat>)
    requires Tree(s, stale) && Cut(s, r, m) && forall i :: i in stale ==> i >= m
    ensures Tree(r, {})
  {
    forall i | 0 <= i < |r.idx| ensures IndexOk(r, i) {
      assert i == 0 && r.idx[0] != s.idx[m] && IndexOk(s, 0);
    }
  }

  // What a rollback that obtained nothing leaves behind.

  /** From `s` to `r` exactly the sectors in `gone` were released, and no other sector
      changed. */
  ghost predicate OnlyReleased(s: Snap, r: Snap, gone: set<Word>) {
    && |r.flat| == |s.flat| == |r.used| == |s.used|
    && (forall x :: 0 <= x < |s.used| ==> (r.used[x] <==> s.used[x] && x !in gone))
    && (forall x :: 0 <= x < |s.flat| && x !in gone ==> r.flat[x] == s.flat[x])
  }

  lemma ReleasedTwice(s: Snap, m: Snap, r: Snap, a: set<Word>, b: set<Word>)
    requires OnlyReleased(s, m, a) && OnlyReleased(m, r, b)
    ensures OnlyReleased(s, r, a + b)
  {
  }

  /** The top index blocks of a file. */
  ghost function Tops(idx: seq<Word>): set<Word> {
    set i | 0 <= i < 2 && i < |idx| :: idx[i]
  }

  /** The file `s0` was cut to its direct pointers: of what was in use exactly its top
      index blocks were released, so all sectors that they led to stay marked, and no
      sector but index blocks of the file changed. At most one new index block stays
      marked too, with nothing that leads to it. */
  ghost predicate Damaged(s0: Snap, r: Snap) {
    && |r.flat| == |s0.flat| == |r.used| == |s0.used|
    && |s0.data| > DIRECT && |s0.idx| > 0
    && r.data == s0.data[..DIRECT] && r.idx == []
    && (forall x :: 0 <= x < |s0.used| && s0.used[x] ==> (r.used[x] <==> x !in Tops(s0.idx)))
    && (forall x, y :: 0 <= x < |s0.used| && 0 <= y < |s0.used| && r.used[x] && !s0.used[x] && r.used[y] && !s0.used[y] ==> x == y)
    && (forall x :: 0 <= x < |s0.flat| && s0.used[x] && x !in s0.idx ==> r.flat[x] == s0.flat[x])
  }

  /** A growth that got no data sector has at most one index block below the top. */
  lemma OneBlockMore(n: nat, ni: nat)
    requires n > DIRECT && ni >= NeededIndex(n) && n >= Cap(ni - 1)
    ensures ni <= NeededIndex(n) + 1 || (NeededIndex(n) == 1 && ni == 3)
  {
  }

  lemma NewBlock(s0: Snap, s: Snap, x: Word)
    requires |s0.used| == |s0.flat| && Owns(s0) && Grown(s0, s) && |s.data| == |s0.data|
    requires x < |s.used| && s.used[x] && !s0.used[x]
    ensures exists i :: |s0.idx| <= i < |s.idx| && s.idx[i] == x
  {
    assert s.data == s0.data;
    assert x !in s0.data;
    assert forall i :: 0 <= i < |s0.idx| ==> s.idx[i] == s0.idx[i] && s0.used[s0.idx[i]];
    var i :| 0 <= i < |s.idx| && s.idx[i] == x;
  }

  lemma TopsKept(s0: Snap, s: Snap, x: Word)
    requires Grown(s0, s) && |s0.idx| > 0 && x < |s0.used| && s0.used[x]
    ensures x in Tops(s.idx) <==> x in Tops(s0.idx)
  {
    if x in Tops(s.idx) {
      var i :| 0 <= i < 2 && i < |s.idx| && s.idx[i] == x;
      assert i < |s0.idx| && s0.idx[i] == x;
    }
    if x in Tops(s0.idx) {
      var i :| 0 <= i < 2 && i < |s0.idx| && s0.idx[i] == x;
      assert s.idx[i] == x;
    }
  }

  lemma OneLeft(s0: Snap, s: Snap, x: Word, y: Word)
    requires |s0.used| == |s0.flat| && Owns(s0) && Grown(s0, s) && |s.data| == |s0.data| > DIRECT && |s0.idx| == NeededIndex(|s0.data|)
    requires |s.data| >= Cap(|s.idx| - 1)
    requires x < |s.used| && s.used[x] && !s0.used[x] && x !in Tops(s.idx)
    requires y < |s.used| && s.used[y] && !s0.used[y] && y !in Tops(s.idx)
    ensures x == y
  {
    NewBlock(s0, s, x);
    NewBlock(s0, s, y);
    OneBlockMore(|s.data|, |s.idx|);
    var i :| |s0.idx| <= i < |s.idx| && s.idx[i] == x;
    var j :| |s0.idx| <= j < |s.idx| && s.idx[j] == y;
    assert i >= 2 && j >= 2;
  }

  lemma CutIsDamaged(s0: Snap, s: Snap, r: Snap)
    requires Tree(s0, {}) && Grown(s0, s) && |s.data| == |s0.data| > DIRECT && |s0.idx| == NeededIndex(|s0.data|)
    requires |s.data| >= Cap(|s.idx| - 1)
    requires OnlyReleased(s, r, Tops(s.idx)) && r.data == s0.data[..DIRECT] && r.idx == []
    ensures Damaged(s0, r)
  {
    TreePointers(s0, {});
    GrownSizes(s0, s);
    forall x | 0 <= x < |s0.used| && s0.used[x] ensures r.used[x] <==> x !in Tops(s0.idx) {
      TopsKept(s0, s, x);
    }
    forall x, y | 0 <= x < |s0.used| && 0 <= y < |s0.used| && r.used[x] && !s0.used[x] && r.used[y] && !s0.used[y]
      ensures x == y
    {
      OneLeft(s0, s, x, y);
    }
    forall x | 0 <= x < |s0.flat| && s0.used[x] && x !in s0.idx ensures r.flat[x] == s0.flat[x] {
      TopsKept(s0, s, x);
    }
  }
}
