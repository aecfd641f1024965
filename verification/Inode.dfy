/** Growing an indexed file, and undoing a growth that runs out of disk space. */
module Inodes {
  import opened Sectors
  import opened Bitmaps
  import opened FreeMaps
  import opened Cache
  import opened BlockTree

  /** The on-disk inode as the kernel holds it in memory. The ghost fields name the
      sectors that its pointers reach. */
  class InodeDisk {
    var isDir: Word
    var fileCnt: Word
    var length: nat
    var parent: Word
    var direct: seq<Word>
    var indirect: Word
    var doublyIndirect: Word
    ghost var data: seq<Word>
    ghost var idx: seq<Word>

    /** The pointers spell out the tree. */
    ghost predicate Shape()
      reads this
    {
      && |direct| == DIRECT
      && (forall j :: 0 <= j < DIRECT ==> direct[j] == Entry(data, j))
      && indirect == Entry(idx, 0)
      && doublyIndirect == Entry(idx, 1)
    }

    constructor (isDir: Word, length: nat, parent: Word)
      ensures Shape() && data == [] && idx == []
      ensures this.isDir == isDir && this.length == length && this.parent == parent && fileCnt == 0
    {
      this.isDir := isDir;
      this.fileCnt := 0;
      this.length := length;
      this.parent := parent;
      direct := seq(DIRECT, _ => NONE);
      indirect := NONE;
      doublyIndirect := NONE;
      data := [];
      idx := [];
    }

    /** The inode in the words of a sector; `data` and `idx` name what it points to. */
    constructor Load(words: seq<Word>, ghost data: seq<Word>, ghost idx: seq<Word>)
      requires |words| == WORDS
      ensures isDir == words[0] && fileCnt == words[1] && length == words[2] && parent == words[3]
      ensures direct == words[4..14] && indirect == words[14] && doublyIndirect == words[15]
      ensures this.data == data && this.idx == idx
    {
      isDir := words[0];
      fileCnt := words[1];
      length := words[2];
      parent := words[3];
      direct := words[4..14];
      indirect := words[14];
      doublyIndirect := words[15];
      this.data := data;
      this.idx := idx;
    }
  }

  /** The mounted file system device: its cache and its free map. */
  class Volume {
    const cache: BufferCache
    const freeMap: FreeMap

    constructor (cache: BufferCache, freeMap: FreeMap)
      ensures this.cache == cache && this.freeMap == freeMap
    {
      this.cache := cache;
      this.freeMap := freeMap;
    }

    ghost predicate Valid()
      reads cache, freeMap.used
    {
      cache.Valid() && |freeMap.used.bits| == |cache.flat|
    }

    ghost function Now(d: InodeDisk): Snap
      reads cache, freeMap.used, d
    {
      Snap(cache.flat, freeMap.used.bits, d.data, d.idx)
    }

    /** A well-formed in-memory inode, up to stale index blocks. */
    ghost predicate Holds(d: InodeDisk, stale: set<nat>)
      reads cache, freeMap.used, d
    {
      Valid() && d.Shape() && Tree(Now(d), stale)
    }

    method ReadIndex(sector: nat) returns (ib: seq<Word>)
      requires Valid() && sector < |cache.flat|
      modifies cache
      ensures Valid() && cache.flat == old(cache.flat)
      ensures ib == Unpack(cache.flat[sector])
    {
      var buf := new Byte[SECTOR_SIZE];
      cache.Read(sector, buf, 0, SECTOR_SIZE, 0);
      assert buf[..] == buf[0..0 + SECTOR_SIZE] == cache.flat[sector];
      ib := Unpack(buf[..]);
    }

    method WriteSector(sector: nat, bytes: seq<Byte>)
      requires Valid() && sector < |cache.flat| && |bytes| == SECTOR_SIZE
      modifies cache
      ensures Valid() && cache.flat == old(cache.flat)[sector := bytes]
    {
      ghost var before := cache.flat[sector];
      cache.Write(sector, bytes, 0);
      assert Patch(before, 0, bytes) == bytes;
    }

    method WriteIndex(sector: nat, ib: seq<Word>)
      requires Valid() && sector < |cache.flat| && |ib| == WORDS
      modifies cache
      ensures Valid() && cache.flat == old(cache.flat)[sector := Pack(ib)]
    {
      WriteSector(sector, Pack(ib));
    }

    /** One sector from the free map. */
    method AllocateOne() returns (ok: bool, sector: Word)
      requires Valid()
      modifies freeMap.used
      ensures Valid()
      ensures ok ==> sector < |cache.flat| && !old(freeMap.used.bits)[sector]
      ensures ok ==> freeMap.used.bits == old(freeMap.used.bits)[sector := true]
      ensures !ok ==> freeMap.used.bits == old(freeMap.used.bits)
      ensures !ok && !freeMap.mayFail ==> Zeros(freeMap.used.bits) == 0
    {
      var s;
      ok, s := freeMap.Allocate(1);
      if ok {
        FillOne(old(freeMap.used.bits), s, true);
        sector := s;
        assert Run(old(freeMap.used.bits), s, 1, false);
      } else {
        sector := 0;
        ghost var bits := freeMap.used.bits;
        if !freeMap.mayFail {
          forall k | 0 <= k < |bits| ensures bits[k] {
            assert !Run(bits, k, 1, false);
          }
          ZerosNone(bits);
        }
      }
    }

    /** cache_free followed by free_map_release: the release finds the bit set. */
    method FreeOne(sector: nat)
      requires Valid() && sector < |cache.flat| && freeMap.used.bits[sector]
      modifies cache, freeMap.used
      ensures Valid() && |cache.flat| == old(|cache.flat|)
      ensures forall s :: 0 <= s < |cache.flat| && s != sector ==> cache.flat[s] == old(cache.flat)[s]
      ensures freeMap.used.bits == old(freeMap.used.bits)[sector := false]
    {
      cache.Free(sector);
      freeMap.Release(sector, 1);
      FillOne(old(freeMap.used.bits), sector, false);
    }

    /** The next data sector: allocate it and fill it with zeros. */
    method AppendData(d: InodeDisk, ghost s0: Snap, ghost stale: set<nat>) returns (ok: bool, sector: Word)
      requires Valid() && Tree(Now(d), stale) && Grown(s0, Now(d))
      requires |d.data| < Cap(|d.idx|)
      requires |d.data| < DIRECT || BlockOf(|d.data|) in stale
      modifies cache, freeMap.used, d`data
      ensures Valid() && Tree(Now(d), stale) && Grown(s0, Now(d))
      ensures ok ==> d.data == old(d.data) + [sector]
      ensures !ok ==> d.data == old(d.data)
      ensures !ok && !freeMap.mayFail ==> Zeros(freeMap.used.bits) == 0
    {
      ghost var s := Now(d);
      ok, sector := AllocateOne();
      if ok {
        WriteSector(sector, seq(SECTOR_SIZE, _ => 0));
        d.data := d.data + [sector];
        assert Now(d) == AddData(s, sector);
        AddDataTree(s, sector, stale);
        AddDataGrown(s0, s, sector);
      }
    }

    /** inode_indirect_allocate: the next index block, empty. */
    method AppendIndex(d: InodeDisk, ghost s0: Snap, ghost stale: set<nat>) returns (ok: bool, sector: Word)
      requires Valid() && Tree(Now(d), stale) && Grown(s0, Now(d))
      requires |d.idx| < MAX_INDEX && (|d.idx| < 2 || 1 in stale)
      modifies cache, freeMap.used, d`idx
      ensures Valid() && Tree(Now(d), stale) && Grown(s0, Now(d))
      ensures ok ==> d.idx == old(d.idx) + [sector]
      ensures !ok ==> d.idx == old(d.idx)
      ensures !ok && !freeMap.mayFail ==> Zeros(freeMap.used.bits) == 0
    {
      ghost var s := Now(d);
      ok, sector := AllocateOne();
      if ok {
        WriteIndex(sector, EmptyBlock());
        d.idx := d.idx + [sector];
        assert Now(d) == AddIndex(s, sector);
        AddIndexTree(s, sector, stale);
        AddIndexGrown(s0, s, sector);
      }
    }

    /** Writes index block `i` back. */
    method StoreIndex(d: InodeDisk, ghost i: nat, sector: nat, ib: seq<Word>, ghost s0: Snap, ghost stale: set<nat>)
      requires Valid() && Tree(Now(d), stale) && Grown(s0, Now(d)) && Tree(s0, {})
      requires i < |d.idx| && sector == d.idx[i]
      requires Covers(ib, if i == 1 then d.idx else d.data, BaseOf(i))
      modifies cache
      ensures Valid() && Tree(Now(d), stale - {i}) && Grown(s0, Now(d))
    {
      ghost var s := Now(d);
      WriteIndex(sector, ib);
      assert Now(d) == PutIndex(s, i, ib);
      PutIndexTree(s, i, ib, stale);
      PutIndexGrown(s0, s, i, ib);
    }

    /** One direct pointer of a growing inode. */
    method FillDirect(d: InodeDisk, i: nat, ghost s0: Snap) returns (ok: bool)
      requires Holds(d, {}) && Grown(s0, Now(d))
      requires i == |d.data| < DIRECT
      modifies cache, freeMap.used, d`data, d`direct
      ensures Holds(d, {}) && Grown(s0, Now(d))
      ensures |d.data| == i + if ok then 1 else 0
      ensures !ok && !freeMap.mayFail ==> Zeros(freeMap.used.bits) == 0
    {
      hide Tree, Grown, Owns;
      var sector;
      ok, sector := AppendData(d, s0, {});
      if ok {
        d.direct := d.direct[i := sector];
      }
    }

    method GrowDirect(d: InodeDisk, sectors: nat, ghost s0: Snap) returns (ok: bool, got: nat)
      requires Holds(d, {}) && s0 == Now(d) && |d.idx| == NeededIndex(|d.data|)
      modifies cache, freeMap.used, d`data, d`direct
      ensures Holds(d, {}) && Grown(s0, Now(d))
      ensures got == |d.data| - |s0.data| <= sectors && |d.idx| == NeededIndex(|d.data|)
      ensures ok && got < sectors ==> |d.data| >= DIRECT
      ensures got > 0 ==> |d.data| <= DIRECT
      ensures !ok ==> |d.data| < DIRECT && got < sectors
      ensures !ok && !freeMap.mayFail ==> Zeros(freeMap.used.bits) == 0
    {
      hide Tree, Grown, Owns;
      GrownRefl(s0);
      got := 0;
      var i := 0;
      while i < DIRECT && got < sectors
        invariant i <= DIRECT && i <= |d.data|
        invariant Holds(d, {}) && Grown(s0, Now(d))
        invariant got == |d.data| - |s0.data| <= sectors
        invariant got > 0 ==> |d.data| <= DIRECT
        invariant |d.idx| == NeededIndex(|d.data|)
        decreases DIRECT - i
      {
        TreePointers(Now(d), {});
        if d.direct[i] == NONE {
          ok := FillDirect(d, i, s0);
          if !ok { return; }
          got := got + 1;
        }
        i := i + 1;
      }
      ok := true;
    }

    /** Fills the unset pointers of index block `b`, held in memory as `ib`. */
    method FillBlock(d: InodeDisk, ghost b: nat, ib0: seq<Word>, sectors: nat, got0: nat,
                     ghost s0: Snap, ghost stale: set<nat>)
      returns (ok: bool, got: nat, ib: seq<Word>)
      requires Holds(d, stale) && Grown(s0, Now(d))
      requires b != 1 && b < |d.idx| && b in stale && BaseOf(b) + 128 <= Cap(|d.idx|)
      requires DIRECT <= BaseOf(b) <= |d.data| && Covers(ib0, d.data, BaseOf(b)) && got0 < sectors
      modifies cache, freeMap.used, d`data
      ensures Holds(d, stale) && Grown(s0, Now(d)) && Covers(ib, d.data, BaseOf(b))
      ensures got == got0 + |d.data| - old(|d.data|) && got0 <= got <= sectors
      ensures ok && got < sectors ==> |d.data| >= BaseOf(b) + 128
      ensures got > got0 ==> |d.data| <= BaseOf(b) + 128
      ensures !ok ==> got < sectors && |d.data| < BaseOf(b) + 128
      ensures !ok && !freeMap.mayFail ==> Zeros(freeMap.used.bits) == 0
    {
      hide Tree, Grown, Owns, Covers, Volume.Valid;
      got, ib := got0, ib0;
      var j := 0;
      while j < WORDS && got < sectors
        invariant 0 <= j <= WORDS && BaseOf(b) + j <= |d.data|
        invariant Holds(d, stale) && Grown(s0, Now(d)) && Covers(ib, d.data, BaseOf(b))
        invariant got == got0 + |d.data| - old(|d.data|) && got0 <= got <= sectors
        invariant got > got0 ==> |d.data| <= BaseOf(b) + 128
        decreases WORDS - j
      {
        TreePointers(Now(d), stale);
        CoversAt(ib, d.data, BaseOf(b), j);
        if ib[j] == NONE {
          ghost var before := d.data;
          var sector;
          ok, sector := AppendData(d, s0, stale);
          if !ok { return; }
          CoversAdd(ib, before, BaseOf(b), j, sector);
          got := got + 1;
          ib := ib[j := sector];
        }
        j := j + 1;
      }
      ok := true;
    }

    method EnsureIndirect(d: InodeDisk, ghost s0: Snap) returns (ok: bool)
      requires Holds(d, {}) && Grown(s0, Now(d)) && |d.idx| >= 0
      modifies cache, freeMap.used, d`idx, d`indirect
      ensures Holds(d, {}) && Grown(s0, Now(d))
      ensures |d.idx| == if ok && old(|d.idx|) == 0 then 1 else old(|d.idx|)
      ensures !ok && !freeMap.mayFail ==> Zeros(freeMap.used.bits) == 0
    {
      hide Tree, Grown, Owns;
      TreePointers(Now(d), {});
      ok := true;
      if d.indirect == NONE {
        var sector;
        ok, sector := AppendIndex(d, s0, {});
        if ok { d.indirect := sector; }
      }
    }

    method GrowIndirect(d: InodeDisk, sectors: nat, got0: nat, ghost s0: Snap) returns (ok: bool, got: nat)
      requires Holds(d, {}) && Grown(s0, Now(d)) && Tree(s0, {})
      requires got0 < sectors && |d.data| >= DIRECT && |d.idx| == NeededIndex(|d.data|)
      modifies cache, freeMap.used, d`data, d`idx, d`indirect
      ensures Holds(d, {}) && Grown(s0, Now(d))
      ensures got == got0 + |d.data| - old(|d.data|) && got0 <= got <= sectors
      ensures ok ==> |d.idx| == NeededIndex(|d.data|) && (got < sectors ==> |d.data| >= SINGLE)
      ensures |d.idx| <= NeededIndex(|d.data| + 1)
      ensures !ok ==> got < sectors
      ensures !ok && !freeMap.mayFail ==> Zeros(freeMap.used.bits) == 0
    {
      hide Tree, Grown, Owns, Volume.Valid;
      TreePointers(Now(d), {});
      got := got0;
      ok := EnsureIndirect(d, s0);
      if !ok { return; }
      TreeBlock(Now(d), {}, 0);
      TreeWeaken(Now(d), {}, {0});
      var ib := ReadIndex(d.indirect);
      ok, got, ib := FillBlock(d, 0, ib, sectors, got0, s0, {0});
      StoreIndex(d, 0, d.indirect, ib, s0, {0});
      assert {0} - {0} == {};
    }

    /** Makes sure that there is an index block below entry `i` of the doubly indirect
        block, whose pointers are in `dib0`. */
    method EnsureSub(d: InodeDisk, i: nat, dib0: seq<Word>, ghost s0: Snap) returns (ok: bool, dib: seq<Word>)
      requires Holds(d, {1}) && Grown(s0, Now(d)) && Tree(s0, {})
      requires i < WORDS && i + 2 <= |d.idx| && Covers(dib0, d.idx, 2)
      modifies cache, freeMap.used, d`idx
      ensures Holds(d, {1}) && Grown(s0, Now(d)) && Covers(dib, d.idx, 2)
      ensures |d.idx| == if ok && old(|d.idx|) == i + 2 then i + 3 else old(|d.idx|)
      ensures !ok ==> d.idx == old(d.idx)
      ensures !ok && !freeMap.mayFail ==> Zeros(freeMap.used.bits) == 0
    {
      hide Tree, Grown, Owns;
      TreePointers(Now(d), {1});
      ok, dib := true, dib0;
      if dib[i] == NONE {
        var sector;
        ok, sector := AppendIndex(d, s0, {1});
        if ok { dib := dib[i := sector]; }
      }
    }

    /** One index block below the doubly indirect block. */
    method GrowSub(d: InodeDisk, i: nat, dib0: seq<Word>, sectors: nat, got0: nat, ghost s0: Snap)
      returns (ok: bool, got: nat, dib: seq<Word>)
      requires Holds(d, {1}) && Grown(s0, Now(d)) && Tree(s0, {})
      requires i < WORDS && got0 < sectors && SINGLE + 128 * i <= |d.data|
      requires i + 2 <= |d.idx| && |d.data| + 1 > Cap(|d.idx| - 1) && Covers(dib0, d.idx, 2)
      modifies cache, freeMap.used, d`data, d`idx
      ensures Holds(d, {1}) && Grown(s0, Now(d)) && Covers(dib, d.idx, 2)
      ensures 2 <= |d.idx| && |d.data| + 1 > Cap(|d.idx| - 1)
      ensures got == got0 + |d.data| - old(|d.data|) && got0 <= got <= sectors
      ensures ok ==> |d.data| > Cap(|d.idx| - 1) || (got == got0 && |d.idx| == old(|d.idx|))
      ensures ok && got < sectors ==> SINGLE + 128 * (i + 1) <= |d.data|
      ensures ok ==> |d.idx| > 2
      ensures !ok ==> got < sectors
      ensures !ok && !freeMap.mayFail ==> Zeros(freeMap.used.bits) == 0
    {
      hide Tree, Grown, Owns;
      TreePointers(Now(d), {1});
      got := got0;
      ok, dib := EnsureSub(d, i, dib0, s0);
      if !ok { return; }
      assert dib[i] == d.idx[i + 2];
      ok, got := FillSub(d, i, dib[i], sectors, got0, s0);
    }

    method FillSub(d: InodeDisk, ghost i: nat, sector: nat, sectors: nat, got0: nat, ghost s0: Snap)
      returns (ok: bool, got: nat)
      requires Holds(d, {1}) && Grown(s0, Now(d)) && Tree(s0, {})
      requires i < WORDS && got0 < sectors && SINGLE + 128 * i <= |d.data|
      requires i + 2 < |d.idx| && sector == d.idx[i + 2]
      modifies cache, freeMap.used, d`data
      ensures Holds(d, {1}) && Grown(s0, Now(d))
      ensures got == got0 + |d.data| - old(|d.data|) && got0 <= got <= sectors
      ensures ok && got < sectors ==> SINGLE + 128 * (i + 1) <= |d.data|
      ensures !ok ==> got < sectors
      ensures !ok && !freeMap.mayFail ==> Zeros(freeMap.used.bits) == 0
    {
      hide Tree, Grown, Owns;
      TreeBlock(Now(d), {1}, i + 2);
      TreeWeaken(Now(d), {1}, {1, i + 2});
      var ib := ReadIndex(sector);
      ok, got, ib := FillBlock(d, i + 2, ib, sectors, got0, s0, {1, i + 2});
      StoreIndex(d, i + 2, sector, ib, s0, {1, i + 2});
      assert {1, i + 2} - {i + 2} == {1};
    }

    method EnsureDoubly(d: InodeDisk, ghost s0: Snap) returns (ok: bool)
      requires Holds(d, {}) && Grown(s0, Now(d)) && |d.idx| >= 1
      modifies cache, freeMap.used, d`idx, d`doublyIndirect
      ensures Holds(d, {}) && Grown(s0, Now(d))
      ensures |d.idx| == if ok && old(|d.idx|) == 1 then 2 else old(|d.idx|)
      ensures !ok && !freeMap.mayFail ==> Zeros(freeMap.used.bits) == 0
    {
      hide Tree, Grown, Owns;
      TreePointers(Now(d), {});
      ok := true;
      if d.doublyIndirect == NONE {
        var sector;
        ok, sector := AppendIndex(d, s0, {});
        if ok { d.doublyIndirect := sector; }
      }
    }

    method GrowDoubly(d: InodeDisk, sectors: nat, got0: nat, ghost s0: Snap) returns (ok: bool, got: nat)
      requires Holds(d, {}) && Grown(s0, Now(d)) && Tree(s0, {})
      requires got0 < sectors && |d.data| >= SINGLE && |d.idx| == NeededIndex(|d.data|)
      modifies cache, freeMap.used, d`data, d`idx, d`doublyIndirect
      ensures Holds(d, {}) && Grown(s0, Now(d))
      ensures got == got0 + |d.data| - old(|d.data|) && got0 <= got <= sectors
      ensures ok && got == sectors ==> |d.idx| == NeededIndex(|d.data|)
      ensures |d.idx| <= NeededIndex(|d.data| + 1)
      ensures ok && got < sectors ==> |d.data| == MAX_SECTORS
      ensures !ok ==> got < sectors
      ensures !ok && !freeMap.mayFail ==> Zeros(freeMap.used.bits) == 0
    {
      hide Tree, Grown, Owns, NeededIndex, Volume.Valid, InodeDisk.Shape;
      TreePointers(Now(d), {});
      got := got0;
      NeededIndexIs(|d.data| + 1, |d.idx|);
      ok := EnsureDoubly(d, s0);
      if !ok { return; }
      ok, got := FillDoubly(d, sectors, got0, s0);
      TreePointers(Now(d), {});
      NeededIndexIs(|d.data| + 1, |d.idx|);
      if |d.data| > Cap(|d.idx| - 1) { NeededIndexIs(|d.data|, |d.idx|); }
    }

    /** Grows the tree below an existing doubly indirect block. */
    method FillDoubly(d: InodeDisk, sectors: nat, got0: nat, ghost s0: Snap) returns (ok: bool, got: nat)
      requires Holds(d, {}) && Grown(s0, Now(d)) && Tree(s0, {})
      requires got0 < sectors && SINGLE <= |d.data| && 2 <= |d.idx| && |d.data| + 1 > Cap(|d.idx| - 1)
      modifies cache, freeMap.used, d`data, d`idx
      ensures Holds(d, {}) && Grown(s0, Now(d))
      ensures 2 <= |d.idx| && |d.data| + 1 > Cap(|d.idx| - 1)
      ensures got == got0 + |d.data| - old(|d.data|) && got0 <= got <= sectors
      ensures ok && got == sectors ==> |d.idx| > 2 && |d.data| > Cap(|d.idx| - 1)
      ensures ok && got < sectors ==> |d.data| >= MAX_SECTORS
      ensures !ok ==> got < sectors
      ensures !ok && !freeMap.mayFail ==> Zeros(freeMap.used.bits) == 0
    {
      hide Tree, Grown, Owns, Cap;
      TreeBlock(Now(d), {}, 1);
      TreeWeaken(Now(d), {}, {1});
      var dib := ReadIndex(d.doublyIndirect);
      ok, got, dib := GrowSubs(d, dib, sectors, got0, s0);
      StoreIndex(d, 1, d.doublyIndirect, dib, s0, {1});
      assert {1} - {1} == {};
    }

    /** The loop over the 128 index blocks below the doubly indirect block. */
    method GrowSubs(d: InodeDisk, dib0: seq<Word>, sectors: nat, got0: nat, ghost s0: Snap)
      returns (ok: bool, got: nat, dib: seq<Word>)
      requires Holds(d, {1}) && Grown(s0, Now(d)) && Tree(s0, {})
      requires got0 < sectors && SINGLE <= |d.data| && Covers(dib0, d.idx, 2)
      requires 2 <= |d.idx| && |d.data| + 1 > Cap(|d.idx| - 1)
      modifies cache, freeMap.used, d`data, d`idx
      ensures Holds(d, {1}) && Grown(s0, Now(d)) && Covers(dib, d.idx, 2)
      ensures 2 <= |d.idx| && |d.data| + 1 > Cap(|d.idx| - 1)
      ensures got == got0 + |d.data| - old(|d.data|) && got0 <= got <= sectors
      ensures ok && got == sectors ==> |d.idx| > 2 && |d.data| > Cap(|d.idx| - 1)
      ensures ok && got < sectors ==> |d.data| >= MAX_SECTORS
      ensures !ok ==> got < sectors
      ensures !ok && !freeMap.mayFail ==> Zeros(freeMap.used.bits) == 0
    {
      hide Tree, Grown, Owns;
      got, dib := got0, dib0;
      var i := 0;
      while i < WORDS && got < sectors
        invariant 0 <= i <= WORDS
        invariant Holds(d, {1}) && Grown(s0, Now(d)) && Covers(dib, d.idx, 2)
        invariant 2 <= |d.idx| && |d.data| + 1 > Cap(|d.idx| - 1)
        invariant got < sectors ==> SINGLE + 128 * i <= |d.data|
        invariant got > got0 ==> |d.idx| > 2 && |d.data| > Cap(|d.idx| - 1)
        invariant got == got0 + |d.data| - old(|d.data|) && got0 <= got <= sectors
        decreases WORDS - i
      {
        TreePointers(Now(d), {1});
        ok, got, dib := GrowSub(d, i, dib, sectors, got, s0);
        if !ok { return; }
        i := i + 1;
      }
      ok := true;
    }
  }
}
