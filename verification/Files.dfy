/** Creating, reading, writing and deleting files: every file is a growable byte
    sequence, and no operation on one file disturbs another. */
module Files {
  import opened Sectors
  import opened Bitmaps
  import opened Cache
  import opened BlockTree
  import opened Inodes
  import opened InodeRollback
  import opened FileBytes

  const INT_MAX: nat := 0x7FFF_FFFF

  /** The in-memory inode `d` describes file `f`. */
  ghost predicate Matches(d: InodeDisk, f: File)
    reads d
  {
    && d.Shape() && d.isDir == f.isDir && d.fileCnt == f.fileCnt && d.length == f.length && d.parent == f.parent
    && d.data == f.data && d.idx == f.idx
  }

  /** indirect_lookup, on the index block at `sector`, which covers positions from
      `base` on. */
  method IndirectLookup(v: Volume, d: InodeDisk, ghost b: nat, sector: Word, pos: nat) returns (r: Word)
    requires v.Holds(d, {}) && b != 1 && sector == Entry(d.idx, b)
    requires pos < 128 * SECTOR_SIZE
    modifies v.cache
    ensures v.Holds(d, {}) && v.cache.flat == old(v.cache.flat)
    ensures r == if b < |d.idx| then Entry(d.data, BaseOf(b) + pos / SECTOR_SIZE) else NONE
  {
    hide Tree, Owns;
    TreePointers(v.Now(d), {});
    if sector == NONE { return NONE; }
    TreeBlock(v.Now(d), {}, b);
    var ib := v.ReadIndex(sector);
    r := ib[pos / SECTOR_SIZE];
  }

  method DoublyIndirectLookup(v: Volume, d: InodeDisk, pos: nat) returns (r: Word)
    requires v.Holds(d, {}) && pos < 128 * 128 * SECTOR_SIZE
    modifies v.cache
    ensures v.Holds(d, {}) && v.cache.flat == old(v.cache.flat)
    ensures r == Entry(d.data, SINGLE + pos / SECTOR_SIZE)
  {
    hide Tree, Owns;
    TreePointers(v.Now(d), {});
    if d.doublyIndirect == NONE { return NONE; }
    TreeBlock(v.Now(d), {}, 1);
    var dib := v.ReadIndex(d.doublyIndirect);
    var i := pos / (SECTOR_SIZE * 128);
    var rest := pos % (SECTOR_SIZE * 128);
    assert pos / SECTOR_SIZE == 128 * i + rest / SECTOR_SIZE;
    r := IndirectLookup(v, d, i + 2, dib[i], rest);
  }

  /** byte_to_sector_unlocked: the tree is the list of its data sectors. */
  method ByteToSector(v: Volume, d: InodeDisk, pos: nat) returns (r: Word)
    requires v.Holds(d, {})
    modifies v.cache
    ensures v.Holds(d, {}) && v.cache.flat == old(v.cache.flat)
    ensures r == Entry(d.data, pos / SECTOR_SIZE)
    ensures r != NONE ==> r < |v.cache.flat| && pos / SECTOR_SIZE < |d.data|
  {
    hide Tree, Owns;
    TreePointers(v.Now(d), {});
    var lower, delta := 0, DIRECT * SECTOR_SIZE;
    if pos < lower + delta { return d.direct[pos / SECTOR_SIZE]; }
    lower := lower + delta;
    delta := 128 * SECTOR_SIZE;
    if pos < lower + delta {
      r := IndirectLookup(v, d, 0, d.indirect, pos - lower);
      return;
    }
    lower := lower + delta;
    delta := 128 * 128 * SECTOR_SIZE;
    if pos < lower + delta {
      r := DoublyIndirectLookup(v, d, pos - lower);
      return;
    }
    r := NONE;
  }

  /** How many bytes the next round of a read or write copies; not positive at the end
      of the file. */
  function Chunk(length: nat, size: nat, offset: nat): (chunk: int)
    ensures chunk > 0 <==> size > 0 && offset < length
    ensures chunk > 0 ==> && chunk <= size && offset % SECTOR_SIZE + chunk <= SECTOR_SIZE && offset + chunk <= length
  {
    var inodeLeft := length - offset;
    var sectorLeft := SECTOR_SIZE - offset % SECTOR_SIZE;
    var minLeft := if inodeLeft < sectorLeft then inodeLeft else sectorLeft;
    if size < minLeft then size else minLeft
  }

  /** One round of a read: copies the rest of one sector, or nothing at the end. */
  method ReadRound(v: Volume, d: InodeDisk, ghost f: File, buffer: array<Byte>, size: nat, offset: nat, at: nat)
    returns (n: nat)
    requires v.Valid() && Healthy(v.cache.flat, v.freeMap.used.bits, f) && Matches(d, f)
    requires at + size <= buffer.Length && size > 0
    modifies v.cache, buffer
    ensures v.Valid() && v.cache.flat == old(v.cache.flat)
    ensures n <= size && (n > 0 <==> offset < f.length) && (n > 0 ==> offset + n <= f.length)
    ensures n > 0 ==> buffer[at..at + n] == Contents(v.cache.flat, f.data, f.length)[offset..offset + n]
    ensures forall k :: 0 <= k < buffer.Length && !(at <= k < at + n) ==> buffer[k] == old(buffer[k])
  {
    hide Tree, Owns, TailZero, Contents, Accessed;
    var sector := ByteToSector(v, d, offset);
    var ofs := offset % SECTOR_SIZE;
    if sector == NONE { return 0; }
    var chunk := Chunk(d.length, size, offset);
    if chunk <= 0 { return 0; }
    n := chunk;
    v.cache.Read(sector, buffer, at, n, ofs);
    ReadChunk(v.cache.flat, f.data, f.length, offset / SECTOR_SIZE, ofs, n);
    assert offset == SECTOR_SIZE * (offset / SECTOR_SIZE) + ofs;
    // Read ahead: the sector after this one is found, to be brought into the cache.
    var next := ByteToSector(v, d, offset + SECTOR_SIZE);
  }

  /** inode_read_at: reads up to the end of the file. */
  method ReadAt(v: Volume, d: InodeDisk, ghost f: File, buffer: array<Byte>, size0: nat, offset0: nat)
    returns (n: nat)
    requires v.Valid() && Healthy(v.cache.flat, v.freeMap.used.bits, f) && Matches(d, f)
    requires size0 <= buffer.Length
    modifies v.cache, buffer
    ensures v.Valid() && v.cache.flat == old(v.cache.flat)
    ensures n == if offset0 >= f.length then 0 else if f.length - offset0 < size0 then f.length - offset0 else size0
    ensures offset0 < f.length ==>
              buffer[..n] == Bytes(v.cache.flat, v.freeMap.used.bits, f)[offset0..offset0 + n]
    ensures buffer[n..] == old(buffer[n..])
  {
    hide Healthy, Contents;
    ghost var flat, used := v.cache.flat, v.freeMap.used.bits;
    ghost var c := Bytes(flat, used, f);
    var size: nat, offset: nat := size0, offset0;
    n := 0;
    while size > 0
      invariant v.Valid() && v.cache.flat == flat
      invariant size + n == size0 && offset == offset0 + n && (n > 0 ==> offset <= f.length)
      invariant forall k :: 0 <= k < n ==> buffer[k] == c[offset0 + k]
      invariant forall k :: n <= k < buffer.Length ==> buffer[k] == old(buffer[k])
    {
      var chunk := ReadRound(v, d, f, buffer, size, offset, n);
      if chunk == 0 { break; }
      forall k | n <= k < n + chunk ensures buffer[k] == c[offset0 + k] {
        assert buffer[k] == buffer[n..n + chunk][k - n];
      }
      size, offset, n := size - chunk, offset + chunk, n + chunk;
    }
  }

  /** One round of a write: copies into the rest of one sector. */
  method WriteRound(v: Volume, d: InodeDisk, ghost f: File, buffer: seq<Byte>, offset: nat) returns (n: nat)
    requires v.Valid() && Healthy(v.cache.flat, v.freeMap.used.bits, f) && Matches(d, f)
    requires 0 < |buffer| && offset + |buffer| <= f.length
    modifies v.cache
    ensures v.Valid() && Healthy(v.cache.flat, v.freeMap.used.bits, f)
    ensures 0 < n <= |buffer|
    ensures Bytes(v.cache.flat, v.freeMap.used.bits, f)
         == Overwrite(old(Bytes(v.cache.flat, v.freeMap.used.bits, f)), offset, buffer[..n])
    ensures StepOn(old(v.cache.flat), v.freeMap.used.bits, v.cache.flat, v.freeMap.used.bits, Owned(f), Owned(f))
  {
    hide Tree, Owns, TailZero;
    var sector := ByteToSector(v, d, offset);
    var ofs := offset % SECTOR_SIZE;
    assert sector != NONE by { TreePointers(v.Now(d), {}); }
    n := Chunk(d.length, |buffer|, offset);
    HealthyWrite(v.cache.flat, v.freeMap.used.bits, f, offset / SECTOR_SIZE, ofs, buffer[..n]);
    assert offset == SECTOR_SIZE * (offset / SECTOR_SIZE) + ofs;
    v.cache.Write(sector, buffer[..n], ofs);
  }

  lemma StepTrans(flat0: seq<seq<Byte>>, used0: seq<bool>, flat1: seq<seq<Byte>>, used1: seq<bool>,
                  flat2: seq<seq<Byte>>, used2: seq<bool>, m0: set<Word>, m1: set<Word>, m2: set<Word>)
    requires StepOn(flat0, used0, flat1, used1, m0, m1) && StepOn(flat1, used1, flat2, used2, m1, m2)
    ensures StepOn(flat0, used0, flat2, used2, m0, m2)
  {
  }

  /** The copying loop of a write, once the file is long enough. */
  method WriteBytes(v: Volume, d: InodeDisk, ghost f: File, buffer: seq<Byte>, offset0: nat) returns (n: nat)
    requires v.Valid() && Healthy(v.cache.flat, v.freeMap.used.bits, f) && Matches(d, f)
    requires offset0 + |buffer| <= f.length
    modifies v.cache
    ensures v.Valid() && Healthy(v.cache.flat, v.freeMap.used.bits, f) && n == |buffer|
    ensures Bytes(v.cache.flat, v.freeMap.used.bits, f)
         == Overwrite(old(Bytes(v.cache.flat, v.freeMap.used.bits, f)), offset0, buffer)
    ensures StepOn(old(v.cache.flat), v.freeMap.used.bits, v.cache.flat, v.freeMap.used.bits, Owned(f), Owned(f))
  {
    hide Healthy, Bytes, Owned, StepOn;
    ghost var flat, used := v.cache.flat, v.freeMap.used.bits;
    ghost var c := Bytes(flat, used, f);
    StepRefl(flat, used, f);
    assert Overwrite(c, offset0, buffer[..0]) == c;
    n := 0;
    while n < |buffer|
      invariant v.Valid() && Healthy(v.cache.flat, used, f) && n <= |buffer|
      invariant Bytes(v.cache.flat, used, f) == Overwrite(c, offset0, buffer[..n])
      invariant StepOn(flat, used, v.cache.flat, used, Owned(f), Owned(f))
      decreases |buffer| - n
    {
      ghost var flat1 := v.cache.flat;
      var chunk := WriteRound(v, d, f, buffer[n..], offset0 + n);
      OverwriteTwice(c, offset0, buffer[..n], buffer[n..][..chunk]);
      assert buffer[..n] + buffer[n..][..chunk] == buffer[..n + chunk];
      StepTrans(flat, used, flat1, used, v.cache.flat, used, Owned(f), Owned(f), Owned(f));
      n := n + chunk;
    }
    assert buffer[..n] == buffer;
  }

  lemma StepRefl(flat: seq<seq<Byte>>, used: seq<bool>, f: File)
    requires Healthy(flat, used, f)
    ensures StepOn(flat, used, flat, used, Owned(f), Owned(f))
  {
    assert AllSectors(flat);
  }

  /** Whether a file can go from `n` to `m` data sectors with `free` free sectors left. */
  predicate Fits(n: nat, m: nat, free: nat)
    requires n <= m
  {
    n == m || (m <= MAX_SECTORS && Cost(n, m) <= free)
  }

  method WriteInode(v: Volume, d: InodeDisk, sector: Word)
    requires v.Valid() && sector < |v.cache.flat| && |d.direct| == DIRECT && d.length <= MAX_LENGTH
    modifies v.cache
    ensures v.Valid()
    ensures v.cache.flat == old(v.cache.flat)[sector := Pack(InodeWords(d.isDir, d.fileCnt, d.length, d.parent,
                                                                      d.direct, d.indirect, d.doublyIndirect))]
  {
    v.WriteIndex(sector, InodeWords(d.isDir, d.fileCnt, d.length, d.parent, d.direct, d.indirect, d.doublyIndirect));
  }

  lemma InodeOfShape(d: InodeDisk, f: File)
    requires Matches(d, f) && f.length <= MAX_LENGTH
    ensures InodeWords(d.isDir, d.fileCnt, d.length, d.parent, d.direct, d.indirect, d.doublyIndirect) == Inode(f)
  {
    assert d.direct == seq(DIRECT, j => if j < 0 then 0 else Entry(f.data, j));
  }

  /** A file's tree has been grown for the length in `d`: write its inode back. */
  method StoreGrown(v: Volume, d: InodeDisk, sector: Word, ghost f: File, ghost s0: Snap) returns (ghost f': File)
    requires v.Holds(d, {}) && Grown(s0, v.Now(d)) && Rooted(s0.flat, s0.used, f) && s0 == TreeOf(s0.flat, s0.used, f)
    requires |d.data| == SectorCount(d.length) && |d.idx| == NeededIndex(|d.data|) && f.length <= d.length
    requires sector == f.sector && d.isDir == f.isDir && d.fileCnt == f.fileCnt && d.parent == f.parent
    modifies v.cache
    ensures v.Valid() && f' == f.(data := d.data, idx := d.idx, length := d.length) && Matches(d, f')
    ensures Healthy(v.cache.flat, v.freeMap.used.bits, f')
    ensures Bytes(v.cache.flat, v.freeMap.used.bits, f') == Overwrite(Contents(s0.flat, f.data, f.length), d.length, [])
    ensures StepOn(s0.flat, s0.used, v.cache.flat, v.freeMap.used.bits, Owned(f), Owned(f'))
  {
    hide Tree, Owns, Grown, StepOn, Owned, Mapped, TailZero, Contents, Overwrite, Pack, Inode, InodeWords, NeededIndex;
    ghost var s := v.Now(d);
    TreePointers(s, {});
    GrownSizes(s0, s);
    CapMonotone(|s.idx|, MAX_INDEX);
    f' := f.(data := d.data, idx := d.idx, length := d.length);
    HealthyGrown(s0, s, f, f');
    InodeOfShape(d, f');
    WriteInode(v, d, sector);
  }

  lemma VolumeSectors(v: Volume)
    requires v.Valid()
    ensures AllSectors(v.cache.flat) && |v.freeMap.used.bits| == |v.cache.flat| <= NONE
  {
  }

  /** Makes a file longer: grow its tree, then write its inode back. A failure that
      obtained nothing loses the indexed part of the file. */
  method Extend(v: Volume, d: InodeDisk, sector: Word, ghost f: File, length: nat)
    returns (ok: bool, ghost f': File, ghost damaged: bool)
    requires v.Valid() && Healthy(v.cache.flat, v.freeMap.used.bits, f) && Matches(d, f) && sector == f.sector
    requires f.length < length
    modifies v.cache, v.freeMap.used, d
    ensures v.Valid() && (damaged ==> !ok)
    ensures !damaged ==> Matches(d, f') && Healthy(v.cache.flat, v.freeMap.used.bits, f') && SameFile(f, f')
    ensures !damaged ==> StepOn(old(v.cache.flat), old(v.freeMap.used.bits), v.cache.flat, v.freeMap.used.bits,
                                Owned(f), Owned(f'))
    ensures ok ==> f'.length == length && Bytes(v.cache.flat, v.freeMap.used.bits, f')
                   == Overwrite(old(Bytes(v.cache.flat, v.freeMap.used.bits, f)), length, [])
    ensures !ok && !damaged ==> f' == f && v.freeMap.used.bits == old(v.freeMap.used.bits)
                                && Bytes(v.cache.flat, v.freeMap.used.bits, f)
                                   == old(Bytes(v.cache.flat, v.freeMap.used.bits, f))
    ensures damaged ==> Broken(old(v.cache.flat), old(v.freeMap.used.bits), f, v.Now(d))
    ensures damaged ==> StepOn(old(v.cache.flat), old(v.freeMap.used.bits), v.cache.flat, v.freeMap.used.bits, Owned(f), {})
    ensures !v.freeMap.mayFail ==>
              (ok <==> Fits(|f.data|, SectorCount(length), old(Zeros(v.freeMap.used.bits))))
    ensures !v.freeMap.mayFail && !ok ==>
              (damaged <==> |f.data| > DIRECT && !Fits(|f.data|, |f.data| + 1, old(Zeros(v.freeMap.used.bits))))
  {
    hide Tree, Owns, TailZero, Grown, Contents, StepOn, Owned, Fresh, OnlyFresh, Untouched,
      Pack, Inode, InodeWords, NeededIndex, Cost, Damaged, Broken, Zeros, Overwrite, Volume.Valid;
    ghost var s0 := v.Now(d);
    VolumeSectors(v);
    f' := f;
    var sectors := SectorCount(length) - SectorCount(d.length);
    ghost var obtained;
    ok, obtained := Grow(v, d, sectors);
    damaged := !ok && |f.data| > DIRECT && obtained == 0;
    if ok {
      d.length := length;
      f' := StoreGrown(v, d, sector, f, s0);
    } else if !damaged {
      RestoredHealthy(v, d, s0, f);
    } else {
      VolumeSectors(v);
      DamagedIsBroken(s0.flat, s0.used, f, v.Now(d));
      DamagedStep(s0.flat, s0.used, f, v.Now(d));
    }
  }

  lemma RestoredHealthy(v: Volume, d: InodeDisk, s0: Snap, f: File)
    requires Healthy(s0.flat, s0.used, f) && s0 == TreeOf(s0.flat, s0.used, f) && Restored(v, d, s0)
    ensures Healthy(v.cache.flat, v.freeMap.used.bits, f)
    ensures Bytes(v.cache.flat, v.freeMap.used.bits, f) == Bytes(s0.flat, s0.used, f)
    ensures StepOn(s0.flat, s0.used, v.cache.flat, v.freeMap.used.bits, Owned(f), Owned(f))
  {
    assert AllSectors(v.cache.flat);
    OwnedUsed(s0.flat, s0.used, f);
    hide Tree, Owned;
    HealthyFrame(s0.flat, s0.used, v.cache.flat, v.freeMap.used.bits, f);
  }

  /** A device with nothing allocated for a file yet. */
  lemma EmptyTree(flat: seq<seq<Byte>>, used: seq<bool>)
    requires |used| == |flat| <= NONE && AllSectors(flat)
    ensures Tree(Snap(flat, used, [], []), {})
  {
  }

  /** A new file's tree is there: write its inode. */
  method FinishCreate(v: Volume, d: InodeDisk, sector: Word, ghost f0: File, ghost s0: Snap) returns (ghost f: File)
    requires v.Holds(d, {}) && Grown(s0, v.Now(d)) && Tree(s0, {}) && s0.data == [] && s0.idx == []
    requires |d.data| == SectorCount(d.length) && |d.idx| == NeededIndex(|d.data|) && d.fileCnt == 0
    requires f0 == File(sector, d.isDir, 0, 0, d.parent, [], [])
    requires sector < |s0.flat| == |s0.used| && s0.used[sector]
    modifies v.cache
    ensures v.Valid() && f == f0.(data := d.data, idx := d.idx, length := d.length)
    ensures Healthy(v.cache.flat, v.freeMap.used.bits, f)
    ensures Bytes(v.cache.flat, v.freeMap.used.bits, f) == seq(d.length, _ => 0)
    ensures StepOn(s0.flat, s0.used, v.cache.flat, v.freeMap.used.bits, {sector}, Owned(f))
  {
    hide Tree, Owns, Grown, StepOn, Fresh, OnlyFresh, Untouched, Pack, Inode, InodeWords;
    f := StoreGrown(v, d, sector, f0, s0);
    assert Owned(f0) == {sector};
    assert Overwrite([], d.length, []) == seq(d.length, _ => 0);
  }

  /** inode_create. */
  method CreateInode(v: Volume, sector: Word, length: nat, isDir: Word, parent: Word)
    returns (ok: bool, ghost f: File)
    requires v.Valid() && sector < |v.cache.flat| && v.freeMap.used.bits[sector]
    modifies v.cache, v.freeMap.used
    ensures v.Valid() && f.sector == sector && f.isDir == isDir && f.parent == parent && f.fileCnt == 0
    ensures ok ==> && Healthy(v.cache.flat, v.freeMap.used.bits, f)
                   && Bytes(v.cache.flat, v.freeMap.used.bits, f) == seq(length, _ => 0)
                   && StepOn(old(v.cache.flat), old(v.freeMap.used.bits), v.cache.flat, v.freeMap.used.bits,
                             {sector}, Owned(f))
    ensures !ok ==> && v.freeMap.used.bits == old(v.freeMap.used.bits) && |v.cache.flat| == old(|v.cache.flat|)
                    && forall x :: 0 <= x < |v.cache.flat| && v.freeMap.used.bits[x] ==>
                         v.cache.flat[x] == old(v.cache.flat)[x]
    ensures !v.freeMap.mayFail ==> (ok <==> Fits(0, SectorCount(length), old(Zeros(v.freeMap.used.bits))))
  {
    hide Tree, Owns, Grown, StepOn, Fresh, OnlyFresh, Untouched, Healthy, Bytes, Owned, Cost, Zeros, Damaged, Volume.Valid;
    VolumeSectors(v);
    var d := new InodeDisk(isDir, length, parent);
    ghost var s0 := v.Now(d);
    EmptyTree(s0.flat, s0.used);
    ghost var f0 := File(sector, isDir, 0, 0, parent, [], []);
    f := f0;
    ghost var obtained;
    ok, obtained := Grow(v, d, SectorCount(length));
    if ok {
      f := FinishCreate(v, d, sector, f0, s0);
    }
  }

  /** When a write that needs `need` data sectors succeeds, and when its failure damages
      a file that has `n`. */
  ghost predicate WriteOutcome(n: nat, need: nat, free: nat, done: bool, damaged: bool) {
    && n <= need
    && (done <==> Fits(n, need, free))
    && (damaged <==> !Fits(n, need, free) && n > DIRECT && !Fits(n, n + 1, free))
  }

  /** What a write of `buffer` at `offset` did to file `f`, which then is `f'`. */
  ghost predicate Written(flat: seq<seq<Byte>>, used: seq<bool>, f: File, buffer: seq<Byte>, offset: nat,
                          flat': seq<seq<Byte>>, used': seq<bool>, f': File)
    requires Healthy(flat, used, f)
  {
    && SameFile(f, f') && Healthy(flat', used', f')
    && Bytes(flat', used', f') == Overwrite(Bytes(flat, used, f), offset, buffer)
    && StepOn(flat, used, flat', used', Owned(f), Owned(f'))
  }

  lemma WrittenIs(flat: seq<seq<Byte>>, used: seq<bool>, f: File, buffer: seq<Byte>, offset: nat,
                  flat': seq<seq<Byte>>, used': seq<bool>, f': File)
    requires Healthy(flat, used, f) && SameFile(f, f') && Healthy(flat', used', f')
    requires Bytes(flat', used', f') == Overwrite(Bytes(flat, used, f), offset, buffer)
    requires StepOn(flat, used, flat', used', Owned(f), Owned(f'))
    ensures Written(flat, used, f, buffer, offset, flat', used', f')
  {
  }

  /** A write that starts with a growth: what the growth appended is overwritten. */
  lemma WrittenTwice(flat: seq<seq<Byte>>, used: seq<bool>, f: File, buffer: seq<Byte>, offset: nat,
                     flat1: seq<seq<Byte>>, used1: seq<bool>, f1: File, flat2: seq<seq<Byte>>)
    requires Healthy(flat, used, f) && offset + |buffer| > f.length
    requires Written(flat, used, f, [], offset + |buffer|, flat1, used1, f1)
    requires Written(flat1, used1, f1, buffer, offset, flat2, used1, f1)
    ensures Written(flat, used, f, buffer, offset, flat2, used1, f1)
  {
    hide Healthy, Owned, StepOn;
    ExtendThenWrite(Bytes(flat, used, f), offset, buffer);
    StepTrans(flat, used, flat1, used1, flat2, used1, Owned(f), Owned(f1), Owned(f1));
  }

  lemma MatchesLength(d: InodeDisk, f: File)
    requires Matches(d, f)
    ensures d.length == f.length
  {
  }

  lemma OutcomeIs(f: File, length: nat, free: nat, ok: bool, damaged: bool)
    requires |f.data| == SectorCount(f.length) && f.length < length && (damaged ==> !ok)
    requires |f.data| <= SectorCount(length) && (ok <==> Fits(|f.data|, SectorCount(length), free))
    requires !ok ==> (damaged <==> |f.data| > DIRECT && !Fits(|f.data|, |f.data| + 1, free))
    ensures WriteOutcome(|f.data|, SectorCount(length), free, ok, damaged)
  {
  }

  /** inode_write_at past the end of the file: extend it, then write. */
  method WriteBeyond(v: Volume, d: InodeDisk, sector: Word, ghost f: File, buffer: seq<Byte>, offset: nat)
    returns (n: nat, ghost done: bool, ghost damaged: bool, ghost f': File)
    requires v.Valid() && Healthy(v.cache.flat, v.freeMap.used.bits, f) && Matches(d, f) && sector == f.sector
    requires offset + |buffer| > f.length
    modifies v.cache, v.freeMap.used, d
    ensures v.Valid() && SameFile(f, f')
    ensures !damaged ==> Matches(d, f')
    ensures done ==> !damaged && n == |buffer|
                     && Written(old(v.cache.flat), old(v.freeMap.used.bits), f, buffer, offset,
                                v.cache.flat, v.freeMap.used.bits, f')
    ensures !done ==> n == 0
    ensures !done && !damaged ==> && f' == f && v.freeMap.used.bits == old(v.freeMap.used.bits)
                                  && Healthy(v.cache.flat, v.freeMap.used.bits, f)
                                  && Bytes(v.cache.flat, v.freeMap.used.bits, f)
                                     == old(Bytes(v.cache.flat, v.freeMap.used.bits, f))
                                  && StepOn(old(v.cache.flat), old(v.freeMap.used.bits),
                                            v.cache.flat, v.freeMap.used.bits, Owned(f), Owned(f))
    ensures damaged ==> Broken(old(v.cache.flat), old(v.freeMap.used.bits), f, v.Now(d))
    ensures damaged ==> StepOn(old(v.cache.flat), old(v.freeMap.used.bits), v.cache.flat, v.freeMap.used.bits, Owned(f), {})
    ensures !v.freeMap.mayFail ==>
              WriteOutcome(|f.data|, SectorCount(offset + |buffer|), old(Zeros(v.freeMap.used.bits)), done, damaged)
  {
    hide Healthy, Bytes, Owned, StepOn, Fits, Zeros, Broken, Written, WriteOutcome, Overwrite,
      SectorCount, Volume.Valid, Volume.Now, Matches;
    ghost var flat, used := v.cache.flat, v.freeMap.used.bits;
    LengthMapped(flat, used, f);
    ghost var free := Zeros(used);
    assert d.length == f.length by { MatchesLength(d, f); }
    n, done := 0, false;
    var ok;
    ok, f', damaged := Extend(v, d, sector, f, offset + |buffer|);
    if damaged { f' := f; }
    if !v.freeMap.mayFail { OutcomeIs(f, offset + |buffer|, free, ok, damaged); }
    if !ok { return; }
    ghost var flat1, used1 := v.cache.flat, v.freeMap.used.bits;
    WrittenIs(flat, used, f, [], offset + |buffer|, flat1, used1, f');
    n := WriteBytes(v, d, f', buffer, offset);
    WrittenIs(flat1, used1, f', buffer, offset, v.cache.flat, used1, f');
    WrittenTwice(flat, used, f, buffer, offset, flat1, used1, f', v.cache.flat);
    done := true;
  }

  /** inode_write_at, for a writable file. */
  method WriteFile(v: Volume, d: InodeDisk, sector: Word, ghost f: File, buffer: seq<Byte>, offset: nat)
    returns (n: nat, ghost done: bool, ghost damaged: bool, ghost f': File)
    requires v.Valid() && Healthy(v.cache.flat, v.freeMap.used.bits, f) && Matches(d, f) && sector == f.sector
    requires offset + |buffer| <= INT_MAX
    modifies v.cache, v.freeMap.used, d
    ensures v.Valid() && SameFile(f, f')
    ensures !damaged ==> && Matches(d, f') && Healthy(v.cache.flat, v.freeMap.used.bits, f')
                         && StepOn(old(v.cache.flat), old(v.freeMap.used.bits), v.cache.flat, v.freeMap.used.bits,
                                   Owned(f), Owned(f'))
    ensures done ==> !damaged && n == |buffer| && Bytes(v.cache.flat, v.freeMap.used.bits, f')
                     == Overwrite(old(Bytes(v.cache.flat, v.freeMap.used.bits, f)), offset, buffer)
    ensures !done ==> n == 0
    ensures !done && !damaged ==> && f' == f && v.freeMap.used.bits == old(v.freeMap.used.bits)
                                  && Bytes(v.cache.flat, v.freeMap.used.bits, f)
                                     == old(Bytes(v.cache.flat, v.freeMap.used.bits, f))
    ensures damaged ==> Broken(old(v.cache.flat), old(v.freeMap.used.bits), f, v.Now(d))
    ensures damaged ==> StepOn(old(v.cache.flat), old(v.freeMap.used.bits), v.cache.flat, v.freeMap.used.bits, Owned(f), {})
    ensures offset + |buffer| <= f.length ==> done
    ensures offset + |buffer| > f.length && !v.freeMap.mayFail ==>
              WriteOutcome(|f.data|, SectorCount(offset + |buffer|), old(Zeros(v.freeMap.used.bits)), done, damaged)
  {
    hide Healthy, Bytes, Owned, StepOn, Fits, Zeros, Broken, WriteOutcome, Overwrite, SectorCount;
    if offset + |buffer| > d.length {
      n, done, damaged, f' := WriteBeyond(v, d, sector, f, buffer, offset);
    } else {
      n := WriteBytes(v, d, f, buffer, offset);
      done, damaged, f' := true, false, f;
    }
  }

  lemma LengthMapped(flat: seq<seq<Byte>>, used: seq<bool>, f: File)
    requires Healthy(flat, used, f)
    ensures |f.data| == SectorCount(f.length)
  {
  }
}
