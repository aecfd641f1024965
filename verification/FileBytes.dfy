/** Files as byte sequences: what the block tree on the disk means. */
module FileBytes {
  import opened Sectors
  import opened Bitmaps
  import opened Cache
  import opened BlockTree
  import opened Sequences

  const INODE_MAGIC: Word := 0x494e_4f44

  /** The largest file: 10 + 128 + 128 * 128 sectors. */
  const MAX_LENGTH: nat := MAX_SECTORS * SECTOR_SIZE

  /** A file: the sector of its inode, what the inode says, and its tree. */
  datatype File = File(sector: Word, isDir: Word, fileCnt: Word, length: nat, parent: Word,
                       data: seq<Word>, idx: seq<Word>)

  /** `f'` is `f` with possibly other contents: the same inode sector, kind, count and parent. */
  ghost predicate SameFile(f: File, f': File) {
    f'.sector == f.sector && f'.isDir == f.isDir && f'.fileCnt == f.fileCnt && f'.parent == f.parent
  }

  /** bytes_to_sectors. */
  function SectorCount(size: nat): (n: nat)
    ensures SECTOR_SIZE * n - SECTOR_SIZE < size <= SECTOR_SIZE * n || size == n == 0
  {
    (size + SECTOR_SIZE - 1) / SECTOR_SIZE
  }

  /** The words of `struct inode_disk`. */
  function InodeWords(isDir: Word, fileCnt: Word, length: Word, parent: Word,
                      direct: seq<Word>, indirect: Word, doublyIndirect: Word): (ws: seq<Word>)
    requires |direct| == DIRECT
    ensures |ws| == WORDS
  {
    [isDir, fileCnt, length, parent] + direct + [indirect, doublyIndirect, INODE_MAGIC] + seq(111, _ => 0)
  }

  ghost function TreeOf(flat: seq<seq<Byte>>, used: seq<bool>, f: File): Snap {
    Snap(flat, used, f.data, f.idx)
  }

  /** The inode that describes `f`. */
  ghost function Inode(f: File): seq<Word>
    requires f.length <= MAX_LENGTH
  {
    InodeWords(f.isDir, f.fileCnt, f.length, f.parent, seq(DIRECT, j => if j < 0 then 0 else Entry(f.data, j)),
               Entry(f.idx, 0), Entry(f.idx, 1))
  }

  /** The sectors that `f` occupies. */
  ghost function Owned(f: File): set<Word> {
    {f.sector} + (set x | x in f.data) + (set x | x in f.idx)
  }

  /** The byte stored for position `p`. */
  function ByteAt(flat: seq<seq<Byte>>, data: seq<Word>, p: nat): (b: Byte)
    requires p / SECTOR_SIZE < |data| && data[p / SECTOR_SIZE] < |flat|
    requires |flat[data[p / SECTOR_SIZE]]| == SECTOR_SIZE
  {
    flat[data[p / SECTOR_SIZE]][p % SECTOR_SIZE]
  }

  /** The data sectors exist and cover `length` bytes exactly. */
  ghost predicate Mapped(flat: seq<seq<Byte>>, data: seq<Word>, length: nat) {
    && |data| == SectorCount(length)
    && forall k :: 0 <= k < |data| ==> data[k] < |flat| && |flat[data[k]]| == SECTOR_SIZE
  }

  /** Bytes past the end of the file in its last sector are zero. */
  ghost predicate TailZero(flat: seq<seq<Byte>>, data: seq<Word>, length: nat)
    requires Mapped(flat, data, length)
  {
    forall p :: length <= p < SECTOR_SIZE * |data| ==> ByteAt(flat, data, p) == 0
  }

  ghost function Contents(flat: seq<seq<Byte>>, data: seq<Word>, length: nat): (c: seq<Byte>)
    requires Mapped(flat, data, length)
    ensures |c| == length
  {
    seq(length, p requires 0 <= p < length => ByteAt(flat, data, p))
  }

  /** A byte sequence after `bytes` were written at `offset`; a gap reads as zeros. */
  function Overwrite(c: seq<Byte>, offset: nat, bytes: seq<Byte>): (r: seq<Byte>)
    ensures |r| == if offset + |bytes| > |c| then offset + |bytes| else |c|
  {
    seq(if offset + |bytes| > |c| then offset + |bytes| else |c|,
        p => if 0 <= p - offset < |bytes| then bytes[p - offset] else if 0 <= p < |c| then c[p] else 0)
  }

  /** Writing in two pieces is writing at once. */
  lemma OverwriteTwice(c: seq<Byte>, offset: nat, a: seq<Byte>, b: seq<Byte>)
    ensures Overwrite(Overwrite(c, offset, a), offset + |a|, b) == Overwrite(c, offset, a + b)
  {
  }

  /** A write inside one sector of the file is a write to the byte sequence. */
  lemma WriteChunk(flat: seq<seq<Byte>>, data: seq<Word>, length: nat, k: nat, ofs: nat, bytes: seq<Byte>)
    requires Mapped(flat, data, length) && Distinct(data)
    requires k < |data| && ofs + |bytes| <= SECTOR_SIZE && SECTOR_SIZE * k + ofs + |bytes| <= length
    ensures var flat' := flat[data[k] := Patch(flat[data[k]], ofs, bytes)];
            && Mapped(flat', data, length)
            && Contents(flat', data, length) == Overwrite(Contents(flat, data, length), SECTOR_SIZE * k + ofs, bytes)
            && (TailZero(flat, data, length) ==> TailZero(flat', data, length))
  {
    var flat' := flat[data[k] := Patch(flat[data[k]], ofs, bytes)];
    forall p | 0 <= p < SECTOR_SIZE * |data|
      ensures ByteAt(flat', data, p) ==
              if 0 <= p - (SECTOR_SIZE * k + ofs) < |bytes| then bytes[p - (SECTOR_SIZE * k + ofs)] else ByteAt(flat, data, p)
    {
      if p / SECTOR_SIZE == k {
        assert p == SECTOR_SIZE * k + p % SECTOR_SIZE;
      } else {
        assert data[p / SECTOR_SIZE] != data[k];
        assert !(SECTOR_SIZE * k <= p < SECTOR_SIZE * k + SECTOR_SIZE);
      }
    }
  }

  /** Reading inside one sector of the file reads the byte sequence. */
  lemma ReadChunk(flat: seq<seq<Byte>>, data: seq<Word>, length: nat, k: nat, ofs: nat, n: nat)
    requires Mapped(flat, data, length) && k < |data| && ofs + n <= SECTOR_SIZE
    requires SECTOR_SIZE * k + ofs + n <= length
    ensures flat[data[k]][ofs..ofs + n]
         == Contents(flat, data, length)[SECTOR_SIZE * k + ofs..SECTOR_SIZE * k + ofs + n]
  {
    var raw := flat[data[k]][ofs..ofs + n];
    var seen := Contents(flat, data, length)[SECTOR_SIZE * k + ofs..SECTOR_SIZE * k + ofs + n];
    forall i | 0 <= i < n ensures raw[i] == seen[i] {
      var p := SECTOR_SIZE * k + ofs + i;
      assert p / SECTOR_SIZE == k && p % SECTOR_SIZE == ofs + i;
    }
  }

  /** Growth extends the byte sequence with zeros. */
  lemma GrowContents(flat: seq<seq<Byte>>, data: seq<Word>, length: nat,
                     flat': seq<seq<Byte>>, data': seq<Word>, length': nat)
    requires Mapped(flat, data, length) && TailZero(flat, data, length)
    requires Mapped(flat', data', length') && length <= length' && data <= data'
    requires forall k :: 0 <= k < |data| ==> flat'[data[k]] == flat[data[k]]
    requires forall k :: |data| <= k < |data'| ==> flat'[data'[k]] == ZeroSector()
    ensures Contents(flat', data', length') == Overwrite(Contents(flat, data, length), length', [])
    ensures TailZero(flat', data', length')
  {
    forall p | 0 <= p < SECTOR_SIZE * |data'|
      ensures ByteAt(flat', data', p) == if p < length then ByteAt(flat, data, p) else 0
    {
      var k := p / SECTOR_SIZE;
      if k < |data| {
        assert data'[k] == data[k];
        assert ByteAt(flat', data', p) == ByteAt(flat, data, p);
      } else {
        assert p >= SECTOR_SIZE * |data|;
        assert flat'[data'[k]] == ZeroSector();
      }
    }
  }

  /** The tree and the data of `f` are in order. */
  ghost predicate Rooted(flat: seq<seq<Byte>>, used: seq<bool>, f: File) {
    && Tree(TreeOf(flat, used, f), {})
    && f.length <= MAX_LENGTH && |f.idx| == NeededIndex(|f.data|)
    && Mapped(flat, f.data, f.length) && TailZero(flat, f.data, f.length)
    && f.sector < |flat| && used[f.sector] && f.sector !in f.data && f.sector !in f.idx
  }

  /** `f` is stored completely and correctly. */
  ghost predicate Healthy(flat: seq<seq<Byte>>, used: seq<bool>, f: File) {
    Rooted(flat, used, f) && flat[f.sector] == Pack(Inode(f))
  }

  ghost function Bytes(flat: seq<seq<Byte>>, used: seq<bool>, f: File): (c: seq<Byte>)
    requires Healthy(flat, used, f)
    ensures |c| == f.length
  {
    Contents(flat, f.data, f.length)
  }

  ghost predicate Apart(a: set<Word>, b: set<Word>) {
    a !! b
  }

  /** Every file is healthy and no sector belongs to two files. */
  ghost predicate AllHealthy(flat: seq<seq<Byte>>, used: seq<bool>, files: map<Word, File>) {
    && (forall s :: s in files ==> files[s].sector == s && Healthy(flat, used, files[s]))
    && (forall s, t :: s in files && t in files && s != t ==> Apart(Owned(files[s]), Owned(files[t])))
  }

  lemma HealthyPointers(flat: seq<seq<Byte>>, used: seq<bool>, f: File)
    requires Healthy(flat, used, f)
    ensures |f.idx| == NeededIndex(|f.data|) <= MAX_INDEX && |f.data| <= Cap(|f.idx|)
    ensures forall k :: 0 <= k < |f.data| ==> f.data[k] != NONE
    ensures forall k :: 0 <= k < |f.idx| ==> f.idx[k] != NONE
  {
    TreePointers(TreeOf(flat, used, f), {});
  }

  /** Whatever `f` owns is in use. */
  lemma OwnedUsed(flat: seq<seq<Byte>>, used: seq<bool>, f: File)
    requires Healthy(flat, used, f)
    ensures forall x :: x in Owned(f) ==> x < |flat| == |used| && used[x]
  {
    TreePointers(TreeOf(flat, used, f), {});
    hide Tree;
    forall x | x in Owned(f) ensures x < |flat| == |used| && used[x] {
      if x in f.data {
        var k :| 0 <= k < |f.data| && f.data[k] == x;
      } else if x in f.idx {
        var k :| 0 <= k < |f.idx| && f.idx[k] == x;
      }
    }
  }

  /** A tree only depends on the sectors it reaches. */
  lemma TreeFrame(s: Snap, r: Snap)
    requires Tree(s, {}) && r.data == s.data && r.idx == s.idx
    requires |r.flat| == |s.flat| == |r.used| && AllSectors(r.flat)
    requires forall k :: 0 <= k < |s.data| && s.data[k] < |s.flat| ==> r.used[s.data[k]]
    requires forall k :: 0 <= k < |s.idx| && s.idx[k] < |s.flat| ==> r.used[s.idx[k]] && r.flat[s.idx[k]] == s.flat[s.idx[k]]
    ensures Tree(r, {})
  {
    forall i | 0 <= i < |r.idx| ensures IndexOk(r, i) {
      assert IndexOk(s, i);
    }
  }

  /** A file only depends on the sectors it owns. */
  lemma HealthyFrame(flat: seq<seq<Byte>>, used: seq<bool>, flat': seq<seq<Byte>>, used': seq<bool>, f: File)
    requires Healthy(flat, used, f)
    requires |flat'| == |flat| == |used'| && AllSectors(flat')
    requires forall x :: x in Owned(f) && x < |flat| ==> used'[x] && flat'[x] == flat[x]
    ensures Healthy(flat', used', f) && Bytes(flat', used', f) == Bytes(flat, used, f)
  {
    TreePointers(TreeOf(flat, used, f), {});
    assert f.sector in Owned(f);
    assert forall k :: 0 <= k < |f.data| ==> f.data[k] in Owned(f);
    assert forall k :: 0 <= k < |f.idx| ==> f.idx[k] in Owned(f);
    TreeFrame(TreeOf(flat, used, f), TreeOf(flat', used', f));
    ContentsFrame(flat, flat', f.data, f.length);
    hide Tree, Owned, Owns, Mapped, TailZero, Contents, Inode, Pack;
  }

  lemma ContentsFrame(flat: seq<seq<Byte>>, flat': seq<seq<Byte>>, data: seq<Word>, length: nat)
    requires Mapped(flat, data, length) && |flat'| == |flat|
    requires forall k :: 0 <= k < |data| ==> flat'[data[k]] == flat[data[k]]
    ensures Mapped(flat', data, length) && Contents(flat', data, length) == Contents(flat, data, length)
    ensures TailZero(flat, data, length) ==> TailZero(flat', data, length)
  {
    forall p | 0 <= p < SECTOR_SIZE * |data| ensures ByteAt(flat', data, p) == ByteAt(flat, data, p) {
    }
  }

  /** `f` reads the same in both states. */
  ghost predicate SameBytes(flat: seq<seq<Byte>>, used: seq<bool>, flat': seq<seq<Byte>>, used': seq<bool>, f: File) {
    Healthy(flat, used, f) && Healthy(flat', used', f) && Bytes(flat', used', f) == Bytes(flat, used, f)
  }

  /** A step on one file: other sectors in use stay as they are, and what the file
      gains was free. */
  ghost predicate StepOn(flat: seq<seq<Byte>>, used: seq<bool>, flat': seq<seq<Byte>>, used': seq<bool>,
                         mine: set<Word>, mine': set<Word>) {
    && |flat'| == |flat| == |used| == |used'| && AllSectors(flat')
    && (forall x :: 0 <= x < |flat| && used[x] && x !in mine ==> used'[x] && flat'[x] == flat[x])
    && (forall x :: x in mine' ==> x in mine || (x < |flat| && !used[x]))
  }

  /** A step on one file keeps every other file and what it reads as. */
  lemma OthersKept(flat: seq<seq<Byte>>, used: seq<bool>, flat': seq<seq<Byte>>, used': seq<bool>,
                   mine: set<Word>, mine': set<Word>, f: File)
    requires Healthy(flat, used, f) && StepOn(flat, used, flat', used', mine, mine') && Apart(Owned(f), mine)
    ensures SameBytes(flat, used, flat', used', f)
    ensures Apart(Owned(f), mine') && Apart(mine', Owned(f))
  {
    hide Healthy, Owned;
    OwnedUsed(flat, used, f);
    HealthyFrame(flat, used, flat', used', f);
  }

  /** Writing a sector that is not one of its index blocks keeps a tree. */
  lemma TreeKeepsData(s: Snap, x: Word, bytes: seq<Byte>)
    requires Tree(s, {}) && x < |s.flat| && x !in s.idx && |bytes| == SECTOR_SIZE
    ensures Tree(s.(flat := s.flat[x := bytes]), {})
  {
    var r := s.(flat := s.flat[x := bytes]);
    forall i | 0 <= i < |r.idx| ensures IndexOk(r, i) {
      assert IndexOk(s, i);
    }
  }

  /** A write inside one sector of a healthy file. */
  lemma HealthyWrite(flat: seq<seq<Byte>>, used: seq<bool>, f: File, k: nat, ofs: nat, bytes: seq<Byte>)
    requires Healthy(flat, used, f) && k < |f.data|
    requires ofs + |bytes| <= SECTOR_SIZE && SECTOR_SIZE * k + ofs + |bytes| <= f.length
    ensures var flat' := flat[f.data[k] := Patch(flat[f.data[k]], ofs, bytes)];
            && Healthy(flat', used, f)
            && Bytes(flat', used, f) == Overwrite(Bytes(flat, used, f), SECTOR_SIZE * k + ofs, bytes)
            && StepOn(flat, used, flat', used, Owned(f), Owned(f))
  {
    TreePointers(TreeOf(flat, used, f), {});
    assert Distinct(f.data);
    WriteChunk(flat, f.data, f.length, k, ofs, bytes);
    TreeKeepsData(TreeOf(flat, used, f), f.data[k], Patch(flat[f.data[k]], ofs, bytes));
    assert f.data[k] in Owned(f);
    assert AllSectors(flat);
    hide Tree;
  }

  /** Growing a healthy file: its tree grew and its inode was written back. */
  /** Growth takes free sectors, so never the inode's own. */
  lemma SectorApart(s0: Snap, s: Snap, f: File)
    requires Rooted(s0.flat, s0.used, f) && s0 == TreeOf(s0.flat, s0.used, f) && Grown(s0, s)
    ensures f.sector < |s.flat| && s.used[f.sector] && f.sector !in s.idx && f.sector !in s.data
  {
    hide Tree, Owns, Mapped, TailZero, Zeros;
    assert forall k :: 0 <= k < |s.data| ==> if k < |f.data| then s.data[k] == f.data[k] else !s0.used[s.data[k]];
    assert forall k :: 0 <= k < |s.idx| ==> if k < |f.idx| then s.idx[k] == f.idx[k] else !s0.used[s.idx[k]];
  }

  lemma HealthyGrown(s0: Snap, s: Snap, f: File, f': File)
    requires Rooted(s0.flat, s0.used, f) && s0 == TreeOf(s0.flat, s0.used, f)
    requires Grown(s0, s) && Tree(s, {}) && |s.idx| == NeededIndex(|s.data|)
    requires f' == f.(data := s.data, idx := s.idx, length := f'.length)
    requires f.length <= f'.length <= MAX_LENGTH && |s.data| == SectorCount(f'.length)
    ensures var flat' := s.flat[f.sector := Pack(Inode(f'))];
            && Healthy(flat', s.used, f')
            && Bytes(flat', s.used, f') == Overwrite(Contents(s0.flat, f.data, f.length), f'.length, [])
            && StepOn(s0.flat, s0.used, flat', s.used, Owned(f), Owned(f'))
  {
    hide Tree, Grown, Owns, Mapped, TailZero, Contents, Overwrite, StepOn, Owned, Pack, NeededIndex;
    SectorApart(s0, s, f);
    TreePointers(s, {});
    TreeSectors(s, {});
    TreeKeepsData(s, f.sector, Pack(Inode(f')));
    GrownMapped(s0, s, f, f');
    GrownStep(s0, s, f, f');
  }

  lemma GrownMapped(s0: Snap, s: Snap, f: File, f': File)
    requires Rooted(s0.flat, s0.used, f) && s0 == TreeOf(s0.flat, s0.used, f)
    requires Grown(s0, s) && AllSectors(s.flat) && |s.used| == |s.flat| && Owns(s)
    requires f' == f.(data := s.data, idx := s.idx, length := f'.length) && f.sector !in s.data
    requires f.length <= f'.length <= MAX_LENGTH && |s.data| == SectorCount(f'.length)
    ensures var flat' := s.flat[f.sector := Pack(Inode(f'))];
            && Mapped(flat', f'.data, f'.length) && TailZero(flat', f'.data, f'.length)
            && Contents(flat', f'.data, f'.length) == Overwrite(Contents(s0.flat, f.data, f.length), f'.length, [])
  {
    TreePointers(s0, {});
    var flat' := s.flat[f.sector := Pack(Inode(f'))];
    hide Tree, Zeros;
    forall k | 0 <= k < |f.data| ensures flat'[f.data[k]] == s0.flat[f.data[k]] {
      assert s.data[k] == f.data[k];
      assert f.data[k] !in f.idx;
    }
    GrowContents(s0.flat, f.data, f.length, flat', s.data, f'.length);
  }

  lemma GrownStep(s0: Snap, s: Snap, f: File, f': File)
    requires Rooted(s0.flat, s0.used, f) && s0 == TreeOf(s0.flat, s0.used, f)
    requires Grown(s0, s) && AllSectors(s.flat)
    requires f' == f.(data := s.data, idx := s.idx, length := f'.length) && f'.length <= MAX_LENGTH
    ensures StepOn(s0.flat, s0.used, s.flat[f.sector := Pack(Inode(f'))], s.used, Owned(f), Owned(f'))
  {
    hide Tree, Zeros, TailZero, Mapped;
    forall x | x in Owned(f') ensures x in Owned(f) || (x < |s0.flat| && !s0.used[x]) {
      if x in s.data {
        var k :| 0 <= k < |s.data| && s.data[k] == x;
        assert k < |f.data| ==> x == f.data[k];
      } else if x in s.idx {
        var k :| 0 <= k < |s.idx| && s.idx[k] == x;
        assert k < |f.idx| ==> x == f.idx[k];
      }
    }
  }

  /** A step on one file, seen by the whole file system: `mine` are the sectors that the
      step starts from, which belong to no other file. */
  lemma AllHealthyStep(flat: seq<seq<Byte>>, used: seq<bool>, flat': seq<seq<Byte>>, used': seq<bool>,
                       files: map<Word, File>, mine: set<Word>, f: File)
    requires AllHealthy(flat, used, files) && StepOn(flat, used, flat', used', mine, Owned(f))
    requires forall s :: s in files && s != f.sector ==> Apart(Owned(files[s]), mine)
    requires Healthy(flat', used', f)
    ensures AllHealthy(flat', used', files[f.sector := f])
    ensures forall s :: s in files && s != f.sector ==> SameBytes(flat, used, flat', used', files[s])
  {
    hide Healthy, Owned, StepOn, Bytes, Apart;
    forall s | s in files && s != f.sector
      ensures SameBytes(flat, used, flat', used', files[s])
      ensures Apart(Owned(files[s]), Owned(f)) && Apart(Owned(f), Owned(files[s]))
    {
      OthersKept(flat, used, flat', used', mine, Owned(f), files[s]);
    }
  }

  /** Removing one file: the others do not notice. */
  lemma AllHealthyRemove(flat: seq<seq<Byte>>, used: seq<bool>, flat': seq<seq<Byte>>, used': seq<bool>,
                         files: map<Word, File>, sector: Word)
    requires AllHealthy(flat, used, files) && sector in files
    requires StepOn(flat, used, flat', used', Owned(files[sector]), {})
    ensures AllHealthy(flat', used', files - {sector})
    ensures forall s :: s in files && s != sector ==> SameBytes(flat, used, flat', used', files[s])
  {
    hide Healthy, Owned, StepOn, Bytes, Apart;
    forall s | s in files && s != sector
      ensures SameBytes(flat, used, flat', used', files[s])
    {
      OthersKept(flat, used, flat', used', Owned(files[sector]), {}, files[s]);
    }
  }

  /** From one state of the file system to another, only the file at `sector` changed. */
  ghost predicate OnlyChanged(flat: seq<seq<Byte>>, used: seq<bool>, files: map<Word, File>,
                              flat': seq<seq<Byte>>, used': seq<bool>, files': map<Word, File>, sector: Word) {
    && AllHealthy(flat', used', files')
    && files.Keys - {sector} == files'.Keys - {sector}
    && forall s :: s in files && s != sector ==> s in files' && files'[s] == files[s] && SameBytes(flat, used, flat', used', files[s])
  }

  lemma ExtendThenWrite(c: seq<Byte>, offset: nat, bytes: seq<Byte>)
    requires offset + |bytes| > |c|
    ensures Overwrite(Overwrite(c, offset + |bytes|, []), offset, bytes) == Overwrite(c, offset, bytes)
  {
  }

  /** Sectors that are not in use do not matter. */
  lemma AllHealthyKept(flat: seq<seq<Byte>>, used: seq<bool>, flat': seq<seq<Byte>>, files: map<Word, File>)
    requires AllHealthy(flat, used, files) && |flat'| == |flat| == |used| && AllSectors(flat')
    requires forall x :: 0 <= x < |flat| && used[x] ==> flat'[x] == flat[x]
    ensures AllHealthy(flat', used, files)
    ensures forall s :: s in files ==> SameBytes(flat, used, flat', used, files[s])
  {
    hide Healthy, Owned, Bytes, Apart;
    forall s | s in files ensures SameBytes(flat, used, flat', used, files[s]) {
      OwnedUsed(flat, used, files[s]);
      HealthyFrame(flat, used, flat', used, files[s]);
    }
  }

  /** Where the fields of an inode are in its sector. */
  lemma InodeFields(f: File)
    requires f.length <= MAX_LENGTH
    ensures var w := Inode(f);
            && w[0] == f.isDir && w[1] == f.fileCnt && w[2] == f.length && w[3] == f.parent
            && (forall j :: 0 <= j < DIRECT ==> w[4..14][j] == Entry(f.data, j))
            && w[14] == Entry(f.idx, 0) && w[15] == Entry(f.idx, 1)
  {
    var w := Inode(f);
    assert forall j :: 0 <= j < DIRECT ==> w[4..14][j] == w[4 + j];
  }

  /** Reading back the inode sector of a healthy file. */
  lemma HealthyInode(flat: seq<seq<Byte>>, used: seq<bool>, f: File)
    requires Healthy(flat, used, f)
    ensures f.sector < |flat| && f.length <= MAX_LENGTH && Unpack(flat[f.sector]) == Inode(f)
  {
    UnpackPack(Inode(f));
  }

  /** A damaged file `f`: its inode sector is as it was and so still names its top index
      block, which is not in use any more. */
  ghost predicate Broken(flat: seq<seq<Byte>>, used: seq<bool>, f: File, r: Snap) {
    && Damaged(TreeOf(flat, used, f), r)
    && f.length <= MAX_LENGTH && f.sector < |r.flat| == |r.used| && r.used[f.sector] && r.flat[f.sector] == Pack(Inode(f))
    && f.idx[0] < |r.used| && !r.used[f.idx[0]]
  }

  lemma DamagedIsBroken(flat: seq<seq<Byte>>, used: seq<bool>, f: File, r: Snap)
    requires Healthy(flat, used, f) && Damaged(TreeOf(flat, used, f), r)
    ensures Broken(flat, used, f, r)
  {
    TreePointers(TreeOf(flat, used, f), {});
    hide Tree, Owns, Pack, Inode;
    assert f.idx[0] in Tops(f.idx) && f.sector !in Tops(f.idx);
  }

  /** Damage to one file is a step on its own sectors. */
  lemma DamagedStep(flat: seq<seq<Byte>>, used: seq<bool>, f: File, r: Snap)
    requires |flat| == |used| && Damaged(TreeOf(flat, used, f), r) && AllSectors(r.flat)
    ensures StepOn(flat, used, r.flat, r.used, Owned(f), {})
  {
    assert forall x :: x in Tops(f.idx) ==> x in f.idx;
    assert forall x :: x in f.idx ==> x in Owned(f);
  }
}
