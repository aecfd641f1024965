/** The file system as its users see it: a map from inode numbers to byte sequences. */
module FileSystems {
  import opened Sectors
  import opened Bitmaps
  import opened Inodes
  import opened FileBytes
  import opened Files
  import opened FileDelete

  class FileSystem {
    const v: Volume
    ghost var files: map<Word, File>

    /** Every file is stored correctly, and no sector belongs to two of them. */
    ghost predicate Valid()
      reads this, v.cache, v.freeMap.used
    {
      v.Valid() && AllHealthy(v.cache.flat, v.freeMap.used.bits, files)
    }

    /** The bytes of the file whose inode is at `s`. */
    ghost function Content(s: Word): seq<Byte>
      requires Valid() && s in files
      reads this, v.cache, v.freeMap.used
    {
      Bytes(v.cache.flat, v.freeMap.used.bits, files[s])
    }

    constructor (v: Volume)
      requires v.Valid()
      ensures Valid() && this.v == v && files == map[]
    {
      this.v := v;
      files := map[];
    }

    /** inode_create: on success a file of `length` zeros; on failure nothing changes. */
    method Create(sector: Word, length: nat, isDir: Word, parent: Word) returns (ok: bool)
      requires Valid() && sector < |v.cache.flat| && v.freeMap.used.bits[sector]
      requires sector !in files && forall s :: s in files ==> Apart(Owned(files[s]), {sector})
      modifies this, v.cache, v.freeMap.used
      ensures Valid()
      ensures OnlyChanged(old(v.cache.flat), old(v.freeMap.used.bits), old(files),
                          v.cache.flat, v.freeMap.used.bits, files, sector)
      ensures ok ==> sector in files && Content(sector) == seq(length, _ => 0)
                     && files[sector].isDir == isDir && files[sector].parent == parent && files[sector].fileCnt == 0
      ensures !ok ==> files == old(files) && v.freeMap.used.bits == old(v.freeMap.used.bits)
      ensures !v.freeMap.mayFail ==> (ok <==> Fits(0, SectorCount(length), old(Zeros(v.freeMap.used.bits))))
    {
      hide Healthy, Owned, StepOn, Bytes, Apart, Fits, Zeros;
      ghost var flat, used := v.cache.flat, v.freeMap.used.bits;
      ghost var f;
      ok, f := CreateInode(v, sector, length, isDir, parent);
      if ok {
        AllHealthyStep(flat, used, v.cache.flat, v.freeMap.used.bits, files, {sector}, f);
        files := files[sector := f];
      } else {
        AllHealthyKept(flat, used, v.cache.flat, files);
      }
    }

    /** inode_open: what is on the disk is enough to find the whole file again. */
    method Open(sector: Word) returns (d: InodeDisk)
      requires Valid() && sector in files
      modifies v.cache
      ensures Valid() && v.cache.flat == old(v.cache.flat)
      ensures fresh(d) && Matches(d, files[sector])
    {
      hide Healthy, Inode, Unpack;
      ghost var f := files[sector];
      HealthyInode(v.cache.flat, v.freeMap.used.bits, f);
      InodeFields(f);
      var words := v.ReadIndex(sector);
      d := new InodeDisk.Load(words, f.data, f.idx);
    }

    /** inode_read_at. */
    method ReadAt(sector: Word, d: InodeDisk, buffer: array<Byte>, size: nat, offset: nat) returns (n: nat)
      requires Valid() && sector in files && Matches(d, files[sector]) && size <= buffer.Length
      modifies v.cache, buffer
      ensures Valid() && v.cache.flat == old(v.cache.flat)
      ensures n == if offset >= |Content(sector)| then 0
                   else if |Content(sector)| - offset < size then |Content(sector)| - offset else size
      ensures offset < |Content(sector)| ==> buffer[..n] == Content(sector)[offset..offset + n]
      ensures buffer[n..] == old(buffer[n..])
    {
      n := Files.ReadAt(v, d, files[sector], buffer, size, offset);
    }

    /** inode_write_at: on success the file is overwritten at `offset` and grows as
        needed. `damaged` tells a growth that failed before it obtained anything; the file
        is then broken, and the others are not affected. */
    method WriteAt(sector: Word, d: InodeDisk, denyWriteCnt: nat, buffer: seq<Byte>, offset: nat)
      returns (n: nat, ghost done: bool, ghost damaged: bool)
      requires Valid() && sector in files && Matches(d, files[sector]) && offset + |buffer| <= INT_MAX
      modifies this, v.cache, v.freeMap.used, d
      ensures Valid()
      ensures OnlyChanged(old(v.cache.flat), old(v.freeMap.used.bits), old(files),
                          v.cache.flat, v.freeMap.used.bits, files, sector)
      ensures !damaged ==> sector in files && Matches(d, files[sector]) && SameFile(old(files)[sector], files[sector])
      ensures done ==> !damaged && n == |buffer| && Content(sector) == Overwrite(old(Content(sector)), offset, buffer)
      ensures !done ==> n == 0
      ensures !done && !damaged ==> files == old(files) && Content(sector) == old(Content(sector))
                                    && v.freeMap.used.bits == old(v.freeMap.used.bits)
      ensures denyWriteCnt > 0 ==> !done && !damaged
      ensures damaged ==> files == old(files) - {sector}
                          && Broken(old(v.cache.flat), old(v.freeMap.used.bits), old(files)[sector], v.Now(d))
      ensures denyWriteCnt == 0 && offset + |buffer| <= old(d.length) ==> done
      ensures denyWriteCnt == 0 && offset + |buffer| > old(d.length) && !v.freeMap.mayFail ==>
                WriteOutcome(old(|d.data|), SectorCount(offset + |buffer|), old(Zeros(v.freeMap.used.bits)), done, damaged)
    {
      hide Healthy, Owned, StepOn, Bytes, Apart, Fits, Zeros, Broken;
      ghost var flat, used := v.cache.flat, v.freeMap.used.bits;
      n, done, damaged := 0, false, false;
      if denyWriteCnt > 0 {
        AllHealthyKept(flat, used, flat, files);
        return;
      }
      ghost var f;
      n, done, damaged, f := WriteFile(v, d, sector, files[sector], buffer, offset);
      if damaged {
        AllHealthyRemove(flat, used, v.cache.flat, v.freeMap.used.bits, files, sector);
        files := files - {sector};
      } else {
        AllHealthyStep(flat, used, v.cache.flat, v.freeMap.used.bits, files, Owned(files[sector]), f);
        files := files[sector := f];
      }
    }

    /** inode_close by the last opener of a removed file: its sectors become free, each
        released once, and nothing else does. */
    method Delete(sector: Word, d: InodeDisk)
      requires Valid() && sector in files && Matches(d, files[sector])
      modifies this, v.cache, v.freeMap.used
      ensures Valid() && files == old(files) - {sector}
      ensures Released(old(v.cache.flat), old(v.freeMap.used.bits), v, Owned(old(files)[sector]))
      ensures OnlyChanged(old(v.cache.flat), old(v.freeMap.used.bits), old(files),
                          v.cache.flat, v.freeMap.used.bits, files, sector)
    {
      hide Healthy, Owned, Bytes, Apart;
      ghost var flat, used := v.cache.flat, v.freeMap.used.bits;
      CloseRemoved(v, d, sector, files[sector]);
      AllHealthyRemove(flat, used, v.cache.flat, v.freeMap.used.bits, files, sector);
      files := files - {sector};
    }
  }
}
