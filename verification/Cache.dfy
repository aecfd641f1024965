/** The 64-slot write-back buffer cache between the file system and its disk. */
module Cache {
  import opened Sectors
  import opened Sequences

  const CACHE_SIZE: nat := 64

  datatype Slot = Slot(valid: bool, dirty: bool, sector: nat, data: seq<Byte>)

  /** Moves slot `i` to the back of the recency list. */
  function Touch(lru: seq<nat>, i: nat): (r: seq<nat>)
  {
    Remove(lru, i) + [i]
  }

  /** The recency list is an ordering of all the slots. */
  ghost predicate IsRecencyList(lru: seq<nat>) {
    |lru| == CACHE_SIZE && Distinct(lru) && forall k: nat :: k in lru <==> k < CACHE_SIZE
  }

  /** `r` is `lru` with `i` taken out and put at the back; all others keep their order. */
  ghost predicate MovedToBack(lru: seq<nat>, r: seq<nat>, i: nat) {
    exists k :: 0 <= k < |lru| && lru[k] == i && r == lru[..k] + lru[k + 1..] + [i]
  }

  lemma TouchKeeps(lru: seq<nat>, i: nat)
    requires IsRecencyList(lru) && i < CACHE_SIZE
    ensures IsRecencyList(Touch(lru, i)) && Touch(lru, i)[CACHE_SIZE - 1] == i && MovedToBack(lru, Touch(lru, i), i)
  {
    RemoveDistinct(lru, i);
    assert i in lru;
    var k :| 0 <= k < |lru| && lru[k] == i;
    RemoveIs(lru, k);
  }

  /** When slot `i` was last touched, counting touches from 0; -1 if never. */
  ghost function LastTouch(touched: seq<nat>, i: nat): int {
    if touched == [] then -1
    else if touched[|touched| - 1] == i then |touched| - 1
    else LastTouch(touched[..|touched| - 1], i)
  }

  lemma {:induction false} LastTouchRange(touched: seq<nat>, i: nat)
    ensures -1 <= LastTouch(touched, i) < |touched|
  {
    if touched != [] { LastTouchRange(touched[..|touched| - 1], i); }
  }

  /** The list runs from the least to the most recently touched slot. */
  ghost predicate ByRecency(lru: seq<nat>, touched: seq<nat>) {
    forall a, b :: 0 <= a < b < |lru| ==>
      LastTouch(touched, lru[a]) < LastTouch(touched, lru[b]) || LastTouch(touched, lru[b]) == -1
  }

  lemma {:induction false} RemoveKeepsOrder(lru: seq<nat>, i: nat, touched: seq<nat>)
    requires ByRecency(lru, touched) && Distinct(lru)
    ensures ByRecency(Remove(lru, i), touched)
  {
    if lru != [] && lru[0] != i {
      RemoveKeepsOrder(lru[1..], i, touched);
      RemoveDistinct(lru[1..], i);
      var rest := Remove(lru[1..], i);
      forall b | 0 <= b < |rest|
        ensures LastTouch(touched, lru[0]) < LastTouch(touched, rest[b]) || LastTouch(touched, rest[b]) == -1
      {
        assert rest[b] in lru[1..];
        var c :| 0 <= c < |lru[1..]| && lru[1..][c] == rest[b];
        assert lru[c + 1] == rest[b];
      }
    }
  }

  /** Moving the touched slot to the back keeps the list in order of recency. */
  lemma TouchByRecency(lru: seq<nat>, i: nat, touched: seq<nat>)
    requires ByRecency(lru, touched) && Distinct(lru)
    ensures ByRecency(Touch(lru, i), touched + [i])
  {
    RemoveKeepsOrder(lru, i, touched);
    RemoveDistinct(lru, i);
    var rest, touched' := Remove(lru, i), touched + [i];
    assert touched'[..|touched|] == touched;
    assert LastTouch(touched', i) == |touched|;
    forall b | 0 <= b < |rest| ensures LastTouch(touched', rest[b]) == LastTouch(touched, rest[b]) < |touched| {
      assert rest[b] in rest;
      LastTouchRange(touched, rest[b]);
    }
  }

  /** No two valid slots hold the same sector. */
  ghost predicate Unique(slots: seq<Slot>) {
    forall i, j :: 0 <= i < j < |slots| && slots[i].valid && slots[j].valid ==> slots[i].sector != slots[j].sector
  }

  ghost predicate AllSectors(disk: seq<seq<Byte>>) {
    forall s :: 0 <= s < |disk| ==> |disk[s]| == SECTOR_SIZE
  }

  /** Valid slots show the flat disk `flat`; a clean one also agrees with the device. */
  ghost predicate SlotsAgree(slots: seq<Slot>, disk: seq<seq<Byte>>, flat: seq<seq<Byte>>)
    requires |disk| == |flat|
  {
    forall i :: 0 <= i < |slots| && slots[i].valid ==>
      && slots[i].sector < |disk|
      && slots[i].data == flat[slots[i].sector]
      && (!slots[i].dirty ==> disk[slots[i].sector] == flat[slots[i].sector])
  }

  ghost predicate HeldDirty(slots: seq<Slot>, s: nat) {
    exists i :: 0 <= i < |slots| && slots[i].valid && slots[i].dirty && slots[i].sector == s
  }

  /** The device differs from the flat disk only where a dirty slot says so. */
  ghost predicate DiskAgrees(slots: seq<Slot>, disk: seq<seq<Byte>>, flat: seq<seq<Byte>>)
    requires |disk| == |flat|
  {
    forall s :: 0 <= s < |disk| && disk[s] != flat[s] ==> HeldDirty(slots, s)
  }

  ghost predicate Coherent(slots: seq<Slot>, disk: seq<seq<Byte>>, flat: seq<seq<Byte>>) {
    && |disk| == |flat|
    && AllSectors(disk) && AllSectors(flat)
    && Unique(slots)
    && SlotsAgree(slots, disk, flat)
    && DiskAgrees(slots, disk, flat)
  }

  /** `sector` with the bytes from `offset` on replaced by `bytes`. */
  function Patch(sector: seq<Byte>, offset: nat, bytes: seq<Byte>): (r: seq<Byte>)
    requires offset + |bytes| <= |sector|
    ensures |r| == |sector|
    ensures forall k :: 0 <= k < |sector| ==>
              r[k] == if offset <= k < offset + |bytes| then bytes[k - offset] else sector[k]
  {
    sector[..offset] + bytes + sector[offset + |bytes|..]
  }

  ghost predicate Cached(slots: seq<Slot>, sector: nat) {
    exists i :: 0 <= i < |slots| && slots[i].valid && slots[i].sector == sector
  }

  /** What an access to `sector` does to the slots, the recency list and the device: it is
      served from the slot at the back of the list. That is the slot that held the sector;
      if there was none it is the least recently used one, whose data goes to the device if
      it is dirty. All else stays, in its order. */
  ghost predicate Accessed(slots: seq<Slot>, lru: seq<nat>, disk: seq<seq<Byte>>, sector: nat, dirty: bool,
                           slots': seq<Slot>, lru': seq<nat>, disk': seq<seq<Byte>>)
    requires |slots| == |slots'| == |lru| == |lru'| == CACHE_SIZE
  {
    var c := lru'[CACHE_SIZE - 1];
    && c < CACHE_SIZE && slots'[c].valid && slots'[c].sector == sector
    && MovedToBack(lru, lru', c)
    && (forall i :: 0 <= i < CACHE_SIZE && i != c ==> slots'[i] == slots[i])
    && if Cached(slots, sector)
       then slots[c].valid && slots[c].sector == sector && slots'[c].dirty == (slots[c].dirty || dirty) && disk' == disk
       else && c == lru[0] && slots'[c].dirty == dirty
            && |disk'| == |disk| && (slots[c].valid ==> slots[c].sector < |disk|)
            && disk' == if slots[c].valid && slots[c].dirty then disk[slots[c].sector := slots[c].data] else disk
  }

  /** One thread's view of the cache; the ghost field `flat` is the flat disk that the
      file system sees through it. */
  class BufferCache {
    var slots: seq<Slot>
    var lru: seq<nat>
    var disk: seq<seq<Byte>>
    ghost var flat: seq<seq<Byte>>

    ghost predicate Valid()
      reads this
    {
      && |slots| == CACHE_SIZE
      && IsRecencyList(lru)
      && |disk| <= NONE
      && Coherent(slots, disk, flat)
    }

    constructor (device: seq<seq<Byte>>)
      requires |device| <= NONE && AllSectors(device)
      ensures Valid() && flat == disk == device
    {
      slots := seq(CACHE_SIZE, _ => Slot(false, false, 0, []));
      lru := seq(CACHE_SIZE, i => i);
      disk := device;
      flat := device;
      new;
      forall k: nat | k < CACHE_SIZE ensures k in lru { assert lru[k] == k; }
    }

    /** The scan at the head of every cache operation. */
    method Find(sector: nat) returns (cb: int)
      requires Valid()
      ensures -1 <= cb < CACHE_SIZE
      ensures cb >= 0 ==> slots[cb].valid && slots[cb].sector == sector
      ensures cb < 0 ==> forall i :: 0 <= i < CACHE_SIZE && slots[i].valid ==> slots[i].sector != sector
    {
      var i := 0;
      while i < CACHE_SIZE
        invariant 0 <= i <= CACHE_SIZE
        invariant forall j :: 0 <= j < i && slots[j].valid ==> slots[j].sector != sector
      {
        if slots[i].valid && slots[i].sector == sector { return i; }
        i := i + 1;
      }
      return -1;
    }

    /** Evicts the slot at the front of the recency list, writing it back if it is
        dirty, and fills it with `sector`. The slot is not valid yet. */
    method Evict(sector: nat) returns (cb: nat)
      requires Valid() && sector < |flat|
      requires forall i :: 0 <= i < CACHE_SIZE && slots[i].valid ==> slots[i].sector != sector
      modifies this`slots, this`lru, this`disk
      ensures Valid() && |disk| == old(|disk|)
      ensures cb == old(lru)[0] && lru == Touch(old(lru), cb) && cb < CACHE_SIZE
      ensures slots == old(slots)[cb := Slot(false, false, sector, flat[sector])]
      ensures disk[sector] == flat[sector]
      ensures old(slots)[cb].valid ==> old(slots)[cb].sector < |old(disk)|
      ensures disk == if old(slots)[cb].valid && old(slots)[cb].dirty
                      then old(disk)[old(slots)[cb].sector := old(slots)[cb].data] else old(disk)
    {
      cb := lru[0];
      assert cb in lru;
      TouchKeeps(lru, cb);
      assert lru[1..] == Remove(lru, cb);
      lru := lru[1..] + [cb];
      var victim := slots[cb];
      if victim.valid && victim.dirty {
        disk := disk[victim.sector := victim.data];
      }
      assert disk[sector] == flat[sector];
      slots := slots[cb := Slot(false, false, sector, disk[sector])];
      forall s | 0 <= s < |disk| && disk[s] != flat[s] ensures HeldDirty(slots, s) {
        assert HeldDirty(old(slots), s);
        var i :| 0 <= i < |slots| && old(slots)[i].valid && old(slots)[i].dirty && old(slots)[i].sector == s;
        assert slots[i].sector == s;
      }
    }

    /** The start of every access: the slot for `sector` becomes the most recently used
        one. It holds the sector, but is not valid yet after a miss. */
    method Locate(sector: nat) returns (cb: nat)
      requires Valid() && sector < |flat|
      modifies this`slots, this`lru, this`disk
      ensures Valid() && cb < CACHE_SIZE && lru == Touch(old(lru), cb)
      ensures slots[cb].sector == sector && slots[cb].data == flat[sector]
      ensures !slots[cb].dirty ==> disk[sector] == flat[sector]
      ensures forall i :: 0 <= i < CACHE_SIZE && i != cb ==> slots[i] == old(slots)[i] && (slots[i].valid ==> slots[i].sector != sector)
      ensures Cached(old(slots), sector) ==> slots == old(slots) && slots[cb].valid && disk == old(disk)
      ensures !Cached(old(slots), sector) ==>
                && cb == old(lru)[0] && !slots[cb].dirty && |disk| == |old(disk)|
                && (old(slots)[cb].valid ==> old(slots)[cb].sector < |old(disk)|)
                && disk == if old(slots)[cb].valid && old(slots)[cb].dirty
                           then old(disk)[old(slots)[cb].sector := old(slots)[cb].data] else old(disk)
    {
      var hit := Find(sector);
      if hit >= 0 {
        cb := hit;
        assert Cached(slots, sector);
        TouchKeeps(lru, cb);
        lru := Touch(lru, cb);
      } else {
        cb := Evict(sector);
      }
    }

    method Read(sector: nat, buffer: array<Byte>, at: nat, size: nat, offset: nat)
      requires Valid() && sector < |flat|
      requires offset + size <= SECTOR_SIZE && at + size <= buffer.Length
      modifies this, buffer
      ensures Valid() && flat == old(flat)
      ensures buffer[at..at + size] == flat[sector][offset..offset + size]
      ensures forall k :: 0 <= k < buffer.Length && !(at <= k < at + size) ==> buffer[k] == old(buffer[k])
      ensures Accessed(old(slots), old(lru), old(disk), sector, false, slots, lru, disk)
    {
      var cb := Locate(sector);
      TouchKeeps(old(lru), cb);
      hide Remove, Touch, MovedToBack;
      var data := slots[cb].data;
      forall k | 0 <= k < size {
        buffer[at + k] := data[offset + k];
      }
      assert buffer[at..at + size] == data[offset..offset + size];
      MakeValid(cb, slots[cb].dirty, data);
    }

    method Write(sector: nat, buffer: seq<Byte>, offset: nat)
      requires Valid() && sector < |flat|
      requires offset + |buffer| <= SECTOR_SIZE
      modifies this
      ensures Valid() && flat == old(flat)[sector := Patch(old(flat)[sector], offset, buffer)]
      ensures Accessed(old(slots), old(lru), old(disk), sector, true, slots, lru, disk)
    {
      var cb := Locate(sector);
      TouchKeeps(old(lru), cb);
      hide Remove, Touch, MovedToBack;
      MakeValid(cb, true, Patch(slots[cb].data, offset, buffer));
    }

    /** The end of every access: the copy is done and the slot becomes valid. */
    method MakeValid(cb: nat, dirty: bool, data: seq<Byte>)
      requires Valid() && cb < CACHE_SIZE && |data| == SECTOR_SIZE
      requires slots[cb].sector < |flat|
      requires forall i :: 0 <= i < CACHE_SIZE && i != cb && slots[i].valid ==> slots[i].sector != slots[cb].sector
      requires !dirty ==> data == disk[slots[cb].sector]
      modifies this`slots, this`flat
      ensures Valid()
      ensures slots == old(slots)[cb := Slot(true, dirty, old(slots)[cb].sector, data)]
      ensures flat == old(flat)[slots[cb].sector := data]
    {
      var sector := slots[cb].sector;
      slots := slots[cb := Slot(true, dirty, sector, data)];
      flat := flat[sector := data];
      forall s | 0 <= s < |disk| && disk[s] != flat[s] ensures HeldDirty(slots, s) {
        if s == sector {
          assert slots[cb].valid && slots[cb].dirty && slots[cb].sector == s;
        } else {
          assert HeldDirty(old(slots), s);
          var i :| 0 <= i < |slots| && old(slots)[i].valid && old(slots)[i].dirty && old(slots)[i].sector == s;
          assert slots[i].sector == s;
        }
      }
    }

    /** Writes every dirty slot back; afterwards the device is the flat disk. */
    method Flush()
      requires Valid()
      modifies this`slots, this`disk
      ensures Valid() && disk == flat
      ensures forall j :: 0 <= j < CACHE_SIZE ==>
                slots[j] == if old(slots)[j].valid then old(slots)[j].(dirty := false) else old(slots)[j]
    {
      var i := 0;
      while i < CACHE_SIZE
        invariant 0 <= i <= CACHE_SIZE
        invariant Valid() && |disk| == old(|disk|)
        invariant forall j :: 0 <= j < i ==>
                    slots[j] == if old(slots)[j].valid then old(slots)[j].(dirty := false) else old(slots)[j]
        invariant forall j :: i <= j < CACHE_SIZE ==> slots[j] == old(slots)[j]
      {
        if slots[i].valid && slots[i].dirty {
          FlushSlot(i);
        }
        i := i + 1;
      }
    }

    method FlushSlot(i: nat)
      requires Valid() && i < CACHE_SIZE && slots[i].valid
      modifies this`slots, this`disk
      ensures Valid() && |disk| == old(|disk|)
      ensures slots == old(slots)[i := old(slots)[i].(dirty := false)]
    {
      disk := disk[slots[i].sector := slots[i].data];
      slots := slots[i := slots[i].(dirty := false)];
      forall s | 0 <= s < |disk| && disk[s] != flat[s] ensures HeldDirty(slots, s) {
        assert HeldDirty(old(slots), s);
        var j :| 0 <= j < |slots| && old(slots)[j].valid && old(slots)[j].dirty && old(slots)[j].sector == s;
        assert slots[j].sector == s;
      }
    }

    /** Drops a sector without writing it back: what it holds is no longer defined by
        earlier writes, and every other sector is untouched. */
    method Free(sector: nat)
      requires Valid() && sector < |flat|
      modifies this`slots, this`flat
      ensures Valid() && |flat| == old(|flat|) && !Cached(slots, sector)
      ensures forall i :: 0 <= i < CACHE_SIZE && !(old(slots)[i].valid && old(slots)[i].sector == sector) ==> slots[i] == old(slots)[i]
      ensures forall s :: 0 <= s < |flat| && s != sector ==> flat[s] == old(flat)[s]
    {
      var cb := Find(sector);
      if cb >= 0 {
        slots := slots[cb := slots[cb].(valid := false, dirty := false)];
        flat := flat[sector := disk[sector]];
        forall s | 0 <= s < |disk| && disk[s] != flat[s] ensures HeldDirty(slots, s) {
          assert HeldDirty(old(slots), s);
          var j :| 0 <= j < |slots| && old(slots)[j].valid && old(slots)[j].dirty && old(slots)[j].sector == s;
          assert slots[j].sector == s;
        }
      }
    }
  }
}
