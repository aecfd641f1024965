/** The swap device: page-sized slots of eight sectors, tracked by a bitmap. */
module Swapping {

  import opened Bitmaps
  import opened Sectors

  const PGSIZE: nat := 4096

  /** Sectors per slot. */
  const SLOT_SIZE: nat := 8

  /** Sectors put end to end. */
  function Joined(sectors: seq<seq<Byte>>): (r: seq<Byte>)
    ensures (forall i :: 0 <= i < |sectors| ==> |sectors[i]| == SECTOR_SIZE) ==> |r| == SECTOR_SIZE * |sectors|
  {
    if sectors == [] then [] else Joined(sectors[..|sectors| - 1]) + sectors[|sectors| - 1]
  }

  /** The bytes of one slot. */
  ghost function Slot(sectors: seq<seq<Byte>>, slot: nat): (r: seq<Byte>)
    requires SLOT_SIZE * (slot + 1) <= |sectors|
  {
    Joined(sectors[SLOT_SIZE * slot..SLOT_SIZE * (slot + 1)])
  }

  /** One more sector of `page` is in its slot. */
  lemma SectorStored(sectors: seq<seq<Byte>>, page: seq<Byte>, first: nat, i: nat)
    requires first + i < |sectors| && SECTOR_SIZE * (i + 1) <= |page|
    requires page[..SECTOR_SIZE * i] == Joined(sectors[first..first + i])
    ensures var r := sectors[first + i := page[SECTOR_SIZE * i..SECTOR_SIZE * (i + 1)]];
            page[..SECTOR_SIZE * (i + 1)] == Joined(r[first..first + i + 1])
  {
    var r := sectors[first + i := page[SECTOR_SIZE * i..SECTOR_SIZE * (i + 1)]];
    assert r[first..first + i + 1][..i] == sectors[first..first + i];
  }

  lemma OtherSlot(before: seq<seq<Byte>>, sectors: seq<seq<Byte>>, slot: nat, k: nat)
    requires |sectors| == |before| && SLOT_SIZE * (k + 1) <= |sectors| && k != slot
    requires forall j :: 0 <= j < |sectors| && !(SLOT_SIZE * slot <= j < SLOT_SIZE * (slot + 1)) ==> sectors[j] == before[j]
    ensures Slot(sectors, k) == Slot(before, k)
  {
    assert sectors[SLOT_SIZE * k..SLOT_SIZE * (k + 1)] == before[SLOT_SIZE * k..SLOT_SIZE * (k + 1)];
  }

  class SwapDevice {
    const used: Bitmap
    var sectors: seq<seq<Byte>>

    ghost predicate Valid()
      reads this, used
    {
      && SLOT_SIZE * |used.bits| <= |sectors|
      && forall i :: 0 <= i < |sectors| ==> |sectors[i]| == SECTOR_SIZE
    }

    constructor (sectors: seq<seq<Byte>>)
      requires forall i :: 0 <= i < |sectors| ==> |sectors[i]| == SECTOR_SIZE
      ensures Valid() && fresh(used) && this.sectors == sectors
      ensures |used.bits| == |sectors| / SLOT_SIZE && Run(used.bits, 0, |used.bits|, false)
    {
      used := new Bitmap(|sectors| / SLOT_SIZE);
      this.sectors := sectors;
    }

    method WriteSlot(slot: nat, page: seq<Byte>)
      requires Valid() && |page| == PGSIZE && slot < |used.bits|
      modifies this`sectors
      ensures Valid() && |sectors| == old(|sectors|) && Slot(sectors, slot) == page
      ensures forall k :: 0 <= k < |used.bits| && k != slot ==> Slot(sectors, k) == old(Slot(sectors, k))
    {
      var i, first := 0, SLOT_SIZE * slot;
      assert page[..0] == Joined(sectors[first..first]);
      hide Joined;
      while i < SLOT_SIZE
        invariant i <= SLOT_SIZE && |sectors| == old(|sectors|)
        invariant forall k :: 0 <= k < |sectors| ==> |sectors[k]| == SECTOR_SIZE
        invariant forall k :: 0 <= k < |sectors| && !(first <= k < first + i) ==> sectors[k] == old(sectors)[k]
        invariant page[..SECTOR_SIZE * i] == Joined(sectors[first..first + i])
      {
        SectorStored(sectors, page, first, i);
        sectors := sectors[first + i := page[SECTOR_SIZE * i..SECTOR_SIZE * (i + 1)]];
        i := i + 1;
      }
      assert page[..SECTOR_SIZE * i] == page;
      forall k | 0 <= k < |used.bits| && k != slot ensures Slot(sectors, k) == old(Slot(sectors, k)) {
        OtherSlot(old(sectors), sectors, slot, k);
      }
    }

    method SwapOut(page: seq<Byte>) returns (slot: int)
      requires Valid() && |page| == PGSIZE
      modifies this`sectors, used
      ensures Valid() && |sectors| == old(|sectors|)
      ensures slot == BITMAP_ERROR ==> sectors == old(sectors) && used.bits == old(used.bits) && Run(used.bits, 0, |used.bits|, true)
      ensures slot != BITMAP_ERROR ==>
                && 0 <= slot < old(|used.bits|) && !old(used.bits)[slot] && used.bits == old(used.bits)[slot := true]
                && Slot(sectors, slot) == page
                && forall k :: 0 <= k < |used.bits| && k != slot ==> Slot(sectors, k) == old(Slot(sectors, k))
    {
      hide Joined;
      slot := used.ScanAndFlip(0, 1, false);
      if slot == BITMAP_ERROR {
        forall k | 0 <= k < |used.bits| ensures used.bits[k] {
          assert !Run(used.bits, k, 1, false);
        }
        return;
      }
      assert used.bits == old(used.bits)[slot := true];
      WriteSlot(slot, page);
    }

    /** The code also tests the bit of a slot number out of range, which its bitmap
        refuses; so the number must be in range. */
    method SwapIn(slot: nat) returns (ok: bool, page: seq<Byte>)
      requires Valid() && slot < |used.bits|
      modifies used
      ensures Valid() && sectors == old(sectors)
      ensures ok <==> old(used.bits)[slot]
      ensures ok ==> page == Slot(sectors, slot) && |page| == PGSIZE && used.bits == old(used.bits)[slot := false]
      ensures !ok ==> used.bits == old(used.bits)
    {
      page := [];
      ok := used.bits[slot];
      if !ok { return; }
      var i := 0;
      while i < SLOT_SIZE
        invariant i <= SLOT_SIZE && used.bits == old(used.bits)
        invariant page == Joined(sectors[SLOT_SIZE * slot..SLOT_SIZE * slot + i])
      {
        assert sectors[SLOT_SIZE * slot..SLOT_SIZE * slot + i + 1][..i] == sectors[SLOT_SIZE * slot..SLOT_SIZE * slot + i];
        page := page + sectors[SLOT_SIZE * slot + i];
        i := i + 1;
      }
      used.SetMultiple(slot, 1, false);
      assert used.bits == old(used.bits)[slot := false];
    }
  }
}
