/** A growth that fails and does not leave the file as it was. */
module GrowthExample {
  import opened Sectors
  import opened Bitmaps
  import opened FreeMaps
  import opened Cache
  import opened BlockTree
  import opened Inodes
  import opened InodeRollback

  lemma {:induction false} AllClear(bits: seq<bool>)
    requires forall k :: 0 <= k < |bits| ==> !bits[k]
    ensures Zeros(bits) == |bits|
  {
    if bits != [] { AllClear(bits[..|bits| - 1]); }
  }

  /** On a device of twelve sectors a file of eleven takes them all: its data and one
      index block. Asking for one more gets nothing, and the way back drops the index
      block with the data sector behind it, down to the ten direct pointers. */
  method ElevenThenOneMore(device: seq<seq<Byte>>)
    returns (grew: bool, grewMore: bool, ghost before: Snap, ghost after: Snap)
    requires |device| == 12 && AllSectors(device)
    ensures grew && !grewMore
    ensures |before.data| == 11 && |before.idx| == 1
    ensures after.data == before.data[..10] && after.idx == [] && Damaged(before, after)
  {
    var cache := new BufferCache(device);
    var freeMap := new FreeMap(12, false);
    AllClear(freeMap.used.bits);
    var v := new Volume(cache, freeMap);
    var d := new InodeDisk(0, 0, NONE);
    assert v.Holds(d, {});
    ghost var start := v.Now(d);
    hide Tree, Grown, Owns;
    ghost var got;
    grew, got := Grow(v, d, 11);
    assert Cost(0, 11) == 12 && Cost(11, 12) == 1;
    before := v.Now(d);
    SizesAdd(start, before);
    grewMore, got := Grow(v, d, 1);
    after := v.Now(d);
  }

  lemma SizesAdd(s0: Snap, s: Snap)
    requires Grown(s0, s)
    ensures Zeros(s.used) + |s.data| + |s.idx| == Zeros(s0.used) + |s0.data| + |s0.idx|
  {
  }
}
