/** The free map: one bit per file system sector, set while the sector is in use. */
module FreeMaps {
  import opened Bitmaps

  class FreeMap {
    const used: Bitmap

    /** Whether writing the free map back to its file can fail. */
    const mayFail: bool

    constructor (sectors: nat, mayFail: bool)
      ensures |used.bits| == sectors && Run(used.bits, 0, sectors, false)
      ensures this.mayFail == mayFail && fresh(used)
    {
      used := new Bitmap(sectors);
      this.mayFail := mayFail;
    }

    /** Takes the first `cnt` consecutive free sectors. The outcome of the file write
        is arbitrary when it may fail; then the bits are put back. */
    method Allocate(cnt: nat) returns (ok: bool, sector: nat)
      modifies used
      ensures ok ==> && IsFirstRun(old(used.bits), 0, cnt, false, sector)
                     && used.bits == Fill(old(used.bits), sector, cnt, true)
      ensures !ok ==> used.bits == old(used.bits)
      ensures !ok && !mayFail ==> IsFirstRun(old(used.bits), 0, cnt, false, BITMAP_ERROR)
    {
      var idx := used.ScanAndFlip(0, cnt, false);
      var written := !mayFail;
      if mayFail { written := *; }
      if idx != BITMAP_ERROR && !written {
        used.SetMultiple(idx, cnt, false);
        assert used.bits == old(used.bits);
        return false, 0;
      }
      if idx == BITMAP_ERROR { return false, 0; }
      return true, idx;
    }

    /** Gives sectors back; the precondition is the assertion in the code. */
    method Release(sector: nat, cnt: nat)
      requires sector + cnt <= |used.bits| && Run(used.bits, sector, cnt, true)
      modifies used
      ensures used.bits == Fill(old(used.bits), sector, cnt, false)
    {
      used.SetMultiple(sector, cnt, false);
    }
  }

  lemma FillOne(bits: seq<bool>, k: nat, value: bool)
    requires k < |bits|
    ensures Fill(bits, k, 1, value) == bits[k := value]
  {
  }
}
