/** malloc and free. Addresses count from the base of the kernel pool. */
module Allocator {

  import opened Arenas
  import opened Arithmetic
  import opened Bitmaps
  import opened Bits
  import opened Options
  import opened Sequences

  const TWO32: nat := 0x1_0000_0000

  /** A size_t. */
  type Size = n: nat | n < TWO32

  /** The pages for a big block; the sum that is rounded up is a 32-bit one. */
  function PageCount(size: Size): (r: nat) {
    (size + HEADER + PGSIZE - 1) % TWO32 / PGSIZE
  }

  /** The pages hold the request exactly when it is not within eleven bytes of the end
      of the range; if the sum wraps any earlier the count is zero. */
  lemma PageCountFits(size: Size)
    requires PageCount(size) > 0
    ensures size + HEADER <= PGSIZE * PageCount(size) <==> size <= TWO32 - HEADER
  {
  }

  /** A request that the pages do not hold. */
  lemma PageCountWraps()
    ensures PageCount(0xFFFF_FFFF) == 1
  {
  }

  lemma BlockSizes()
    ensures BlockSize(0) == 16 && BlockSize(1) == 32 && BlockSize(2) == 64 && BlockSize(3) == 128
    ensures BlockSize(4) == 256 && BlockSize(5) == 512 && BlockSize(6) == 1024 && BlockSize(7) == 2048
    ensures PerArena(0) == 255 && PerArena(1) == 127 && PerArena(2) == 63 && PerArena(3) == 31
    ensures PerArena(4) == 15 && PerArena(5) == 7 && PerArena(6) == 3
  {
    assert Pow2(1) == 2 && Pow2(2) == 4 && Pow2(3) == 8 && Pow2(4) == 16;
    assert Pow2(5) == 32 && Pow2(6) == 64 && Pow2(7) == 128;
  }

  lemma PerPositive(d: nat)
    requires d < DESCS
    ensures PerArena(d) > 0 && BlockSize(d) <= 1024
  {
    BlockSizes();
  }

  lemma {:induction false} SizesGrow(d: nat, e: nat)
    requires d <= e
    ensures BlockSize(d) <= BlockSize(e)
  {
    if d < e { SizesGrow(d, e - 1); }
  }

  /** malloc_init: the table of block sizes and of blocks per arena. */
  method InitDescs() returns (sizes: seq<nat>, per: seq<nat>)
    ensures |sizes| == |per| == DESCS
    ensures forall i :: 0 <= i < DESCS ==> sizes[i] == BlockSize(i) && per[i] == PerArena(i)
  {
    sizes, per := [], [];
    var blockSize := 16;
    BlockSizes();
    while blockSize < PGSIZE / 2
      invariant |sizes| == |per| <= DESCS && blockSize == BlockSize(|sizes|)
      invariant forall i :: 0 <= i < |sizes| ==> sizes[i] == BlockSize(i) && per[i] == PerArena(i)
      decreases PGSIZE - blockSize
    {
      if |sizes| == DESCS { assert false; }
      sizes, per := sizes + [blockSize], per + [(PGSIZE - HEADER) / blockSize];
      blockSize := blockSize * 2;
    }
    if |sizes| < DESCS { SizesGrow(|sizes|, 6); }
  }

  /** The smallest descriptor that is large enough, or DESCS. */
  method FindDesc(size: nat) returns (d: nat)
    ensures d <= DESCS && (d < DESCS ==> BlockSize(d) >= size)
    ensures forall e :: 0 <= e < d ==> BlockSize(e) < size
  {
    d := 0;
    while d < DESCS && BlockSize(d) < size
      invariant d <= DESCS
      invariant forall e :: 0 <= e < d ==> BlockSize(e) < size
    {
      d := d + 1;
    }
  }

  lemma SmallAddress(page: nat, d: nat, idx: nat)
    requires idx < PerArena(d)
    ensures var a := PGSIZE * page + HEADER + idx * BlockSize(d);
            a / PGSIZE == page && a % PGSIZE == HEADER + idx * BlockSize(d) && (a % PGSIZE - HEADER) / BlockSize(d) == idx
  {
    BlockFits(d, idx);
    hide BlockSize, PerArena;
    DivUnique(PGSIZE * page + HEADER + idx * BlockSize(d), PGSIZE, page, HEADER + idx * BlockSize(d));
    DivUnique(idx * BlockSize(d), BlockSize(d), idx, 0);
  }

  /** An address tells the page and, with the block size, the block. */
  lemma AddressSplit(m: Mem, b: Block)
    requires Ok(m) && b in m.live
    ensures b.page in m.arenas && Address(m, b) / PGSIZE == b.page && Address(m, b) % PGSIZE >= HEADER
    ensures match m.arenas[b.page].desc
            case Some(d) => d < DESCS && (Address(m, b) % PGSIZE - HEADER) / BlockSize(d) == b.idx
            case None => b.idx == 0
  {
    hide Ok, BlockSize, PerArena;
    LiveAt(m, b);
    var a := m.arenas[b.page];
    if a.desc.Some? {
      SmallAddress(b.page, a.desc.value, b.idx);
    } else {
      DivUnique(PGSIZE * b.page + HEADER, PGSIZE, b.page, HEADER);
    }
  }

  /** The smallest size that is large enough. */
  ghost predicate Serves(d: nat, size: nat) {
    d < DESCS && size <= BlockSize(d) && forall e :: 0 <= e < d ==> BlockSize(e) < size
  }

  /** The first page of the pool that is free. */
  ghost predicate FirstFree(bits: seq<bool>, p: nat) {
    p < |bits| && !bits[p] && forall k :: 0 <= k < p ==> bits[k]
  }

  lemma FirstRunIsFree(bits: seq<bool>, p: nat)
    requires p < |bits| && IsFirstRun(bits, 0, 1, false, p)
    ensures FirstFree(bits, p)
  {
    forall k | 0 <= k < p ensures bits[k] {
      assert !Run(bits, k, 1, false);
    }
  }

  lemma FreePage(bits: seq<bool>, p: nat)
    requires FirstFree(bits, p)
    ensures p < |bits| && !bits[p]
  {
  }

  /** Nothing happened if there was a block; otherwise the first free page was cut up. */
  ghost predicate Refilled(m: Mem, r: Mem, d: nat)
    requires d < |m.lists|
  {
    if m.lists[d] != [] then r == m
    else exists p :: FirstFree(m.bits, p) && r == Grow(m, p, d)
  }

  /** Block `b` of size `d` is the first of its free list, and no page was taken for it; or
      the list was empty, `b` is the first block of the first free page, and the others of
      that page are on the list, in order. */
  ghost predicate FromList(m: Mem, r: Mem, d: nat, b: Block) {
    && d < |m.lists| == |r.lists| && (forall e :: 0 <= e < |m.lists| && e != d ==> r.lists[e] == m.lists[e])
    && if m.lists[d] != []
       then b == m.lists[d][0] && r.lists[d] == m.lists[d][1..] && r.bits == m.bits && r.arenas.Keys == m.arenas.Keys
       else exists p :: FirstFree(m.bits, p) && FromPage(m, r, d, b, p)
  }

  ghost predicate FromPage(m: Mem, r: Mem, d: nat, b: Block, p: nat)
    requires d < |r.lists| && p < |m.bits|
  {
    && b == Block(p, 0) && r.bits == m.bits[p := true] && r.arenas.Keys == m.arenas.Keys + {p} && r.arenas[p].desc == Some(d)
    && |r.lists[d]| == PerArena(d) - 1 && forall i :: 0 <= i < |r.lists[d]| ==> r.lists[d][i] == Block(p, i + 1)
  }

  lemma {:induction false} CutAt(p: nat, n: nat, i: nat)
    requires i < n
    ensures Cut(p, n)[i] == Block(p, i)
  {
    if i < n - 1 { CutAt(p, n - 1, i); }
  }

  lemma CutRest(p: nat, n: nat)
    requires n > 0
    ensures Cut(p, n)[0] == Block(p, 0) && |Cut(p, n)[1..]| == n - 1
    ensures forall i :: 0 <= i < n - 1 ==> Cut(p, n)[1..][i] == Block(p, i + 1)
  {
    CutAt(p, n, 0);
    hide Cut;
    forall i | 0 <= i < n - 1 ensures Cut(p, n)[1..][i] == Block(p, i + 1) { CutAt(p, n, i + 1); }
  }

  lemma TakenFromPage(m: Mem, d: nat, p: nat)
    requires d < |m.lists| && m.lists[d] == [] && p < |m.bits| && PerArena(d) > 0
    ensures var m1 := Grow(m, p, d);
            && m1.lists[d] != [] && m1.lists[d][0] == Block(p, 0) && p in m1.arenas && m1.arenas[p].freeCnt > 0
            && FromPage(m, Take(m1, d), d, Block(p, 0), p)
  {
    var m1, n := Grow(m, p, d), PerArena(d);
    assert m1.lists[d] == Cut(p, n) by { assert [] + Cut(p, n) == Cut(p, n); }
    CutRest(p, n);
    hide PerArena, Cut;
    var r := Take(m1, d);
    assert r.lists[d] == Cut(p, n)[1..];
  }

  lemma TakenFrom(m: Mem, m1: Mem, d: nat)
    requires d < |m.lists| && d < |m1.lists| && Refilled(m, m1, d)
    requires m1.lists[d] != [] && m1.lists[d][0].page in m1.arenas && m1.arenas[m1.lists[d][0].page].freeCnt > 0
    ensures FromList(m, Take(m1, d), d, m1.lists[d][0])
  {
    if m.lists[d] == [] {
      var p :| FirstFree(m.bits, p) && m1 == Grow(m, p, d);
      hide PerArena, FirstFree, FromPage;
      FreePage(m.bits, p);
      TakenFromPage(m, d, p);
    }
  }

  /** The blocks that are not in page `p`, in order. */
  ghost function Others(q: seq<Block>, p: nat): (r: seq<Block>) {
    if q == [] then [] else (if q[0].page == p then [] else [q[0]]) + Others(q[1..], p)
  }

  /** The free lists after block `b` was freed: a big block was on none; a small one goes to
      the front of its list, unless its page is given back with all its blocks. */
  ghost predicate Listed(lists: seq<seq<Block>>, lists': seq<seq<Block>>, desc: Option<nat>, b: Block, others: bool) {
    match desc
    case None => lists' == lists
    case Some(d) => d < |lists| && lists' == lists[d := if others then [b] + lists[d] else Others(lists[d], b.page)]
  }

  lemma OthersFront(b: Block, q: seq<Block>)
    ensures Others([b] + q, b.page) == Others(q, b.page)
  {
    assert ([b] + q)[1..] == q;
  }

  lemma {:induction false} OthersRemove(q: seq<Block>, b: Block)
    ensures Others(Remove(q, b), b.page) == Others(q, b.page)
  {
    if q != [] && q[0] != b { OthersRemove(q[1..], b); }
  }

  lemma {:induction false} OthersAll(q: seq<Block>, p: nat)
    requires forall b :: b in q ==> b.page != p
    ensures Others(q, p) == q
  {
    if q != [] {
      assert forall b :: b in q[1..] ==> b in q;
      OthersAll(q[1..], p);
    }
  }

  /** Block `b` is the first run of `n` free pages, which are taken. */
  ghost predicate FromPages(m: Mem, r: Mem, n: int, b: Block) {
    && n > 0 && b.idx == 0 && b.page + n <= |m.bits| == |r.bits| && IsFirstRun(m.bits, 0, n, false, b.page)
    && (forall k :: 0 <= k < |m.bits| ==> r.bits[k] == (m.bits[k] || b.page <= k < b.page + n))
    && r.arenas == m.arenas[b.page := Arena(None, n)]
  }

  class Heap {
    const pool: Bitmap
    var arenas: map<nat, Arena>
    var lists: seq<seq<Block>>
    ghost var live: set<Block>

    ghost function Now(): Mem
      reads this, pool
    {
      Mem(arenas, lists, live, pool.bits)
    }

    ghost predicate Valid()
      reads this, pool
    {
      Ok(Now()) && Busy(Now())
    }

    constructor (pool: Bitmap)
      ensures Valid() && live == {} && this.pool == pool
    {
      this.pool := pool;
      arenas, lists, live := map[], seq(DESCS, _ => []), {};
    }

    /** palloc_get_multiple on the kernel pool. */
    method GetPages(n: nat) returns (p: int)
      modifies pool
      ensures p == BITMAP_ERROR ==> pool.bits == old(pool.bits)
      ensures p == BITMAP_ERROR ==> n == 0 || forall i :: 0 <= i <= |pool.bits| - n ==> !Run(pool.bits, i, n, false)
      ensures p != BITMAP_ERROR ==>
                && n > 0 && 0 <= p && p + n <= |old(pool.bits)| == |pool.bits|
                && IsFirstRun(old(pool.bits), 0, n, false, p)
                && (forall k :: p <= k < p + n ==> !old(pool.bits)[k])
                && (forall k :: 0 <= k < |pool.bits| ==> pool.bits[k] == (old(pool.bits)[k] || p <= k < p + n))
    {
      if n == 0 { return BITMAP_ERROR; }
      p := pool.ScanAndFlip(0, n, false);
    }

    /** A new arena for descriptor `d`, its blocks at the end of the free list. */
    method NewArena(d: nat) returns (ok: bool)
      requires Ok(Now()) && d < DESCS
      modifies this`arenas, this`lists, pool
      ensures !ok ==> Now() == old(Now()) && forall k :: 0 <= k < |pool.bits| ==> pool.bits[k]
      ensures ok ==> exists p :: FirstFree(old(pool.bits), p) && Now() == Grow(old(Now()), p, d)
    {
      assert |lists| == DESCS;
      hide Ok, PerArena;
      var p := GetPages(1);
      ok := p != BITMAP_ERROR;
      if !ok {
        forall k | 0 <= k < |pool.bits| ensures pool.bits[k] {
          assert !Run(pool.bits, k, 1, false);
        }
        return;
      }
      assert pool.bits == old(pool.bits)[p := true];
      FirstRunIsFree(old(pool.bits), p);
      arenas := arenas[p := Arena(Some(d), PerArena(d))];
      var i, list := 0, lists[d];
      while i < PerArena(d)
        invariant i <= PerArena(d)
        invariant list == lists[d] + Cut(p, i)
      {
        list := list + [Block(p, i)];
        i := i + 1;
      }
      lists := lists[d := list];
      assert FirstFree(old(pool.bits), p) && Now() == Grow(old(Now()), p, d);
    }

    /** Makes sure that the free list for size `d` is not empty. */
    method Refill(d: nat) returns (ok: bool)
      requires Valid() && d < DESCS
      modifies this`arenas, this`lists, pool
      ensures !ok ==> Now() == old(Now()) && |lists| == DESCS && lists[d] == [] && forall k :: 0 <= k < |pool.bits| ==> pool.bits[k]
      ensures ok ==> Ok(Now()) && lists[d] != [] && Ready(Now(), d) && live == old(live) && Steady(old(Now()), Now(), live)
      ensures ok ==> Refilled(old(Now()), Now(), d)
    {
      assert |lists| == DESCS;
      hide Ok, PerArena, BlockSize, Steady, FirstFree;
      ok := true;
      if lists[d] != [] {
        SteadySelf(Now(), live);
        BusyReady(Now(), d);
        return;
      }
      ok := NewArena(d);
      if !ok { return; }
      ghost var p :| FirstFree(old(pool.bits), p) && Now() == Grow(old(Now()), p, d);
      FreePage(old(pool.bits), p);
      GrowKeeps(old(Now()), p, d);
      GrowReady(old(Now()), p, d);
      GrowSteady(old(Now()), p, d);
    }

    /** Pops the first free block of size `d`. */
    method TakeFirst(d: nat) returns (addr: nat, ghost b: Block)
      requires d < |lists| && lists[d] != [] && lists[d][0].page in arenas && arenas[lists[d][0].page].freeCnt > 0
      modifies this`arenas, this`lists, this`live
      ensures Now() == Take(old(Now()), d) && b == old(lists)[d][0]
      ensures addr == PGSIZE * b.page + HEADER + b.idx * BlockSize(d)
    {
      hide BlockSize;
      var front := lists[d][0];
      b := front;
      arenas := Counted(arenas, front.page, arenas[front.page].freeCnt - 1);
      lists := lists[d := lists[d][1..]];
      live := live + {b};
      addr := PGSIZE * front.page + HEADER + front.idx * BlockSize(d);
    }

    /** A block of size `d`, from the free list or a new arena. */
    method Small(d: nat) returns (addr: Option<nat>, ghost b: Block)
      requires Valid() && d < DESCS
      modifies this, pool
      ensures Valid()
      ensures addr.None? ==> Now() == old(Now()) && |lists| == DESCS && lists[d] == [] && forall k :: 0 <= k < |pool.bits| ==> pool.bits[k]
      ensures addr.Some? ==> Added(old(Now()), Now(), b, addr.value) && Length(Now(), b) == BlockSize(d)
      ensures addr.Some? ==> FromList(old(Now()), Now(), d, b)
    {
      hide Ok, Busy, Ready, PerArena, BlockSize, Steady, Added, Take, FreeIn, Distinct, Refilled, FromList, Length;
      ListCount(Now());
      b := Block(0, 0);
      var ok := Refill(d);
      if !ok { return None, b; }
      ListCount(Now());
      Popped(old(Now()), Now(), d, lists[d][0]);
      var at;
      at, b := TakeFirst(d);
      addr := Some(at);
    }

    /** Whole pages for a request that no descriptor can serve. */
    method Big(size: Size) returns (addr: Option<nat>, ghost b: Block)
      requires Valid()
      modifies this`arenas, this`live, pool
      ensures Valid()
      ensures addr.None? ==> Now() == old(Now())
      ensures addr.None? ==>
                PageCount(size) == 0 || forall i :: 0 <= i <= |pool.bits| - PageCount(size) ==> !Run(pool.bits, i, PageCount(size), false)
      ensures addr.Some? ==> FromPages(old(Now()), Now(), PageCount(size), b) && lists == old(lists)
      ensures addr.Some? ==> Added(old(Now()), Now(), b, addr.value)
                             && Length(Now(), b) == PGSIZE * PageCount(size) - HEADER && PageCount(size) > 0
    {
      hide Ok, Busy, PerArena, BlockSize, Steady, PageCount;
      b := Block(0, 0);
      var n := PageCount(size);
      var p := GetPages(n);
      if p == BITMAP_ERROR { return None, b; }
      ghost var m := old(Now());
      GrowBigKeeps(m, p, n, pool.bits);
      NotLive(m, Block(p, 0));
      GrowBigRest(m, p, n, pool.bits);
      b := Block(p, 0);
      arenas := arenas[p := Arena(None, n)];
      live := live + {b};
      assert Now() == GrowBig(m, p, n, pool.bits);
      addr := Some(PGSIZE * p + HEADER);
    }

    /** malloc. A block, if there is one, is new, and it is large enough exactly when
        the request stays clear of the end of the 32-bit range. */
    method Malloc(size: Size) returns (addr: Option<nat>, ghost b: Block)
      requires Valid()
      modifies this, pool
      ensures Valid()
      ensures addr.None? ==> Now() == old(Now())
      ensures size == 0 ==> addr.None?
      ensures 0 < size <= 1024 && addr.None? ==>
                exists d: nat :: Serves(d, size) && d < |lists| && lists[d] == [] && forall k :: 0 <= k < |pool.bits| ==> pool.bits[k]
      ensures 0 < size <= 1024 && addr.Some? ==> exists d: nat :: Serves(d, size) && FromList(old(Now()), Now(), d, b)
      ensures size > 1024 && addr.Some? ==> FromPages(old(Now()), Now(), PageCount(size), b) && lists == old(lists)
      ensures size > 1024 && addr.None? ==>
                PageCount(size) == 0 || forall i :: 0 <= i <= |pool.bits| - PageCount(size) ==> !Run(pool.bits, i, PageCount(size), false)
      ensures addr.Some? ==> Added(old(Now()), Now(), b, addr.value)
      ensures addr.Some? ==> (Length(Now(), b) >= size <==> size <= TWO32 - HEADER)
      ensures addr.Some? && size > 1024 ==> Length(Now(), b) == PGSIZE * PageCount(size) - HEADER
      ensures addr.Some? && size <= 1024 ==> Length(Now(), b) < 32 || Length(Now(), b) < 2 * size
    {
      hide Ok, Busy, PerArena, BlockSize, Steady, PageCount, Address, FromList, FromPages;
      b := Block(0, 0);
      if size == 0 { return None, b; }
      var d := FindDesc(size);
      BlockSizes();
      if d == DESCS {
        assert BlockSize(6) < size;
        addr, b := Big(size);
        if addr.Some? { PageCountFits(size); }
      } else {
        PerPositive(d);
        assert Serves(d, size);
        addr, b := Small(d);
      }
    }

    /** Takes the blocks of an idle arena off their free list. */
    method Unlist(p: nat, d: nat)
      requires |lists| == DESCS && d < DESCS && Distinct(lists[d])
      requires forall i :: 0 <= i < PerArena(d) ==> Block(p, i) in lists[d]
      requires forall b :: b in lists[d] && b.page == p ==> b.idx < PerArena(d)
      modifies this`lists
      ensures |lists| == DESCS && lists == old(lists)[d := lists[d]] && Distinct(lists[d])
      ensures lists[d] == Others(old(lists)[d], p)
      ensures forall b :: b in lists[d] <==> b in old(lists)[d] && !(b.page == p && b.idx < PerArena(d))
    {
      hide PerArena;
      var list, i := lists[d], 0;
      while i < PerArena(d)
        invariant i <= PerArena(d) && Distinct(list) && lists == old(lists) && Others(list, p) == Others(lists[d], p)
        invariant forall b :: b in list <==> b in lists[d] && !(b.page == p && b.idx < i)
      {
        assert Block(p, i) in list;
        RemoveDistinct(list, Block(p, i));
        OthersRemove(list, Block(p, i));
        list := Remove(list, Block(p, i));
        i := i + 1;
      }
      OthersAll(list, p);
      lists := lists[d := list];
    }

    /** An idle arena goes back to the page allocator. */
    method DropArena(p: nat, d: nat)
      requires Ok(Now()) && d < DESCS && p in arenas && arenas[p].desc == Some(d) && arenas[p].freeCnt >= PerArena(d)
      modifies this`arenas, this`lists, pool
      ensures Ok(Now()) && live == old(live) && arenas == old(arenas) - {p}
      ensures d < |old(lists)| && lists == old(lists)[d := Others(old(lists)[d], p)]
      ensures p < |old(pool.bits)| && pool.bits == old(pool.bits)[p := false]
    {
      ghost var m := Now();
      AllFree(m, p, d);
      DropFacts(m, p, d);
      hide Ok, PerArena, Distinct;
      Unlist(p, d);
      pool.SetMultiple(p, 1, false);
      assert pool.bits == m.bits[p := false];
      arenas := arenas - {p};
      assert Dropped(m, Now(), p, d);
      DropKeeps(m, Now(), p, d);
    }

    /** A small block goes back to its free list, and an arena that it leaves idle
        goes back to the pool. */
    method FreeSmall(b: Block, d: nat)
      requires Valid() && b in live && b.page in arenas && arenas[b.page].desc == Some(d)
      modifies this, pool
      ensures Valid() && live == old(live) - {b} && Steady(old(Now()), Now(), live)
      ensures Listed(old(lists), lists, Some(d), b, exists c :: c in live && c.page == b.page)
      ensures if exists c :: c in live && c.page == b.page then b.page in arenas && pool.bits == old(pool.bits)
              else b.page !in arenas && b.page < |old(pool.bits)| && pool.bits == old(pool.bits)[b.page := false]
    {
      hide Ok, Busy, PerArena, BlockSize, Steady;
      ghost var m := Now();
      ListCount(m);
      GiveKeeps(m, b, d);
      GiveRest(m, b, d);
      arenas := Counted(arenas, b.page, arenas[b.page].freeCnt + 1);
      lists := lists[d := [b] + lists[d]];
      live := live - {b};
      ghost var r := Give(m, b, d);
      assert Now() == r;
      IdleIff(r, b.page, d);
      if arenas[b.page].freeCnt >= PerArena(d) {
        DropArena(b.page, d);
        DropRest(m, r, Now(), b.page);
        OthersFront(b, m.lists[d]);
        assert lists == m.lists[d := Others(m.lists[d], b.page)];
      } else {
        NoDropRest(m, r, b.page);
      }
    }

    /** free. The address is that of a live block, or null. */
    method Free(addr: Option<nat>, ghost b: Block)
      requires Valid() && (addr.Some? ==> b in live && b.page in arenas && Address(Now(), b) == addr.value)
      modifies this, pool
      ensures Valid() && (addr.None? ==> Now() == old(Now()))
      ensures addr.Some? ==> live == old(live) - {b} && Steady(old(Now()), Now(), live)
      ensures addr.Some? ==>
                if exists c :: c in live && c.page == b.page then b.page in arenas && pool.bits == old(pool.bits)
                else b.page !in arenas && forall k :: 0 <= k < |old(pool.bits)| == |pool.bits| ==>
                  pool.bits[k] == (old(pool.bits)[k] && !(b.page <= k < b.page + Span(old(arenas)[b.page])))
      ensures addr.Some? ==> Listed(old(lists), lists, old(arenas)[b.page].desc, b, exists c :: c in live && c.page == b.page)
    {
      hide Ok, Busy, PerArena, BlockSize, Steady;
      if addr.None? { return; }
      AddressSplit(Now(), b);
      var p := addr.value / PGSIZE;
      match arenas[p].desc
      case Some(d) =>
        FreeSmall(Block(p, (addr.value % PGSIZE - HEADER) / BlockSize(d)), d);
      case None =>
        FreeBig(p);
    }

    method FreeBig(p: nat)
      requires Valid() && p in arenas && arenas[p].desc.None?
      modifies this, pool
      ensures Valid() && live == old(live) - {Block(p, 0)} && Steady(old(Now()), Now(), live)
      ensures p !in arenas && (forall c :: c in live ==> c.page != p) && |pool.bits| == |old(pool.bits)| && lists == old(lists)
      ensures forall k :: 0 <= k < |pool.bits| ==>
                pool.bits[k] == (old(pool.bits)[k] && !(p <= k < p + Span(old(arenas)[p])))
    {
      hide Ok, Busy, PerArena, BlockSize, Steady;
      ghost var m := Now();
      BigFacts(m, p);
      pool.SetMultiple(p, arenas[p].freeCnt, false);
      DropBigKeeps(m, p, pool.bits);
      DropBigRest(m, p, pool.bits);
      arenas := arenas - {p};
      live := live - {Block(p, 0)};
      assert Now() == DropBig(m, p, pool.bits);
    }
  }

  lemma DropFacts(m: Mem, p: nat, d: nat)
    requires Ok(m) && d < DESCS && p in m.arenas && m.arenas[p].desc == Some(d)
    ensures |m.lists| == DESCS && Distinct(m.lists[d]) && p < |m.bits|
    ensures forall b :: b in m.lists[d] && b.page == p ==> b.idx < PerArena(d)
  {
    hide PerArena;
  }

  lemma GiveRest(m: Mem, b: Block, d: nat)
    requires Ok(m) && Busy(m) && b.page in m.arenas && m.arenas[b.page].desc == Some(d) && d < |m.lists|
    ensures var r := Give(m, b, d);
            && Steady(m, r, r.live)
            && forall p :: p in r.arenas && r.arenas[p].desc.Some? && p != b.page ==> r.arenas[p].freeCnt < PerArena(r.arenas[p].desc.value)
  {
    hide Ok, PerArena, BlockSize;
    var r := Give(m, b, d);
    assert forall p :: p in m.arenas ==> p in r.arenas && r.arenas[p].desc == m.arenas[p].desc;
  }

  lemma NoDropRest(m: Mem, r: Mem, p: nat)
    requires p in r.arenas && r.arenas[p].desc.Some? && r.arenas[p].freeCnt < PerArena(r.arenas[p].desc.value)
    requires forall q :: q in r.arenas && r.arenas[q].desc.Some? && q != p ==> r.arenas[q].freeCnt < PerArena(r.arenas[q].desc.value)
    ensures Busy(r)
  {
  }

  lemma DropRest(m: Mem, r: Mem, s: Mem, p: nat)
    requires Steady(m, r, r.live) && s.live == r.live && s.arenas == r.arenas - {p} && forall b :: b in r.live ==> b.page != p
    requires forall q :: q in r.arenas && r.arenas[q].desc.Some? && q != p ==> r.arenas[q].freeCnt < PerArena(r.arenas[q].desc.value)
    ensures Busy(s) && Steady(m, s, s.live)
  {
    hide PerArena, BlockSize;
  }

  lemma BigFacts(m: Mem, p: nat)
    requires Ok(m) && p in m.arenas && m.arenas[p].desc.None?
    ensures p + m.arenas[p].freeCnt <= |m.bits| && forall c :: c in m.live && c.page == p ==> c == Block(p, 0)
  {
    hide PerArena;
  }

  lemma DropBigRest(m: Mem, p: nat, bits: seq<bool>)
    requires Busy(m) && forall c :: c in m.live && c.page == p ==> c == Block(p, 0)
    ensures var r := DropBig(m, p, bits); Busy(r) && Steady(m, r, r.live)
  {
    hide PerArena, BlockSize;
  }

  lemma NotLive(m: Mem, b: Block)
    requires Ok(m) && b.page !in m.arenas
    ensures b !in m.live
  {
  }

  lemma GrowBigRest(m: Mem, p: nat, n: nat, bits: seq<bool>)
    requires Busy(m) && p !in m.arenas && Block(p, 0) !in m.live
    ensures var r := GrowBig(m, p, n, bits); Busy(r) && Steady(m, r, m.live)
  {
    hide PerArena, BlockSize;
  }

  lemma TakeAdded(start: Mem, m: Mem, d: nat)
    requires d < |m.lists| && m.lists[d] != [] && m.live == start.live && Steady(start, m, m.live)
    requires var b := m.lists[d][0]; b.page in m.arenas && m.arenas[b.page].freeCnt > 0 && m.arenas[b.page].desc == Some(d) && b !in m.live
    ensures var b := m.lists[d][0]; var r := Take(m, d);
            Added(start, r, b, PGSIZE * b.page + HEADER + b.idx * BlockSize(d)) && Length(r, b) == BlockSize(d)
  {
    hide PerArena, BlockSize, Steady;
    TakeSteady(start, m, d);
  }

  /** `r` is `start` after a block `b` of size `d` was taken. */
  ghost predicate GivesBlock(start: Mem, r: Mem, d: nat, b: Block) {
    && FromList(start, r, d, b) && b.page in r.arenas && Length(r, b) == BlockSize(d)
    && Added(start, r, b, PGSIZE * b.page + HEADER + b.idx * BlockSize(d))
  }

  lemma Popped(start: Mem, m: Mem, d: nat, b: Block)
    requires Ok(m) && d < DESCS && d < |start.lists| && d < |m.lists| && m.lists[d] != [] && b == m.lists[d][0] && Ready(m, d)
    requires m.live == start.live && Steady(start, m, m.live) && Refilled(start, m, d)
    ensures b.page in m.arenas && m.arenas[b.page].freeCnt > 0
    ensures Ok(Take(m, d)) && Busy(Take(m, d)) && GivesBlock(start, Take(m, d), d, b)
  {
    hide Ok, Busy, Ready, PerArena, BlockSize, Steady, Take, FreeIn, Distinct, Refilled, FromList, Address, Length;
    ListCount(m);
    TakeKeeps(m, d);
    TakeFacts(m, d);
    ReadyTake(m, d);
    TakeAdded(start, m, d);
    TakenFrom(start, m, d);
  }

  lemma ListCount(m: Mem)
    requires Ok(m)
    ensures |m.lists| == DESCS
  {
  }

  /** Every arena is busy, except that the first free block of size `d` may be in a
      new one. */
  ghost predicate Ready(m: Mem, d: nat)
    requires d < |m.lists| && m.lists[d] != []
  {
    forall p :: p in m.arenas && m.arenas[p].desc.Some? ==>
      m.arenas[p].freeCnt < PerArena(m.arenas[p].desc.value) + if p == m.lists[d][0].page then 1 else 0
  }

  lemma BusyReady(m: Mem, d: nat)
    requires Busy(m) && d < |m.lists| && m.lists[d] != []
    ensures Ready(m, d)
  {
  }

  lemma GrowReady(m: Mem, p: nat, d: nat)
    requires Busy(m) && d < DESCS == |m.lists| && m.lists[d] == [] && p < |m.bits|
    ensures Grow(m, p, d).lists[d] != [] && Ready(Grow(m, p, d), d)
  {
    PerPositive(d);
    hide PerArena, BlockSize, Cut;
    var r := Grow(m, p, d);
    assert r.lists[d] == Cut(p, PerArena(d));
    assert r.lists[d][0] in r.lists[d];
  }

  lemma ReadyTake(m: Mem, d: nat)
    requires Ok(m) && d < DESCS && m.lists[d] != [] && Ready(m, d)
    requires m.lists[d][0].page in m.arenas && m.arenas[m.lists[d][0].page].freeCnt > 0
    ensures Busy(Take(m, d))
  {
    hide PerArena, Ok;
    TakeBusy(m, d);
  }

  /** `b` is new among the live blocks and starts at `addr`; the others stay put. */
  ghost predicate Added(m: Mem, r: Mem, b: Block, addr: nat) {
    && b !in m.live && r.live == m.live + {b} && b.page in r.arenas && Address(r, b) == addr
    && Steady(m, r, m.live)
  }

  /** Blocks that stay where they are. */
  ghost predicate Steady(m: Mem, r: Mem, blocks: set<Block>) {
    forall c :: c in blocks && c.page in m.arenas ==>
      c.page in r.arenas && Address(r, c) == Address(m, c) && Length(r, c) == Length(m, c)
  }

  lemma SteadySelf(m: Mem, blocks: set<Block>)
    ensures Steady(m, m, blocks)
  {
  }

  lemma GrowSteady(m: Mem, p: nat, d: nat)
    requires d < |m.lists| && p < |m.bits| && p !in m.arenas
    ensures Steady(m, Grow(m, p, d), m.live)
  {
    hide PerArena, BlockSize, Cut;
  }

  lemma TakeSteady(start: Mem, m: Mem, d: nat)
    requires Steady(start, m, m.live) && d < |m.lists| && m.lists[d] != []
    requires var b := m.lists[d][0]; b.page in m.arenas && m.arenas[b.page].freeCnt > 0 && m.arenas[b.page].desc.Some?
    ensures Steady(start, Take(m, d), m.live)
  {
    hide PerArena, BlockSize;
    var r := Take(m, d);
    assert forall p :: p in m.arenas ==> p in r.arenas && r.arenas[p].desc == m.arenas[p].desc;
  }

  /** On a pool with one free page a request for 2^32 - 1 bytes is answered, with a block
      of 4084. */
  method AlmostEverything() returns (addr: Option<nat>, ghost length: int)
    ensures addr.Some? && length == 4084
  {
    var pool := new Bitmap(1);
    var heap := new Heap(pool);
    PageCountWraps();
    assert Run(pool.bits, 0, 1, false);
    ghost var b;
    hide Ok, Busy, Steady, PageCount;
    addr, b := heap.Malloc(0xFFFF_FFFF);
    length := Length(heap.Now(), b);
  }
}
