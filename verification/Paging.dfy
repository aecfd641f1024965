/** Demand paging of private pages: page faults, evictions, loads and stores by the
    processes, and the end of a page. */
module Paging {

  import opened Bitmaps
  import opened Clock
  import opened Options
  import opened Sectors
  import opened Swapping
  import opened PageStates

  /** Where the hand is after frame `i` of `n` goes: it steps on first if it is there.
      A hand at the length of the list is on no frame; if the only frame goes from under
      it, the hand is lost. */
  function HandAfter(hand: nat, i: nat, n: nat): (r: nat)
    requires i < n && hand <= n
    ensures r <= n - 1
    ensures hand < n && n > 1 ==> r < n - 1
  {
    if hand == i then (if i + 1 == n then 0 else i) else if hand > i then hand - 1 else hand
  }

  /** The hand after frame `i` went: it stays on its frame, and if that is the one that went
      it is on the next, around the end of the list. A hand on no frame stays so. */
  ghost predicate HandStays(frames: seq<Frame>, hand: nat, i: nat, frames': seq<Frame>, hand': nat)
    requires i < |frames|
  {
    && (hand == |frames| ==> hand' == |frames'|)
    && (hand < |frames| && hand != i ==> hand' < |frames'| && frames'[hand'] == frames[hand])
    && (hand == i && |frames| > 1 ==> hand' < |frames'| && frames'[hand'] == frames[(i + 1) % |frames|])
  }

  lemma HandAfterStays(frames: seq<Frame>, hand: nat, i: nat)
    requires i < |frames| && hand <= |frames|
    ensures HandStays(frames, hand, i, RemoveAt(frames, i), HandAfter(hand, i, |frames|))
  {
    var n := |frames|;
    if i + 1 == n { assert (i + 1) % n == 0; } else { assert (i + 1) % n == i + 1; }
  }

  lemma InsertThenSet(frames: seq<Frame>, h: nat, f: Frame, g: Frame)
    requires h <= |frames|
    ensures |InsertAt(frames, h, f)| == |frames| + 1 && InsertAt(frames, h, f)[h := g] == InsertAt(frames, h, g)
  {
  }

  lemma InsertedAt(frames: seq<Frame>, h: nat, f: Frame)
    requires h <= |frames|
    ensures |InsertAt(frames, h, f)| == |frames| + 1 && InsertAt(frames, h, f)[h] == f
  {
  }

  /** The contents of the first `n` slots. */
  ghost function SlotsOf(sectors: seq<seq<Byte>>, n: nat): (r: seq<seq<Byte>>)
    requires SLOT_SIZE * n <= |sectors|
    ensures |r| == n && forall i :: 0 <= i < n ==> r[i] == Slot(sectors, i)
  {
    seq(n, i requires 0 <= i < n => Slot(sectors, i))
  }

  class Vm {
    const clock: FrameTable
    const pool: Bitmap
    const swap: SwapDevice
    var pages: map<PageId, Page>
    var memory: seq<seq<Byte>>
    var dirty: set<PageId>
    /** The hand was on the last frame when that was freed: the code's pointer then leads
        to freed memory, and the next frame must not be put in before it. */
    var lost: bool
    /** What each page shows its process. */
    ghost var flat: map<PageId, seq<Byte>>

    ghost function Now(): State
      requires swap.Valid()
      reads this, clock, pool, swap, swap.used
    {
      State(pages, clock.frames, pool.bits, memory, swap.used.bits, SlotsOf(swap.sectors, |swap.used.bits|), dirty, flat)
    }

    ghost predicate Valid()
      reads this, clock, pool, swap, swap.used
    {
      && pool != swap.used && swap.Valid()
      && Ok(Now()) && clock.hand <= |clock.frames| && (lost ==> clock.frames == [])
    }

    /** Boot: no pages, no frames, and the hand on no frame. */
    constructor (poolSize: nat, device: seq<seq<Byte>>)
      requires forall i :: 0 <= i < |device| ==> |device[i]| == SECTOR_SIZE
      ensures Valid() && pages == map[] && flat == map[]
      ensures fresh(clock) && fresh(pool) && fresh(swap) && fresh(swap.used)
    {
      clock := new FrameTable([], 0, {});
      pool := new Bitmap(poolSize);
      swap := new SwapDevice(device);
      pages, dirty, flat, lost := map[], {}, map[], false;
      memory := seq(poolSize, _ => Zeroes(PGSIZE));
    }

    /** palloc_get_page on the user pool. */
    method GetPage() returns (k: int)
      modifies pool
      ensures k == BITMAP_ERROR ==> pool.bits == old(pool.bits) && Run(pool.bits, 0, |pool.bits|, true)
      ensures k != BITMAP_ERROR ==> 0 <= k < old(|pool.bits|) && !old(pool.bits)[k] && pool.bits == old(pool.bits)[k := true]
                                    && forall i :: 0 <= i < k ==> old(pool.bits)[i]
    {
      k := pool.ScanAndFlip(0, 1, false);
      if k == BITMAP_ERROR {
        forall i | 0 <= i < |pool.bits| ensures pool.bits[i] {
          assert !Run(pool.bits, i, 1, false);
        }
      } else {
        assert pool.bits == old(pool.bits)[k := true];
        forall i | 0 <= i < k ensures old(pool.bits)[i] {
          assert !Run(old(pool.bits), i, 1, false);
        }
      }
    }

    /** frame_free. */
    method FreeFrame(i: nat)
      requires i < |clock.frames| && clock.hand <= |clock.frames| && clock.frames[i].kpage < |pool.bits|
      modifies this`lost, clock`frames, clock`hand, pool
      ensures clock.frames == RemoveAt(old(clock.frames), i)
      ensures pool.bits == old(pool.bits)[old(clock.frames)[i].kpage := false]
      ensures clock.hand <= |clock.frames| && HandStays(old(clock.frames), old(clock.hand), i, clock.frames, clock.hand)
      ensures lost == (old(lost) || (|old(clock.frames)| == 1 && old(clock.hand) == i))
    {
      HandAfterStays(clock.frames, clock.hand, i);
      if |clock.frames| == 1 && clock.hand == i { lost := true; }
      clock.hand := HandAfter(clock.hand, i, |clock.frames|);
      pool.SetMultiple(clock.frames[i].kpage, 1, false);
      assert pool.bits == old(pool.bits)[clock.frames[i].kpage := false];
      clock.frames := RemoveAt(clock.frames, i);
    }

    /** The end of frame_evict: page `p` becomes `g` and frame `i` is freed. */
    method Unbind(i: nat, p: PageId, g: Page)
      requires swap.Valid() && pool != swap.used && clock.hand <= |clock.frames|
      requires i < |clock.frames| && clock.frames[i].kpage < |pool.bits|
      modifies this`pages, this`lost, clock`frames, clock`hand, pool
      ensures swap.Valid() && clock.hand <= |clock.frames|
      ensures Now() == old(Now()).(pages := old(pages)[p := g], frames := RemoveAt(old(clock.frames), i),
                                   pool := old(pool.bits)[old(clock.frames)[i].kpage := false])
      ensures lost == (old(lost) || (|old(clock.frames)| == 1 && old(clock.hand) == i))
      ensures HandStays(old(clock.frames), old(clock.hand), i, clock.frames, clock.hand)
    {
      pages := pages[p := g];
      FreeFrame(i);
    }

    /** Copies pool page `k` to a free slot. */
    method CopyOut(k: nat) returns (m: int)
      requires swap.Valid() && pool != swap.used && k < |memory| && |memory[k]| == PGSIZE
      modifies swap, swap.used
      ensures swap.Valid()
      ensures m == BITMAP_ERROR ==> Run(old(swap.used.bits), 0, |old(swap.used.bits)|, true)
      ensures m != BITMAP_ERROR ==>
                && 0 <= m < |old(swap.used.bits)| && !old(swap.used.bits)[m]
                && Now() == old(Now()).(slotUsed := old(swap.used.bits)[m := true], slots := old(Now()).slots[m := memory[k]])
    {
      hide Slot, SlotsOf;
      ghost var slots := Now().slots;
      m := swap.SwapOut(memory[k]);
      if m != BITMAP_ERROR {
        SlotsChange(slots, swap.sectors, |swap.used.bits|, m, memory[k]);
      }
    }

    method Forget(i: nat)
      requires Valid() && i < |clock.frames| && |clock.frames[i].owners| == 1 && Tenant(clock.frames, i) !in dirty
      modifies this`pages, this`lost, clock`frames, clock`hand, pool
      ensures Valid() && IsEviction(old(Now()), Now(), i) && (lost <==> |old(clock.frames)| == 1 && old(clock.hand) == i)
      ensures HandStays(old(clock.frames), old(clock.hand), i, clock.frames, clock.hand)
    {
      hide Ok, RemoveAt, SlotsOf, IsEviction, HandStays;
      ghost var s := Now();
      TenantFacts(s, i);
      EvictCleanKeeps(s, i);
      CleanEviction(s, i);
      var p := clock.frames[i].owners[0];
      Unbind(i, p, pages[p].(alloc := false, kpage := None, slot := None));
    }

    method ToSwap(i: nat) returns (ok: bool)
      requires Valid() && i < |clock.frames| && |clock.frames[i].owners| == 1 && Tenant(clock.frames, i) in dirty
      modifies this`pages, this`lost, clock`frames, clock`hand, pool, swap, swap.used
      ensures !ok ==> Run(old(swap.used.bits), 0, |old(swap.used.bits)|, true)
      ensures ok ==> Valid() && IsEviction(old(Now()), Now(), i) && (lost <==> |old(clock.frames)| == 1 && old(clock.hand) == i)
      ensures ok ==> HandStays(old(clock.frames), old(clock.hand), i, clock.frames, clock.hand)
    {
      hide Ok, RemoveAt, SlotsOf, IsEviction, HandStays;
      ghost var s := Now();
      TenantFacts(s, i);
      assert |memory| == |pool.bits| by { OkParts(s); }
      var p, k := clock.frames[i].owners[0], clock.frames[i].kpage;
      var m := CopyOut(k);
      ok := m != BITMAP_ERROR;
      if ok {
        EvictDirtyKeeps(s, i, m);
        DirtyEviction(s, i, m);
        Unbind(i, p, pages[p].(kpage := None, slot := Some(m)));
      }
    }

    /** The write-out of frame_evict for a private page: a dirty page goes to swap, a
        clean one is forgotten. It fails only when swap is full. */
    method WriteOut(i: nat) returns (ok: bool)
      requires Valid() && i < |clock.frames|
      modifies this`pages, this`lost, clock`frames, clock`hand, pool, swap, swap.used
      ensures !ok ==> Run(old(swap.used.bits), 0, |old(swap.used.bits)|, true)
      ensures ok ==> Valid() && IsEviction(old(Now()), Now(), i) && (lost <==> |old(clock.frames)| == 1 && old(clock.hand) == i)
      ensures ok ==> HandStays(old(clock.frames), old(clock.hand), i, clock.frames, clock.hand)
    {
      hide Ok, IsEviction, HandStays;
      TenantFacts(Now(), i);
      ok := true;
      if clock.frames[i].owners[0] in dirty {
        ok := ToSwap(i);
      } else {
        Forget(i);
      }
    }

    /** frame_evict from the choice of a victim on, with the hand on a frame. */
    method EvictChosen() returns (ok: bool, ghost victim: Option<nat>)
      requires Valid() && clock.hand < |clock.frames|
      modifies this`pages, this`lost, clock, pool, swap, swap.used
      ensures !ok ==> Run(old(swap.used.bits), 0, |old(swap.used.bits)|, true)
      ensures ok ==> Valid() && (lost <==> victim.Some? && |old(clock.frames)| == 1)
      ensures ok && victim.None? ==> Now() == old(Now()) && clock.accessed == old(clock.accessed)
                                     && clock.hand == (if |clock.frames| == 1 then 0 else 1)
                                     && forall i :: 0 <= i < |clock.frames| ==> clock.frames[i].pinned
      ensures ok && victim.Some? ==>
                && victim.value < |old(clock.frames)|
                && IsEviction(old(Now()), Now(), victim.value)
                && ByClock(old(clock.frames), old(clock.hand), old(clock.accessed), victim.value, clock.accessed)
      ensures ok && victim.Some? && |old(clock.frames)| > 1 ==>
                clock.hand < |clock.frames| && clock.frames[clock.hand] == old(clock.frames)[(victim.value + 1) % |old(clock.frames)|]
    {
      hide Ok, IsEviction, ByClock, Chosen, Cleared, HandStays, SlotsOf;
      ok := true;
      ghost var k;
      var v;
      v, k := clock.Sweep();
      victim := v;
      assert Now() == old(Now());
      if v.Some? {
        ByClockIs(clock.frames, old(clock.hand), old(clock.hand), old(clock.accessed), k, v.value, clock.accessed);
        NextDiffers(v.value, |clock.frames|);
        ghost var hand := clock.hand;
        ok := WriteOut(v.value);
        if ok { HandNext(old(clock.frames), hand, v.value, clock.frames, clock.hand); }
      }
    }

    /** frame_evict: the frame that the clock chooses goes, and its page to swap exactly
        if it is dirty. It fails when swap is full, or when the hand is on no frame and
        the list's end does not read as a pinned frame. */
    method Evict() returns (ok: bool, ghost victim: Option<nat>)
      requires Valid()
      modifies this`pages, this`lost, clock, pool, swap, swap.used
      ensures !ok ==> old(clock.hand) == |old(clock.frames)| || Run(old(swap.used.bits), 0, |old(swap.used.bits)|, true)
      ensures ok ==> Valid() && (lost <==> old(lost) || (victim.Some? && |old(clock.frames)| == 1))
      ensures ok && victim.None? ==> Now() == old(Now()) && clock.accessed == old(clock.accessed)
                                     && forall i :: 0 <= i < |clock.frames| ==> clock.frames[i].pinned
      ensures ok && victim.Some? ==>
                && victim.value < |old(clock.frames)|
                && IsEviction(old(Now()), Now(), victim.value) && GaveUp(old(Now()), Now(), victim.value)
                && ByClock(old(clock.frames), old(clock.hand), old(clock.accessed), victim.value, clock.accessed)
      ensures ok && victim.Some? && |old(clock.frames)| > 1 ==>
                clock.hand < |clock.frames| && clock.frames[clock.hand] == old(clock.frames)[(victim.value + 1) % |old(clock.frames)|]
      ensures ok && victim.None? ==> clock.hand == (if clock.frames == [] then old(clock.hand) else if |clock.frames| == 1 then 0 else 1)
    {
      hide Ok, IsEviction, GaveUp, ByClock, SlotsOf;
      ok, victim := true, None;
      if clock.frames == [] { return; }
      if clock.hand == |clock.frames| {
        var readsPinned: bool := *;
        if !readsPinned { return false, None; }
        clock.hand := 0;
      }
      ghost var h := clock.hand;
      ok, victim := EvictChosen();
      if ok && victim.Some? {
        EvictionMeans(old(Now()), Now(), victim.value);
        FromTheEnd(old(clock.frames), old(clock.hand), h, old(clock.accessed), victim.value, clock.accessed);
      }
    }

    /** frame_set_pinned. The code asserts that the frame exists. */
    method SetPinned(k: nat, status: bool, ghost at: nat)
      requires at < |clock.frames| && clock.frames[at].kpage == k
      requires forall i, j :: 0 <= i < j < |clock.frames| ==> clock.frames[i].kpage != clock.frames[j].kpage
      modifies clock`frames
      ensures clock.frames == old(clock.frames)[at := old(clock.frames)[at].(pinned := status)]
    {
      var i := 0;
      while clock.frames[i].kpage != k
        invariant i <= at
        decreases at - i
      {
        i := i + 1;
      }
      clock.frames := clock.frames[i := clock.frames[i].(pinned := status)];
    }

    /** The first half of frame_alloc: the first free page of the pool, after an eviction if
        there is none. `s` is the state after the eviction, if there was one, and `h` where
        the hand is then. */
    method TakePage() returns (ok: bool, k: int, ghost s: State, ghost h: nat, ghost victim: Option<nat>)
      requires Valid()
      modifies this`pages, this`lost, clock, pool, swap, swap.used
      ensures !ok ==> OutOfFrames(old(Now()), old(clock.hand), old(lost))
      ensures ok ==> Ok(s) && swap.Valid() && clock.hand == h <= |s.frames| && !lost
      ensures ok ==> 0 <= k < |s.pool| && !s.pool[k] && (forall i :: 0 <= i < k ==> s.pool[i]) && Now() == s.(pool := s.pool[k := true])
      ensures ok && victim.None? ==> s == old(Now()) && h == old(clock.hand) && clock.accessed == old(clock.accessed)
      ensures ok && victim.Some? ==> Evicted(old(Now()), s)
                                     && MadeRoom(old(Now()), old(clock.hand), old(clock.accessed), s, h, clock.accessed, victim.value)
    {
      hide Ok, Evicted, GaveUp, ByClock, IsEviction, SlotsOf, SwapDevice.Valid;
      victim := None;
      s, h := Now(), clock.hand;
      k := GetPage();
      ok := true;
      if k == BITMAP_ERROR {
        ok, victim := Evict();
        if !ok { return; }
        if victim.Some? { EvictionFrees(old(Now()), Now(), victim.value); }
        s, h := Now(), clock.hand;
        k := GetPage();
        if k == BITMAP_ERROR {
          assert !Evicted(old(Now()), s) by { StillFull(old(Now()), s); }
          return false, k, s, h, victim;
        }
      }
      ok := !lost;
    }

    /** frame_alloc for page `p`. The frame goes in before the hand, which stays on its
        frame. */
    method AllocFrame(p: PageId) returns (ok: bool, k: int, ghost s: State, ghost h: nat, ghost victim: Option<nat>)
      requires Valid() && p in pages && pages[p].kpage.None?
      modifies this`pages, this`lost, clock, pool, swap, swap.used
      ensures !ok ==> OutOfFrames(old(Now()), old(clock.hand), old(lost))
      ensures ok ==> Ok(s) && (s == old(Now()) || Evicted(old(Now()), s)) && swap.Valid()
      ensures ok ==> 0 <= k < |s.pool| && !s.pool[k] && (forall i :: 0 <= i < k ==> s.pool[i]) && h <= |s.frames|
      ensures ok ==> Now() == s.(pool := s.pool[k := true], frames := InsertAt(s.frames, h, Frame(k, true, [p])))
      ensures ok ==> clock.hand == h + 1 <= |clock.frames| && !lost
      ensures ok && victim.None? ==> s == old(Now()) && h == old(clock.hand) && clock.accessed == old(clock.accessed)
      ensures ok && victim.Some? ==> MadeRoom(old(Now()), old(clock.hand), old(clock.accessed), s, h, clock.accessed, victim.value)
    {
      hide Ok, Evicted, MadeRoom, InsertAt, OutOfFrames, SlotsOf, SwapDevice.Valid;
      ok, k, s, h, victim := TakePage();
      if !ok { return; }
      clock.frames := InsertAt(clock.frames, clock.hand, Frame(k, true, [p]));
      clock.hand := clock.hand + 1;
      InsertThenSet(s.frames, h, Frame(k, true, [p]), Frame(k, true, [p]));
    }

    /** Brings page `p` back from its slot into frame `k`, which is pinned at `h`. */
    method FillBack(p: PageId, k: nat, ghost s: State, ghost h: nat)
      requires swap.Valid() && pool != swap.used && Ok(s) && p in s.pages && s.pages[p].kpage.None?
      requires k < |s.pool| && !s.pool[k] && h <= |s.frames|
      requires Now() == s.(pool := s.pool[k := true], frames := InsertAt(s.frames, h, Frame(k, true, [p]))) && s.pages[p].alloc
      modifies this`memory, this`dirty, this`pages, swap.used
      ensures swap.Valid()
      ensures var r := Now().(frames := InsertAt(s.frames, h, Frame(k, false, [p]))); Ok(r) && PoolOk(r.frames, r.pool)
      ensures flat == old(flat) && pages == s.pages[p := s.pages[p].(alloc := true, kpage := Some(k))]
      ensures p in dirty
    {
      OkParts(s);
      assert BytesOk(s, p);
      hide Ok, PoolOk, OwnersOk, SlotsOk, AllBytes, InsertAt, SlotsOf, Image;
      var g := pages[p];
      LoadBackKeeps(s, p, h, k);
      var _, data := swap.SwapIn(g.slot.value);
      SlotRead(swap.sectors, |swap.used.bits|, g.slot.value);
      memory := memory[k := data];
      dirty := dirty + {p};
      pages := pages[p := g.(alloc := true, kpage := Some(k))];
      assert Now().(frames := InsertAt(s.frames, h, Frame(k, false, [p]))) == LoadBack(s, p, h, k);
    }

    /** Fills frame `k`, which is pinned at `h`, with the backing of page `p`. */
    method FillFirst(p: PageId, k: nat, ghost s: State, ghost h: nat)
      requires swap.Valid() && pool != swap.used && Ok(s) && p in s.pages && s.pages[p].kpage.None?
      requires k < |s.pool| && !s.pool[k] && h <= |s.frames|
      requires Now() == s.(pool := s.pool[k := true], frames := InsertAt(s.frames, h, Frame(k, true, [p]))) && !s.pages[p].alloc
      modifies this`memory, this`dirty, this`pages
      ensures swap.Valid()
      ensures var r := Now().(frames := InsertAt(s.frames, h, Frame(k, false, [p]))); Ok(r) && PoolOk(r.frames, r.pool)
      ensures flat == old(flat) && pages == s.pages[p := s.pages[p].(alloc := true, kpage := Some(k))]
      ensures p !in dirty
    {
      OkParts(s);
      assert BytesOk(s, p);
      hide Ok, PoolOk, OwnersOk, SlotsOk, AllBytes, InsertAt, SlotsOf, Image;
      var g := pages[p];
      LoadFirstKeeps(s, p, h, k);
      memory := memory[k := Image(g)];
      dirty := dirty - {p};
      pages := pages[p := g.(alloc := true, kpage := Some(k))];
      assert Now().(frames := InsertAt(s.frames, h, Frame(k, false, [p]))) == LoadFirst(s, p, h, k);
    }

    /** The two ways to fill the new frame of page `p` in page_full_load. */
    method Fill(p: PageId, k: nat, ghost s: State, ghost h: nat)
      requires swap.Valid() && pool != swap.used && Ok(s) && p in s.pages && s.pages[p].kpage.None?
      requires k < |s.pool| && !s.pool[k] && h <= |s.frames|
      requires Now() == s.(pool := s.pool[k := true], frames := InsertAt(s.frames, h, Frame(k, true, [p])))
      modifies this`memory, this`dirty, this`pages, swap.used
      ensures swap.Valid()
      ensures var r := Now().(frames := InsertAt(s.frames, h, Frame(k, false, [p]))); Ok(r) && PoolOk(r.frames, r.pool)
      ensures flat == old(flat) && pages == s.pages[p := s.pages[p].(alloc := true, kpage := Some(k))]
      ensures p in dirty <==> s.pages[p].alloc
    {
      hide Ok, PoolOk, InsertAt, SlotsOf, SwapDevice.Valid;
      if pages[p].alloc {
        FillBack(p, k, s, h);
      } else {
        FillFirst(p, k, s, h);
      }
    }

    /** Page `p` is in the frame right before the hand, which is not pinned. */
    ghost predicate InFrame(p: PageId)
      reads this, clock
    {
      && p in pages && pages[p].kpage.Some? && 0 < clock.hand <= |clock.frames|
      && clock.frames[clock.hand - 1] == Frame(pages[p].kpage.value, false, [p])
    }

    /** page_full_load once page `p` has the new frame `k`, which is pinned before the hand. */
    method Install(p: PageId, k: nat, ghost s: State, ghost h: nat)
      requires swap.Valid() && pool != swap.used && Ok(s) && p in s.pages && s.pages[p].kpage.None?
      requires k < |s.pool| && !s.pool[k] && h <= |s.frames| && clock.hand == h + 1 && !lost
      requires Now() == s.(pool := s.pool[k := true], frames := InsertAt(s.frames, h, Frame(k, true, [p])))
      modifies this`pages, this`memory, this`dirty, clock`frames, clock`accessed, swap.used
      ensures Valid() && flat == s.flat && pages == s.pages[p := s.pages[p].(alloc := true, kpage := Some(k))]
      ensures InFrame(p)
      ensures clock.accessed == old(clock.accessed) - {p} && (p in dirty <==> s.pages[p].alloc)
    {
      hide Ok, PoolOk, InsertAt;
      InsertedAt(s.frames, h, Frame(k, false, [p]));
      InsertThenSet(s.frames, h, Frame(k, true, [p]), Frame(k, false, [p]));
      Fill(p, k, s, h);
      ghost var r := Now().(frames := InsertAt(s.frames, h, Frame(k, false, [p])));
      clock.accessed := clock.accessed - {p};
      Unpin(p, k, s, h, r);
    }

    /** page_full_load for a private page that is not resident. `victim` is the page that
        was evicted for it, if any. */
    method FullLoad(p: PageId) returns (ok: bool, ghost victim: Option<PageId>)
      requires Valid() && p in pages && pages[p].kpage.None?
      modifies this`pages, this`memory, this`dirty, this`lost, clock, pool, swap, swap.used
      ensures !ok ==> OutOfFrames(old(Now()), old(clock.hand), old(lost))
      ensures ok ==> Valid() && flat == old(flat) && pages.Keys == old(pages).Keys
      ensures ok ==> pages[p].kpage.Some? && pages[p].alloc && forall q :: q in pages ==> pages[q].writable == old(pages)[q].writable
      ensures ok ==> InFrame(p) && p !in clock.accessed && (p in dirty <==> old(pages)[p].alloc)
      ensures ok ==> forall q :: q in pages && q != p && Some(q) != victim ==> pages[q] == old(pages)[q]
      ensures ok && victim.Some? ==> victim.value in pages && pages[victim.value].kpage.None?
                                     && Run(old(pool.bits), 0, |old(pool.bits)|, true)
    {
      hide Ok, PoolOk, Evicted, InsertAt, OutOfFrames, MadeRoom, SlotsOf, SwapDevice.Valid, Vm.InFrame;
      var k;
      ghost var s, h, v;
      victim := None;
      ok, k, s, h, v := AllocFrame(p);
      if !ok { return; }
      AfterEviction(old(Now()), s, p);
      if v.Some? {
        victim := Some(EvictedPage(old(Now()), old(clock.hand), old(clock.accessed), s, h, clock.accessed, v.value));
      }
      Install(p, k, s, h);
      MovedPages(old(pages), s.pages, pages, p, k, victim);
    }

    method Unpin(p: PageId, k: nat, ghost s: State, ghost h: nat, ghost r: State)
      requires swap.Valid() && h <= |s.frames| && PoolOk(r.frames, r.pool)
      requires r == Now().(frames := InsertAt(s.frames, h, Frame(k, false, [p])))
      requires clock.frames == InsertAt(s.frames, h, Frame(k, true, [p]))
      modifies clock`frames
      ensures Now() == r && |clock.frames| == |old(clock.frames)|
    {
      InsertThenSet(s.frames, h, Frame(k, true, [p]), Frame(k, false, [p]));
      SetPinnedFits(r.frames, clock.frames, r.pool, h);
      SetPinned(k, false, h);
    }

    /** The fault handler: makes page `p` resident if it is not. */
    method Touch(p: PageId) returns (ok: bool)
      requires Valid() && p in pages
      modifies this`pages, this`memory, this`dirty, this`lost, clock, pool, swap, swap.used
      ensures !ok ==> OutOfFrames(old(Now()), old(clock.hand), old(lost))
      ensures ok ==> Valid() && flat == old(flat) && pages.Keys == old(pages).Keys && pages[p].kpage.Some?
      ensures ok ==> p in clock.accessed && forall q :: q in pages ==> pages[q].writable == old(pages)[q].writable
    {
      hide Ok, OutOfFrames, Vm.InFrame, SlotsOf, SwapDevice.Valid;
      ok := true;
      ghost var victim;
      if pages[p].kpage.None? { ok, victim := FullLoad(p); }
      if ok { clock.accessed := clock.accessed + {p}; }
    }

    /** A load by the process sees flat memory. */
    method Read(p: PageId, off: nat) returns (ok: bool, b: Byte)
      requires Valid() && p in pages && off < PGSIZE
      modifies this`pages, this`memory, this`dirty, this`lost, clock, pool, swap, swap.used
      ensures !ok ==> OutOfFrames(old(Now()), old(clock.hand), old(lost))
      ensures ok ==> Valid() && flat == old(flat) && pages.Keys == old(pages).Keys
      ensures p in old(flat) && |old(flat)[p]| == PGSIZE
      ensures ok ==> b == old(flat)[p][off]
    {
      FlatAt(Now(), p);
      hide Ok;
      b := 0;
      ok := Touch(p);
      if ok {
        ResidentAt(Now(), p);
        b := memory[pages[p].kpage.value][off];
      }
    }

    /** A store by the process changes flat memory in that byte. */
    method Write(p: PageId, off: nat, b: Byte) returns (ok: bool)
      requires Valid() && p in pages && off < PGSIZE && pages[p].writable
      modifies this, clock, pool, swap, swap.used
      ensures !ok ==> OutOfFrames(old(Now()), old(clock.hand), old(lost))
      ensures p in old(flat) && |old(flat)[p]| == PGSIZE
      ensures ok ==> Valid() && flat == old(flat)[p := Poke(old(flat)[p], off, b)] && pages.Keys == old(pages).Keys
      ensures ok ==> p in dirty && p in clock.accessed
    {
      FlatAt(Now(), p);
      hide Ok, Poke;
      ok := Touch(p);
      if ok { StoreByte(p, off, b); }
    }

    method StoreByte(p: PageId, off: nat, b: Byte)
      requires Valid() && p in pages && off < PGSIZE && pages[p].kpage.Some?
      modifies this`memory, this`dirty, this`flat
      ensures p in old(flat) && |old(flat)[p]| == PGSIZE
      ensures Valid() && flat == old(flat)[p := Poke(old(flat)[p], off, b)] && p in dirty
    {
      hide Ok, Poke;
      ghost var s := Now();
      ResidentAt(s, p);
      var k := pages[p].kpage.value;
      StoreKeeps(s, p, k, off, b);
      memory := memory[k := Poke(memory[k], off, b)];
      dirty := dirty + {p};
      flat := flat[p := Poke(flat[p], off, b)];
      assert Now() == Store(s, p, k, off, b);
    }

    /** page_lazy_load: a page that starts as file bytes followed by zeros. */
    method LazyLoad(p: PageId, backing: seq<Byte>, writable: bool)
      requires Valid() && p !in pages && |backing| <= PGSIZE
      modifies this`pages, this`flat
      ensures Valid() && pages.Keys == old(pages).Keys + {p} && pages[p].writable == writable && pages[p].kpage.None?
      ensures flat == old(flat)[p := backing + Zeroes(PGSIZE - |backing|)]
      ensures forall q :: q in old(pages) ==> pages[q] == old(pages)[q]
    {
      hide Ok, SlotsOf, SwapDevice.Valid;
      var g := Page(false, None, None, backing, writable);
      ghost var s := Now();
      PromiseKeeps(s, p, g);
      pages := pages[p := g];
      flat := flat[p := Image(g)];
      assert Now() == Promise(s, p, g);
    }

    /** page_full_load_stack: a zeroed page, resident at once. */
    method LoadStack(p: PageId) returns (ok: bool)
      requires Valid() && p !in pages
      modifies this, clock, pool, swap, swap.used
      ensures !ok ==> OutOfFrames(old(Now()), old(clock.hand), old(lost))
      ensures ok ==> Valid() && flat == old(flat)[p := Zeroes(PGSIZE)] && pages.Keys == old(pages).Keys + {p} && pages[p].writable
    {
      hide Ok, Vm.InFrame, SlotsOf, SwapDevice.Valid;
      LazyLoad(p, [], true);
      assert [] + Zeroes(PGSIZE) == Zeroes(PGSIZE);
      ghost var victim;
      ok, victim := FullLoad(p);
    }

    /** Looks a frame up by its page; the code asserts that there is one. */
    method FindFrame(k: nat, ghost p: PageId) returns (i: nat)
      requires Valid() && p in pages && pages[p].kpage == Some(k)
      ensures i < |clock.frames| && clock.frames[i].kpage == k && clock.frames[i].owners == [p]
    {
      FrameAt(Now(), p);
      hide Ok;
      ghost var at :| 0 <= at < |clock.frames| && clock.frames[at].kpage == k && clock.frames[at].owners == [p];
      i := 0;
      while clock.frames[i].kpage != k
        invariant i <= at
        decreases at - i
      {
        i := i + 1;
      }
      SameFrame(Now(), i, at);
    }

    method FreeResident(p: PageId, k: nat)
      requires Valid() && p in pages && pages[p].kpage == Some(k)
      modifies this`pages, this`flat, this`lost, clock`frames, clock`hand, pool
      ensures Valid() && pages == old(pages) - {p} && flat == old(flat) - {p}
      ensures FrameGone(old(clock.frames), old(clock.hand), p, clock.frames, clock.hand)
    {
      hide Ok, SlotsOf;
      ghost var s := Now();
      var i := FindFrame(k, p);

      DropResidentKeeps(s, p, i);
      FreeFrame(i);
      FrameGoneIs(s.frames, old(clock.hand), p, i, clock.frames, clock.hand);
      pages, flat := pages - {p}, flat - {p};
      assert Now() == DropResident(s, p, i);
    }

    method FreeSwapped(p: PageId)
      requires Valid() && p in pages && Swapped(pages[p])
      modifies this`pages, this`flat, swap.used
      ensures Valid() && pages == old(pages) - {p} && flat == old(flat) - {p}
    {
      hide Ok, SlotsOf;
      ghost var s := Now();
      DropSwappedKeeps(s, p);
      var _, _ := swap.SwapIn(pages[p].slot.value);
      SlotGiven(s, p);
      pages, flat := pages - {p}, flat - {p};
      assert Now() == DropSwapped(s, p);
    }

    /** page_free: the page goes, and with it its frame or its swap slot. */
    method Free(p: PageId)
      requires Valid() && p in pages
      modifies this`pages, this`flat, this`lost, clock`frames, clock`hand, pool, swap.used
      ensures Valid() && pages == old(pages) - {p} && flat == old(flat) - {p}
      ensures FrameGone(old(clock.frames), old(clock.hand), p, clock.frames, clock.hand)
    {
      hide Ok, SlotsOf, FrameGone;
      ghost var s := Now();
      if pages[p].kpage.None? {
        NoFrame(s, p, clock.hand);
      }
      if pages[p].kpage.Some? {
        FreeResident(p, pages[p].kpage.value);
      } else if pages[p].alloc {
        FreeSwapped(p);
      } else {
        DropUnloadedKeeps(s, p);
        pages, flat := pages - {p}, flat - {p};
        assert Now() == DropUnloaded(s, p);
      }
    }
  }

  /** The frame of page `p`, if it has one, has left the list and the others keep their
      order. The hand stays on its frame, or is on the next one if its frame went. */
  ghost predicate FrameGone(frames: seq<Frame>, hand: nat, p: PageId, frames': seq<Frame>, hand': nat) {
    && if exists i :: 0 <= i < |frames| && frames[i].owners == [p]
       then exists i :: 0 <= i < |frames| && frames[i].owners == [p] && frames' == frames[..i] + frames[i + 1..]
                        && HandStays(frames, hand, i, frames', hand')
       else frames' == frames && hand' == hand
  }

  lemma FrameGoneIs(frames: seq<Frame>, hand: nat, p: PageId, i: nat, frames': seq<Frame>, hand': nat)
    requires i < |frames| && frames[i].owners == [p] && frames' == RemoveAt(frames, i)
    requires HandStays(frames, hand, i, frames', hand')
    ensures FrameGone(frames, hand, p, frames', hand')
  {
    hide HandStays;
  }

  lemma NoFrame(s: State, p: PageId, hand: nat)
    requires Ok(s) && p in s.pages && s.pages[p].kpage.None?
    ensures FrameGone(s.frames, hand, p, s.frames, hand)
  {
    forall i | 0 <= i < |s.frames| ensures s.frames[i].owners != [p] {
      assert s.frames[i] in s.frames;
    }
  }

  /** The slot of a swapped page is taken, so reading it back gives it up. */
  lemma SlotGiven(s: State, p: PageId)
    requires Ok(s) && p in s.pages && Swapped(s.pages[p])
    ensures s.pages[p].slot.Some? && s.pages[p].slot.value < |s.slotUsed| && s.slotUsed[s.pages[p].slot.value]
  {
  }

  lemma FrameAt(s: State, p: PageId)
    requires Ok(s) && p in s.pages && s.pages[p].kpage.Some?
    ensures exists i :: 0 <= i < |s.frames| && s.frames[i].kpage == s.pages[p].kpage.value && s.frames[i].owners == [p]
  {
    assert HasFrame(s.frames, s.pages[p].kpage.value, p);
  }

  lemma SameFrame(s: State, i: nat, j: nat)
    requires Ok(s) && i < |s.frames| && j < |s.frames| && s.frames[i].kpage == s.frames[j].kpage
    ensures i == j
  {
  }

  lemma FlatAt(s: State, p: PageId)
    requires Ok(s) && p in s.pages
    ensures p in s.flat && |s.flat[p]| == PGSIZE
  {
    assert BytesOk(s, p);
  }

  lemma ResidentAt(s: State, p: PageId)
    requires Ok(s) && p in s.pages && s.pages[p].kpage.Some?
    ensures p in s.flat && |s.flat[p]| == PGSIZE
    ensures s.pages[p].kpage.value < |s.memory| && s.memory[s.pages[p].kpage.value] == s.flat[p]
  {
    assert BytesOk(s, p);
  }

  lemma AfterEviction(s: State, r: State, p: PageId)
    requires (r == s || Evicted(s, r)) && p in s.pages && s.pages[p].kpage.None?
    ensures p in r.pages && r.pages[p] == s.pages[p] && r.pages.Keys == s.pages.Keys && r.flat == s.flat
    ensures forall q :: q in s.pages ==> r.pages[q].writable == s.pages[q].writable
  {
  }

  /** Frames that differ only in a pin have the same pool pages. */
  lemma SetPinnedFits(fits: seq<Frame>, frames: seq<Frame>, pool: seq<bool>, h: nat)
    requires PoolOk(fits, pool) && h < |frames| == |fits| && fits[h].kpage == frames[h].kpage
    requires forall i :: 0 <= i < |frames| && i != h ==> frames[i] == fits[i]
    ensures forall i, j :: 0 <= i < j < |frames| ==> frames[i].kpage != frames[j].kpage
  {
    assert forall i :: 0 <= i < |frames| ==> frames[i].kpage == fits[i].kpage;
  }

  lemma SlotRead(sectors: seq<seq<Byte>>, n: nat, m: nat)
    requires m < n && SLOT_SIZE * n <= |sectors|
    ensures SlotsOf(sectors, n)[m] == Slot(sectors, m)
  {
  }

  /** Why a frame may not be had: the hand was lost with the last frame, or the pool is
      used up and every frame is pinned, swap is full, the hand is on no frame, or the
      only frame would go from under it. */
  ghost predicate OutOfFrames(s: State, hand: nat, lost: bool) {
    || lost
    || (&& Run(s.pool, 0, |s.pool|, true)
        && (|| hand == |s.frames| || |s.frames| == 1 || Run(s.slotUsed, 0, |s.slotUsed|, true)
            || forall i :: 0 <= i < |s.frames| ==> s.frames[i].pinned))
  }

  lemma StillFull(s: State, r: State)
    requires Run(r.pool, 0, |r.pool|, true)
    ensures !Evicted(s, r)
  {
  }

  /** What an eviction may change: one page loses its frame, some pool page is free,
      and nothing that the processes see is different. */
  ghost predicate Evicted(s: State, r: State) {
    && r.flat == s.flat && r.pages.Keys == s.pages.Keys && |r.pool| == |s.pool|
    && (forall p :: p in s.pages ==> r.pages[p].writable == s.pages[p].writable
                                     && (s.pages[p].kpage.None? ==> r.pages[p] == s.pages[p]))
    && exists k :: 0 <= k < |r.pool| && !r.pool[k]
  }

  /** Frame `i` is given up and its page goes to swap exactly if it is dirty. */
  ghost predicate IsEviction(s: State, r: State, i: nat) {
    && i < |s.frames| && |s.frames[i].owners| == 1 && Tenant(s.frames, i) in s.pages && s.frames[i].kpage < |s.pool|
    && |s.memory| == |s.pool| && |s.slots| == |s.slotUsed|
    && if Tenant(s.frames, i) in s.dirty then
         exists m :: 0 <= m < |s.slotUsed| && !s.slotUsed[m] && r == EvictDirty(s, i, m)
       else r == EvictClean(s, i)
  }

  /** Frame `v` is the one that the sweep from `hand` chooses; from the end of the list
      it starts over. */
  ghost predicate ByClock(frames: seq<Frame>, hand: nat, accessed: set<Pte>, v: nat, accessed': set<Pte>) {
    && frames != []
    && var h := if hand < |frames| then hand else 0;
       exists k: nat :: Chosen(frames, h, accessed, k) && v == (h + k) % |frames| && accessed' == accessed - Cleared(frames, h, k)
  }

  /** The eviction in frame_alloc: no page of the pool was free; the frame that the clock
      chooses goes, and then the hand is on the frame after it. */
  ghost predicate MadeRoom(s: State, hand: nat, accessed: set<Pte>, r: State, hand': nat, accessed': set<Pte>, v: nat) {
    && Run(s.pool, 0, |s.pool|, true) && GaveUp(s, r, v) && ByClock(s.frames, hand, accessed, v, accessed')
    && |s.frames| > 1 && hand' < |r.frames| && r.frames[hand'] == s.frames[(v + 1) % |s.frames|]
  }

  /** The page that lost its frame to make room. */
  ghost function EvictedPage(s: State, hand: nat, accessed: set<Pte>, r: State, hand': nat, accessed': set<Pte>, v: nat): (p: PageId)
    requires Ok(s) && MadeRoom(s, hand, accessed, r, hand', accessed', v)
    ensures p in s.pages && p in r.pages && r.pages == s.pages[p := r.pages[p]]
    ensures s.pages[p].kpage.Some? && r.pages[p].kpage.None? && Run(s.pool, 0, |s.pool|, true)
  {
    TenantFacts(s, v);
    s.frames[v].owners[0]
  }

  lemma FromTheEnd(frames: seq<Frame>, hand: nat, h: nat, accessed: set<Pte>, v: nat, accessed': set<Pte>)
    requires frames != [] && h == (if hand < |frames| then hand else 0) && ByClock(frames, h, accessed, v, accessed')
    ensures ByClock(frames, hand, accessed, v, accessed')
  {
  }

  /** From `before` the page `victim`, if any, lost its frame, and then `p` got one. */
  lemma MovedPages(before: map<PageId, Page>, between: map<PageId, Page>, after: map<PageId, Page>,
                   p: PageId, k: nat, victim: Option<PageId>)
    requires p in between && after == between[p := between[p].(alloc := true, kpage := Some(k))] && between[p].kpage.None?
    requires match victim
             case None => between == before
             case Some(q) => q in before && q in between && q != p && between == before[q := between[q]]
    requires forall q :: q in before && q in between ==> between[q].writable == before[q].writable
    ensures after.Keys == before.Keys && p in after && after[p].kpage == Some(k) && after[p].alloc
    ensures forall q :: q in after ==> after[q].writable == before[q].writable
    ensures forall q :: q in after && q != p && Some(q) != victim ==> after[q] == before[q]
    ensures victim.Some? ==> victim.value in after && after[victim.value] == between[victim.value]
  {
  }

  lemma HandNext(frames: seq<Frame>, hand: nat, v: nat, frames': seq<Frame>, hand': nat)
    requires v < |frames| && hand == (v + 1) % |frames| && HandStays(frames, hand, v, frames', hand')
    ensures |frames| > 1 ==> hand' < |frames'| && frames'[hand'] == frames[(v + 1) % |frames|]
  {
    NextDiffers(v, |frames|);
  }

  lemma NextDiffers(v: nat, n: nat)
    requires v < n
    ensures (v + 1) % n < n && (n > 1 ==> (v + 1) % n != v)
  {
    if v + 1 == n { assert (v + 1) % n == 0; } else { assert (v + 1) % n == v + 1; }
  }

  /** Frame `i` went back to the pool, and its page has no frame any more. If the page was
      dirty its bytes are in a swap slot that was free; if not it takes no slot and will be
      loaded from its file again. Nothing else changed. */
  ghost predicate GaveUp(s: State, r: State, i: nat) {
    && i < |s.frames| && |s.frames[i].owners| == 1
    && r.frames == s.frames[..i] + s.frames[i + 1..]
    && var p, k := s.frames[i].owners[0], s.frames[i].kpage;
    && k < |s.pool| && r.pool == s.pool[k := false]
    && p in s.pages && p in r.pages && r.pages == s.pages[p := r.pages[p]]
    && r.pages[p].kpage.None? && r.pages[p].backing == s.pages[p].backing && r.pages[p].writable == s.pages[p].writable
    && r.memory == s.memory && r.dirty == s.dirty && r.flat == s.flat
    && if p in s.dirty
       then && r.pages[p].alloc == s.pages[p].alloc && r.pages[p].slot.Some?
            && var m := r.pages[p].slot.value;
               && m < |s.slotUsed| == |s.slots| && !s.slotUsed[m] && r.slotUsed == s.slotUsed[m := true]
               && k < |s.memory| && r.slots == s.slots[m := s.memory[k]]
       else !r.pages[p].alloc && r.pages[p].slot.None? && r.slotUsed == s.slotUsed && r.slots == s.slots
  }

  lemma EvictionMeans(s: State, r: State, i: nat)
    requires IsEviction(s, r, i)
    ensures GaveUp(s, r, i)
  {
  }

  lemma CleanEviction(s: State, i: nat)
    requires Ok(s) && i < |s.frames| && |s.frames[i].owners| == 1 && Tenant(s.frames, i) in s.pages && s.frames[i].kpage < |s.pool|
    requires Tenant(s.frames, i) !in s.dirty
    ensures IsEviction(s, EvictClean(s, i), i)
  {
    OkParts(s);
    hide Ok, RemoveAt;
  }

  lemma DirtyEviction(s: State, i: nat, m: nat)
    requires i < |s.frames| && |s.frames[i].owners| == 1 && Tenant(s.frames, i) in s.pages && s.frames[i].kpage < |s.pool|
    requires |s.memory| == |s.pool| && m < |s.slotUsed| && |s.slots| == |s.slotUsed| && !s.slotUsed[m] && Tenant(s.frames, i) in s.dirty
    ensures IsEviction(s, EvictDirty(s, i, m), i)
  {
    hide RemoveAt;
  }

  lemma CleanFrees(s: State, i: nat)
    requires i < |s.frames| && |s.frames[i].owners| == 1 && Tenant(s.frames, i) in s.pages && s.frames[i].kpage < |s.pool|
    requires s.pages[Tenant(s.frames, i)].kpage.Some?
    ensures Evicted(s, EvictClean(s, i))
  {
    hide RemoveAt;
    assert !EvictClean(s, i).pool[s.frames[i].kpage];
  }

  lemma DirtyFrees(s: State, i: nat, m: nat)
    requires i < |s.frames| && |s.frames[i].owners| == 1 && Tenant(s.frames, i) in s.pages && s.frames[i].kpage < |s.pool|
    requires |s.memory| == |s.pool| && m < |s.slotUsed| && |s.slots| == |s.slotUsed|
    requires s.pages[Tenant(s.frames, i)].kpage.Some?
    ensures Evicted(s, EvictDirty(s, i, m))
  {
    hide RemoveAt;
    assert !EvictDirty(s, i, m).pool[s.frames[i].kpage];
  }

  lemma EvictionFrees(s: State, r: State, i: nat)
    requires Ok(s) && IsEviction(s, r, i)
    ensures Evicted(s, r)
  {
    hide Ok, RemoveAt, EvictClean, EvictDirty, Evicted;
    TenantFacts(s, i);
    if Tenant(s.frames, i) in s.dirty {
      var m :| 0 <= m < |s.slotUsed| && !s.slotUsed[m] && r == EvictDirty(s, i, m);
      DirtyFrees(s, i, m);
    } else {
      CleanFrees(s, i);
    }
  }

  lemma ByClockIs(frames: seq<Frame>, hand: nat, h: nat, accessed: set<Pte>, k: nat, v: nat, accessed': set<Pte>)
    requires frames != [] && h == (if hand < |frames| then hand else 0) && Chosen(frames, h, accessed, k) && v == (h + k) % |frames|
    requires accessed' == accessed - Cleared(frames, h, k)
    ensures ByClock(frames, hand, accessed, v, accessed')
  {
  }

  lemma SlotsChange(before: seq<seq<Byte>>, sectors: seq<seq<Byte>>, n: nat, m: nat, data: seq<Byte>)
    requires |before| == n && m < n && SLOT_SIZE * n <= |sectors| && Slot(sectors, m) == data
    requires forall k :: 0 <= k < n && k != m ==> Slot(sectors, k) == before[k]
    ensures SlotsOf(sectors, n) == before[m := data]
  {
  }

  lemma OkParts(s: State)
    requires Ok(s)
    ensures |s.memory| == |s.pool| && |s.slots| == |s.slotUsed|
    ensures PoolOk(s.frames, s.pool) && OwnersOk(s.frames, s.pages) && SlotsOk(s.pages, s.slotUsed) && AllBytes(s)
  {
  }
}
