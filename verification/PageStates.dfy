/** Private pages as values: where the bytes of each page are, and the moves between
    the places. */
module PageStates {

  import opened Clock
  import opened Options
  import opened Sectors
  import opened Swapping

  /** A private page has one page table entry, so it stands for that too. */
  type PageId = Pte

  /** A supplemental page: PAGE_ALLOC or PAGE_UNALLOC, its frame, its swap slot, and
      the bytes of the file that it starts with. */
  datatype Page = Page(alloc: bool, kpage: Option<nat>, slot: Option<nat>, backing: seq<Byte>, writable: bool)

  /** User pool, swap, page table and, in `flat`, what the processes should see. */
  datatype State = State(
    pages: map<PageId, Page>,
    frames: seq<Frame>,
    pool: seq<bool>,
    memory: seq<seq<Byte>>,
    slotUsed: seq<bool>,
    slots: seq<seq<Byte>>,
    dirty: set<PageId>,
    flat: map<PageId, seq<Byte>>)

  function Zeroes(n: nat): (r: seq<Byte>)
    ensures |r| == n
  {
    seq(n, _ => 0)
  }

  /** What a page holds before anybody writes it: file bytes, then zeros. */
  function Image(g: Page): (r: seq<Byte>)
    requires |g.backing| <= PGSIZE
    ensures |r| == PGSIZE
  {
    g.backing + Zeroes(PGSIZE - |g.backing|)
  }

  /** Frames and the user pool: a page of the pool is taken exactly when it is a frame. */
  ghost predicate PoolOk(frames: seq<Frame>, pool: seq<bool>) {
    && (forall f :: f in frames ==> f.kpage < |pool| && pool[f.kpage])
    && (forall i, j :: 0 <= i < j < |frames| ==> frames[i].kpage != frames[j].kpage)
    && (forall k :: 0 <= k < |pool| && pool[k] ==> exists f :: f in frames && f.kpage == k)
  }

  /** Each frame belongs to one page, and that page knows its frame. */
  ghost predicate OwnersOk(frames: seq<Frame>, pages: map<PageId, Page>) {
    && (forall f :: f in frames ==>
          |f.owners| == 1 && f.owners[0] in pages && pages[f.owners[0]].kpage == Some(f.kpage))
    && (forall p :: p in pages && pages[p].kpage.Some? ==> HasFrame(frames, pages[p].kpage.value, p))
  }

  ghost predicate HasFrame(frames: seq<Frame>, k: nat, p: PageId) {
    exists f :: f in frames && f.kpage == k && f.owners == [p]
  }

  /** A page that is in swap. */
  predicate Swapped(g: Page) {
    g.alloc && g.kpage.None?
  }

  /** A swap slot is taken exactly when one swapped page, and no other, owns it. */
  ghost predicate SlotsOk(pages: map<PageId, Page>, slotUsed: seq<bool>) {
    && (forall p :: p in pages && Swapped(pages[p]) ==>
          pages[p].slot.Some? && pages[p].slot.value < |slotUsed| && slotUsed[pages[p].slot.value])
    && (forall p, q :: p in pages && q in pages && p != q && Swapped(pages[p]) && Swapped(pages[q]) ==>
          pages[p].slot != pages[q].slot)
    && (forall k :: 0 <= k < |slotUsed| && slotUsed[k] ==> exists p :: p in pages && Swapped(pages[p]) && pages[p].slot == Some(k))
  }

  /** The bytes of page `p` are where its state says. */
  ghost predicate BytesOk(s: State, p: PageId)
    requires p in s.pages && p in s.flat
  {
    var g := s.pages[p];
    && |g.backing| <= PGSIZE && |s.flat[p]| == PGSIZE
    && match g.kpage
       case Some(k) => g.alloc && k < |s.memory| && s.memory[k] == s.flat[p] && (p !in s.dirty ==> s.flat[p] == Image(g))
       case None =>
         if g.alloc then g.slot.Some? && g.slot.value < |s.slots| && s.slots[g.slot.value] == s.flat[p]
         else g.slot.None? && s.flat[p] == Image(g)
  }

  ghost predicate AllBytes(s: State) {
    && s.flat.Keys == s.pages.Keys
    && forall p :: p in s.pages ==> BytesOk(s, p)
  }

  ghost predicate Ok(s: State) {
    && |s.memory| == |s.pool| && |s.slots| == |s.slotUsed|
    && PoolOk(s.frames, s.pool) && OwnersOk(s.frames, s.pages) && SlotsOk(s.pages, s.slotUsed) && AllBytes(s)
  }

  // Frame lists.

  function InsertAt(frames: seq<Frame>, h: nat, f: Frame): (r: seq<Frame>)
    requires h <= |frames|
    ensures forall x :: x in r <==> x == f || x in frames
  {
    frames[..h] + [f] + frames[h..]
  }

  function RemoveAt(frames: seq<Frame>, i: nat): (r: seq<Frame>)
    requires i < |frames|
    ensures |r| == |frames| - 1
  {
    frames[..i] + frames[i + 1..]
  }

  lemma RemovedMembers(frames: seq<Frame>, i: nat)
    requires i < |frames| && forall j, k :: 0 <= j < k < |frames| ==> frames[j].kpage != frames[k].kpage
    ensures forall f :: f in RemoveAt(frames, i) <==> f in frames && f.kpage != frames[i].kpage
    ensures var r := RemoveAt(frames, i); forall j, k :: 0 <= j < k < |r| ==> r[j].kpage != r[k].kpage
  {
    var r := RemoveAt(frames, i);
    forall j | 0 <= j < |r| ensures r[j] == frames[if j < i then j else j + 1] {
    }
    forall j | 0 <= j < |frames| && j != i ensures frames[j] in r {
      assert r[if j < i then j else j - 1] == frames[j];
    }
  }

  lemma PoolInsert(frames: seq<Frame>, pool: seq<bool>, h: nat, f: Frame)
    requires PoolOk(frames, pool) && h <= |frames| && f.kpage < |pool| && !pool[f.kpage]
    ensures PoolOk(InsertAt(frames, h, f), pool[f.kpage := true])
  {
    var r, b := InsertAt(frames, h, f), pool[f.kpage := true];
    assert forall x :: x in frames ==> x.kpage != f.kpage;
    forall i, j | 0 <= i < j < |r| ensures r[i].kpage != r[j].kpage {
      assert i != h ==> r[i] in frames;
      assert j != h ==> r[j] in frames;
    }
    forall k | 0 <= k < |b| && b[k] ensures exists x :: x in r && x.kpage == k {
      if k == f.kpage {
        assert f in r;
      } else {
        var x :| x in frames && x.kpage == k;
        assert x in r;
      }
    }
  }

  lemma PoolRemove(frames: seq<Frame>, pool: seq<bool>, i: nat)
    requires PoolOk(frames, pool) && i < |frames|
    ensures frames[i].kpage < |pool| && PoolOk(RemoveAt(frames, i), pool[frames[i].kpage := false])
  {
    RemovedMembers(frames, i);
    assert frames[i] in frames;
    var r, b := RemoveAt(frames, i), pool[frames[i].kpage := false];
    forall k | 0 <= k < |b| && b[k] ensures exists x :: x in r && x.kpage == k {
      var x :| x in frames && x.kpage == k;
      assert x in r;
    }
  }

  lemma OwnersInsert(frames: seq<Frame>, pages: map<PageId, Page>, h: nat, f: Frame, p: PageId, g: Page)
    requires OwnersOk(frames, pages) && h <= |frames| && f.owners == [p] && g.kpage == Some(f.kpage)
    requires p in pages ==> pages[p].kpage.None?
    ensures OwnersOk(InsertAt(frames, h, f), pages[p := g])
  {
    var r := InsertAt(frames, h, f);
    assert f in r;
    forall q | q in pages && q != p && pages[q].kpage.Some? ensures HasFrame(r, pages[q].kpage.value, q) {
      assert HasFrame(frames, pages[q].kpage.value, q);
      var x :| x in frames && x.kpage == pages[q].kpage.value && x.owners == [q];
      assert x in r;
    }
  }

  /** The page of a frame that goes. */
  ghost function Tenant(frames: seq<Frame>, i: nat): PageId
    requires i < |frames| && |frames[i].owners| == 1
  {
    frames[i].owners[0]
  }

  lemma OwnersRemove(frames: seq<Frame>, pool: seq<bool>, pages: map<PageId, Page>, i: nat, after: map<PageId, Page>)
    requires PoolOk(frames, pool) && OwnersOk(frames, pages) && i < |frames| && |frames[i].owners| == 1
    requires forall q :: q in pages && q != Tenant(frames, i) ==> q in after && after[q].kpage == pages[q].kpage
    requires forall q :: q in after && q != Tenant(frames, i) ==> q in pages
    requires Tenant(frames, i) in after ==> after[Tenant(frames, i)].kpage.None?
    ensures OwnersOk(RemoveAt(frames, i), after)
  {
    RemovedMembers(frames, i);
    var r, p := RemoveAt(frames, i), Tenant(frames, i);
    assert frames[i] in frames;
    forall f | f in r ensures |f.owners| == 1 && f.owners[0] in after && after[f.owners[0]].kpage == Some(f.kpage) {
      assert f in frames && f.kpage != frames[i].kpage;
    }
    forall q | q in after && after[q].kpage.Some? ensures HasFrame(r, after[q].kpage.value, q) {
      assert HasFrame(frames, pages[q].kpage.value, q);
      var x :| x in frames && x.kpage == pages[q].kpage.value && x.owners == [q];
      assert x.kpage != frames[i].kpage by { OneTenant(frames, pages, x, i); }
      assert x in r;
    }
  }

  lemma OneTenant(frames: seq<Frame>, pages: map<PageId, Page>, x: Frame, i: nat)
    requires i < |frames| && x in frames && |frames[i].owners| == 1
    requires forall j, k :: 0 <= j < k < |frames| ==> frames[j].kpage != frames[k].kpage
    ensures x.kpage == frames[i].kpage ==> x.owners == [Tenant(frames, i)]
  {
    var j :| 0 <= j < |frames| && frames[j] == x;
    assert j != i ==> x.kpage != frames[i].kpage;
    assert frames[i].owners == [Tenant(frames, i)];
  }

  // Swap slots.

  lemma SlotsSame(pages: map<PageId, Page>, slotUsed: seq<bool>, p: PageId, g: Page)
    requires SlotsOk(pages, slotUsed) && !Swapped(g) && (p in pages ==> !Swapped(pages[p]))
    ensures SlotsOk(pages[p := g], slotUsed)
  {
    var after := pages[p := g];
    forall m | 0 <= m < |slotUsed| && slotUsed[m] ensures exists q :: q in after && Swapped(after[q]) && after[q].slot == Some(m) {
      var q :| q in pages && Swapped(pages[q]) && pages[q].slot == Some(m);
      assert after[q] == pages[q];
    }
  }

  lemma SlotsTaken(pages: map<PageId, Page>, slotUsed: seq<bool>, p: PageId, g: Page, k: nat)
    requires SlotsOk(pages, slotUsed) && p in pages && !Swapped(pages[p])
    requires k < |slotUsed| && !slotUsed[k] && Swapped(g) && g.slot == Some(k)
    ensures SlotsOk(pages[p := g], slotUsed[k := true])
  {
    var after, used := pages[p := g], slotUsed[k := true];
    forall m | 0 <= m < |used| && used[m] ensures exists q :: q in after && Swapped(after[q]) && after[q].slot == Some(m) {
      if m == k {
        assert after[p] == g;
      } else {
        var q :| q in pages && Swapped(pages[q]) && pages[q].slot == Some(m);
        assert after[q] == pages[q];
      }
    }
  }

  /** The slot of a page that stops being swapped is free again; `after` may have lost
      the page altogether. */
  lemma SlotsFreed(pages: map<PageId, Page>, slotUsed: seq<bool>, p: PageId, after: map<PageId, Page>)
    requires SlotsOk(pages, slotUsed) && p in pages && Swapped(pages[p])
    requires forall q :: q in pages && q != p ==> q in after && after[q] == pages[q]
    requires forall q :: q in after && q != p ==> q in pages
    requires p in after ==> !Swapped(after[p])
    ensures SlotsOk(after, slotUsed[pages[p].slot.value := false])
  {
    var k := pages[p].slot.value;
    var used := slotUsed[k := false];
    forall m | 0 <= m < |used| && used[m] ensures exists q :: q in after && Swapped(after[q]) && after[q].slot == Some(m) {
      var q :| q in pages && Swapped(pages[q]) && pages[q].slot == Some(m);
      assert after[q] == pages[q];
    }
  }

  lemma SlotsDropped(pages: map<PageId, Page>, slotUsed: seq<bool>, p: PageId)
    requires SlotsOk(pages, slotUsed) && p in pages && !Swapped(pages[p])
    ensures SlotsOk(pages - {p}, slotUsed)
  {
    var after := pages - {p};
    forall m | 0 <= m < |slotUsed| && slotUsed[m] ensures exists q :: q in after && Swapped(after[q]) && after[q].slot == Some(m) {
      var q :| q in pages && Swapped(pages[q]) && pages[q].slot == Some(m);
      assert after[q] == pages[q];
    }
  }

  // The moves of one page.

  /** Frame `i` is evicted and its page never changed: the page is forgotten. */
  ghost function EvictClean(s: State, i: nat): (r: State)
    requires i < |s.frames| && |s.frames[i].owners| == 1 && Tenant(s.frames, i) in s.pages && s.frames[i].kpage < |s.pool|
  {
    var p, k := Tenant(s.frames, i), s.frames[i].kpage;
    s.(pages := s.pages[p := s.pages[p].(alloc := false, kpage := None, slot := None)],
       frames := RemoveAt(s.frames, i), pool := s.pool[k := false])
  }

  /** Frame `i` is evicted into the free slot `m`. */
  ghost function EvictDirty(s: State, i: nat, m: nat): (r: State)
    requires i < |s.frames| && |s.frames[i].owners| == 1 && Tenant(s.frames, i) in s.pages
    requires s.frames[i].kpage < |s.pool| && |s.memory| == |s.pool| && m < |s.slotUsed| && |s.slots| == |s.slotUsed|
  {
    var p, k := Tenant(s.frames, i), s.frames[i].kpage;
    s.(pages := s.pages[p := s.pages[p].(kpage := None, slot := Some(m))],
       frames := RemoveAt(s.frames, i), pool := s.pool[k := false],
       slotUsed := s.slotUsed[m := true], slots := s.slots[m := s.memory[k]])
  }

  /** Page `p` is loaded into the free pool page `k` with `data`. */
  ghost function LoadInto(s: State, p: PageId, h: nat, k: nat, data: seq<Byte>): (r: State)
    requires p in s.pages && h <= |s.frames| && k < |s.pool| && |s.memory| == |s.pool|
  {
    s.(pages := s.pages[p := s.pages[p].(alloc := true, kpage := Some(k))],
       frames := InsertAt(s.frames, h, Frame(k, false, [p])), pool := s.pool[k := true],
       memory := s.memory[k := data])
  }

  /** First load: from the file and zeros, clean. */
  ghost function LoadFirst(s: State, p: PageId, h: nat, k: nat): (r: State)
    requires p in s.pages && h <= |s.frames| && k < |s.pool| && |s.memory| == |s.pool| && |s.pages[p].backing| <= PGSIZE
  {
    LoadInto(s, p, h, k, Image(s.pages[p])).(dirty := s.dirty - {p})
  }

  /** Reload from the page's swap slot, which is given up; the page counts as dirty. */
  ghost function LoadBack(s: State, p: PageId, h: nat, k: nat): (r: State)
    requires p in s.pages && h <= |s.frames| && k < |s.pool| && |s.memory| == |s.pool|
    requires s.pages[p].slot.Some? && s.pages[p].slot.value < |s.slotUsed| && |s.slots| == |s.slotUsed|
  {
    var m := s.pages[p].slot.value;
    LoadInto(s, p, h, k, s.slots[m]).(slotUsed := s.slotUsed[m := false], dirty := s.dirty + {p})
  }

  function Poke(data: seq<Byte>, off: nat, b: Byte): (r: seq<Byte>)
    requires off < |data|
    ensures |r| == |data| && r[off] == b && forall i :: 0 <= i < |data| && i != off ==> r[i] == data[i]
  {
    data[..off] + [b] + data[off + 1..]
  }

  /** A store by the process to a resident page. */
  ghost function Store(s: State, p: PageId, k: nat, off: nat, b: Byte): (r: State)
    requires k < |s.memory| && off < |s.memory[k]| && p in s.flat && off < |s.flat[p]|
  {
    s.(memory := s.memory[k := Poke(s.memory[k], off, b)], dirty := s.dirty + {p}, flat := s.flat[p := Poke(s.flat[p], off, b)])
  }

  lemma BytesOther(s: State, r: State, q: PageId)
    requires q in s.pages && q in s.flat && BytesOk(s, q) && q in r.pages && q in r.flat
    requires r.pages[q] == s.pages[q] && r.flat[q] == s.flat[q] && (q in r.dirty <==> q in s.dirty)
    requires s.pages[q].kpage.Some? ==>
               var k := s.pages[q].kpage.value; k < |r.memory| && r.memory[k] == s.memory[k]
    requires Swapped(s.pages[q]) ==>
               var m := s.pages[q].slot.value; m < |r.slots| && r.slots[m] == s.slots[m]
    ensures BytesOk(r, q)
  {
  }

  lemma ResidentPool(s: State, q: PageId)
    requires PoolOk(s.frames, s.pool) && OwnersOk(s.frames, s.pages) && q in s.pages && s.pages[q].kpage.Some?
    ensures s.pages[q].kpage.value < |s.pool| && s.pool[s.pages[q].kpage.value]
  {
    assert HasFrame(s.frames, s.pages[q].kpage.value, q);
  }

  /** Two resident pages have different frames. */
  lemma Apart(s: State, p: PageId, q: PageId)
    requires PoolOk(s.frames, s.pool) && OwnersOk(s.frames, s.pages) && p != q
    requires p in s.pages && q in s.pages && s.pages[p].kpage.Some? && s.pages[q].kpage.Some?
    ensures s.pages[p].kpage != s.pages[q].kpage
  {
    var k, m := s.pages[p].kpage.value, s.pages[q].kpage.value;
    assert HasFrame(s.frames, k, p) && HasFrame(s.frames, m, q);
    var x :| x in s.frames && x.kpage == k && x.owners == [p];
    var i :| 0 <= i < |s.frames| && s.frames[i] == x;
    var y :| y in s.frames && y.kpage == m && y.owners == [q];
    OneTenant(s.frames, s.pages, y, i);
  }

  /** The page of frame `i` is resident there. */
  lemma TenantFacts(s: State, i: nat)
    requires Ok(s) && i < |s.frames|
    ensures var f := s.frames[i];
            && |f.owners| == 1 && f.owners[0] == Tenant(s.frames, i) && f.kpage < |s.pool|
            && Tenant(s.frames, i) in s.pages && s.pages[Tenant(s.frames, i)].kpage == Some(f.kpage)
            && BytesOk(s, Tenant(s.frames, i))
  {
    assert s.frames[i] in s.frames;
  }

  lemma EvictCleanBytes(s: State, i: nat)
    requires Ok(s) && i < |s.frames| && |s.frames[i].owners| == 1 && Tenant(s.frames, i) in s.pages
    requires s.frames[i].kpage < |s.pool| && BytesOk(s, Tenant(s.frames, i)) && s.pages[Tenant(s.frames, i)].kpage.Some?
    requires Tenant(s.frames, i) !in s.dirty
    ensures AllBytes(EvictClean(s, i))
  {
    hide PoolOk, OwnersOk, SlotsOk;
    var r := EvictClean(s, i);
    forall q | q in r.pages ensures BytesOk(r, q) {
      assert BytesOk(s, q);
    }
  }

  lemma EvictCleanKeeps(s: State, i: nat)
    requires Ok(s) && i < |s.frames| && |s.frames[i].owners| == 1 && Tenant(s.frames, i) !in s.dirty
    ensures Tenant(s.frames, i) in s.pages && s.frames[i].kpage < |s.pool| && Ok(EvictClean(s, i))
  {
    hide PoolOk, OwnersOk, SlotsOk, AllBytes, RemoveAt;
    TenantFacts(s, i);
    EvictCleanBytes(s, i);
    var p, r := Tenant(s.frames, i), EvictClean(s, i);
    PoolRemove(s.frames, s.pool, i);
    OwnersRemove(s.frames, s.pool, s.pages, i, r.pages);
    SlotsSame(s.pages, s.slotUsed, p, r.pages[p]);
  }

  lemma FreeSlotUnowned(s: State, q: PageId, m: nat)
    requires SlotsOk(s.pages, s.slotUsed) && q in s.pages && Swapped(s.pages[q]) && m < |s.slotUsed| && !s.slotUsed[m]
    ensures s.pages[q].slot != Some(m)
  {
  }

  lemma EvictDirtyBytes(s: State, i: nat, m: nat)
    requires Ok(s) && i < |s.frames| && |s.frames[i].owners| == 1 && Tenant(s.frames, i) in s.pages
    requires s.frames[i].kpage < |s.pool| && BytesOk(s, Tenant(s.frames, i))
    requires s.pages[Tenant(s.frames, i)].kpage == Some(s.frames[i].kpage)
    requires m < |s.slotUsed| && !s.slotUsed[m]
    ensures AllBytes(EvictDirty(s, i, m))
  {
    hide PoolOk, OwnersOk, SlotsOk;
    var r := EvictDirty(s, i, m);
    forall q | q in r.pages ensures BytesOk(r, q) {
      assert BytesOk(s, q);
      if Swapped(s.pages[q]) { FreeSlotUnowned(s, q, m); }
    }
  }

  lemma EvictDirtyKeeps(s: State, i: nat, m: nat)
    requires Ok(s) && i < |s.frames| && |s.frames[i].owners| == 1 && m < |s.slotUsed| && !s.slotUsed[m]
    ensures Tenant(s.frames, i) in s.pages && s.frames[i].kpage < |s.pool| && Ok(EvictDirty(s, i, m))
  {
    hide PoolOk, OwnersOk, SlotsOk, AllBytes, RemoveAt;
    TenantFacts(s, i);
    EvictDirtyBytes(s, i, m);
    var p, r := Tenant(s.frames, i), EvictDirty(s, i, m);
    PoolRemove(s.frames, s.pool, i);
    OwnersRemove(s.frames, s.pool, s.pages, i, r.pages);
    SlotsTaken(s.pages, s.slotUsed, p, r.pages[p], m);
  }

  /** The frames after a load. */
  lemma LoadFrames(s: State, p: PageId, h: nat, k: nat, data: seq<Byte>)
    requires Ok(s) && p in s.pages && s.pages[p].kpage.None? && h <= |s.frames| && k < |s.pool| && !s.pool[k]
    ensures var r := LoadInto(s, p, h, k, data); PoolOk(r.frames, r.pool) && OwnersOk(r.frames, r.pages)
  {
    hide PoolOk, OwnersOk, SlotsOk, AllBytes, InsertAt;
    var f := Frame(k, false, [p]);
    PoolInsert(s.frames, s.pool, h, f);
    OwnersInsert(s.frames, s.pages, h, f, p, s.pages[p].(alloc := true, kpage := Some(k)));
  }

  lemma LoadBytes(s: State, r: State, p: PageId, k: nat)
    requires Ok(s) && p in s.pages && k < |s.pool| && !s.pool[k] && BytesOk(s, p)
    requires r.pages == s.pages[p := s.pages[p].(alloc := true, kpage := Some(k))] && r.flat == s.flat && r.slots == s.slots
    requires r.memory == s.memory[k := s.flat[p]] && r.dirty - {p} == s.dirty - {p}
    requires p !in r.dirty ==> s.flat[p] == Image(s.pages[p])
    ensures AllBytes(r)
  {
    hide SlotsOk, PoolOk, OwnersOk;
    forall q | q in r.pages ensures BytesOk(r, q) {
      assert BytesOk(s, q);
      if q != p {
        assert q in r.dirty <==> q in r.dirty - {p};
        assert q in s.dirty <==> q in s.dirty - {p};
        if s.pages[q].kpage.Some? { ResidentPool(s, q); }
        hide BytesOk;
        LoadBytesOther(s, r, p, k, q);
      } else {
        assert r.memory[k] == s.flat[p];
      }
    }
  }

  lemma LoadBytesOther(s: State, r: State, p: PageId, k: nat, q: PageId)
    requires q != p && q in s.pages && q in s.flat && BytesOk(s, q) && p in s.flat && p in s.pages && k < |s.memory|
    requires r.pages == s.pages[p := s.pages[p].(alloc := true, kpage := Some(k))] && r.flat == s.flat && r.slots == s.slots
    requires r.memory == s.memory[k := s.flat[p]] && (q in r.dirty <==> q in s.dirty)
    requires s.pages[q].kpage != Some(k)
    ensures BytesOk(r, q)
  {
    BytesOther(s, r, q);
  }

  lemma LoadFirstKeeps(s: State, p: PageId, h: nat, k: nat)
    requires Ok(s) && p in s.pages && s.pages[p].kpage.None? && !s.pages[p].alloc
    requires h <= |s.frames| && k < |s.pool| && !s.pool[k]
    ensures |s.pages[p].backing| <= PGSIZE && Ok(LoadFirst(s, p, h, k))
  {
    hide PoolOk, OwnersOk, SlotsOk, InsertAt;
    assert BytesOk(s, p);
    var r := LoadFirst(s, p, h, k);
    LoadFrames(s, p, h, k, Image(s.pages[p]));
    LoadBytes(s, r, p, k);
    SlotsSame(s.pages, s.slotUsed, p, r.pages[p]);
    hide AllBytes;
  }

  lemma LoadBackKeeps(s: State, p: PageId, h: nat, k: nat)
    requires Ok(s) && p in s.pages && Swapped(s.pages[p])
    requires h <= |s.frames| && k < |s.pool| && !s.pool[k]
    ensures s.pages[p].slot.Some? && s.pages[p].slot.value < |s.slotUsed| && s.slotUsed[s.pages[p].slot.value]
    ensures Ok(LoadBack(s, p, h, k))
  {
    assert s.pages[p].slot.Some? && s.pages[p].slot.value < |s.slotUsed| && s.slotUsed[s.pages[p].slot.value];
    hide PoolOk, OwnersOk, SlotsOk, InsertAt;
    assert BytesOk(s, p);
    var r := LoadBack(s, p, h, k);
    LoadFrames(s, p, h, k, s.slots[s.pages[p].slot.value]);
    LoadBytes(s, r, p, k);
    SlotsFreed(s.pages, s.slotUsed, p, r.pages);
    hide AllBytes;
  }

  lemma StoreSelf(s: State, p: PageId, k: nat, off: nat, b: Byte)
    requires p in s.pages && p in s.flat && BytesOk(s, p) && s.pages[p].kpage == Some(k) && off < PGSIZE
    ensures k < |s.memory| && off < |s.memory[k]| && off < |s.flat[p]| && BytesOk(Store(s, p, k, off, b), p)
  {
  }

  lemma StoreBytes(s: State, p: PageId, k: nat, off: nat, b: Byte)
    requires Ok(s) && p in s.pages && s.pages[p].kpage == Some(k) && off < PGSIZE
    ensures k < |s.memory| && off < |s.memory[k]| && p in s.flat && off < |s.flat[p]| && AllBytes(Store(s, p, k, off, b))
  {
    hide SlotsOk, PoolOk, OwnersOk, BytesOk, Poke;
    assert BytesOk(s, p);
    StoreSelf(s, p, k, off, b);
    var r := Store(s, p, k, off, b);
    forall q | q in r.pages && q != p ensures BytesOk(r, q) {
      assert BytesOk(s, q);
      if s.pages[q].kpage.Some? { Apart(s, p, q); }
      StoreBytesOther(s, p, k, off, b, q);
    }
  }

  lemma StoreKeeps(s: State, p: PageId, k: nat, off: nat, b: Byte)
    requires Ok(s) && p in s.pages && s.pages[p].kpage == Some(k) && off < PGSIZE
    ensures k < |s.memory| && off < |s.memory[k]| && p in s.flat && off < |s.flat[p]| && Ok(Store(s, p, k, off, b))
  {
    hide SlotsOk, PoolOk, OwnersOk, AllBytes, Poke;
    StoreBytes(s, p, k, off, b);
  }

  lemma StoreBytesOther(s: State, p: PageId, k: nat, off: nat, b: Byte, q: PageId)
    requires q != p && q in s.pages && q in s.flat && BytesOk(s, q) && p in s.pages && p in s.flat
    requires k < |s.memory| && off < |s.memory[k]| && off < |s.flat[p]| && s.pages[q].kpage != Some(k)
    ensures BytesOk(Store(s, p, k, off, b), q)
  {
    BytesOther(s, Store(s, p, k, off, b), q);
  }

  /** A page that is only promised. */
  ghost function Promise(s: State, p: PageId, g: Page): (r: State)
    requires |g.backing| <= PGSIZE
  {
    s.(pages := s.pages[p := g], flat := s.flat[p := Image(g)])
  }

  lemma OwnersPromise(frames: seq<Frame>, pages: map<PageId, Page>, p: PageId, g: Page)
    requires OwnersOk(frames, pages) && p !in pages && g.kpage.None?
    ensures OwnersOk(frames, pages[p := g])
  {
  }

  lemma PromiseBytes(s: State, p: PageId, g: Page)
    requires AllBytes(s) && p !in s.pages && |g.backing| <= PGSIZE && !g.alloc && g.kpage.None? && g.slot.None?
    ensures AllBytes(Promise(s, p, g))
  {
    hide Image;
    var r := Promise(s, p, g);
    forall q | q in r.pages ensures BytesOk(r, q) {
      if q != p { assert BytesOk(s, q); BytesOther(s, r, q); }
    }
  }

  lemma PromiseKeeps(s: State, p: PageId, g: Page)
    requires Ok(s) && p !in s.pages && |g.backing| <= PGSIZE && !g.alloc && g.kpage.None? && g.slot.None?
    ensures Ok(Promise(s, p, g))
  {
    hide PoolOk, OwnersOk, SlotsOk, AllBytes;
    SlotsSame(s.pages, s.slotUsed, p, g);
    OwnersPromise(s.frames, s.pages, p, g);
    PromiseBytes(s, p, g);
  }

  // page_free.

  lemma BytesAt(s: State, p: PageId)
    requires AllBytes(s) && p in s.pages
    ensures p in s.flat && BytesOk(s, p)
  {
  }

  lemma OwnersDrop(frames: seq<Frame>, pages: map<PageId, Page>, p: PageId)
    requires OwnersOk(frames, pages) && p in pages && pages[p].kpage.None?
    ensures OwnersOk(frames, pages - {p})
  {
  }

  lemma DropBytes(s: State, r: State, p: PageId)
    requires AllBytes(s) && p in s.pages
    requires r.pages == s.pages - {p} && r.flat == s.flat - {p} && r.memory == s.memory && r.slots == s.slots && r.dirty == s.dirty
    ensures AllBytes(r)
  {
    forall q | q in r.pages ensures BytesOk(r, q) {
      assert BytesOk(s, q);
      BytesOther(s, r, q);
    }
  }

  /** A page that was never loaded goes. */
  ghost function DropUnloaded(s: State, p: PageId): (r: State) {
    s.(pages := s.pages - {p}, flat := s.flat - {p})
  }

  lemma DropUnloadedKeeps(s: State, p: PageId)
    requires Ok(s) && p in s.pages && !s.pages[p].alloc
    ensures Ok(DropUnloaded(s, p))
  {
    hide OwnersOk, PoolOk, SlotsOk, AllBytes;
    var r := DropUnloaded(s, p);
    assert s.pages[p].kpage.None? by { BytesAt(s, p); }
    OwnersDrop(s.frames, s.pages, p);
    DropBytes(s, r, p);
    SlotsDropped(s.pages, s.slotUsed, p);
  }

  /** A swapped page goes and gives up its slot. */
  ghost function DropSwapped(s: State, p: PageId): (r: State)
    requires p in s.pages && s.pages[p].slot.Some? && s.pages[p].slot.value < |s.slotUsed|
  {
    s.(pages := s.pages - {p}, flat := s.flat - {p}, slotUsed := s.slotUsed[s.pages[p].slot.value := false])
  }

  lemma DropSwappedKeeps(s: State, p: PageId)
    requires Ok(s) && p in s.pages && Swapped(s.pages[p])
    ensures s.pages[p].slot.Some? && s.pages[p].slot.value < |s.slotUsed| && Ok(DropSwapped(s, p))
  {
    hide OwnersOk, PoolOk, SlotsOk, AllBytes;
    BytesAt(s, p);
    var r := DropSwapped(s, p);
    OwnersDrop(s.frames, s.pages, p);
    DropBytes(s, r, p);
    SlotsFreed(s.pages, s.slotUsed, p, r.pages);
  }

  /** A resident page goes with its frame. */
  ghost function DropResident(s: State, p: PageId, i: nat): (r: State)
    requires i < |s.frames| && s.frames[i].kpage < |s.pool|
  {
    s.(pages := s.pages - {p}, flat := s.flat - {p},
       frames := RemoveAt(s.frames, i), pool := s.pool[s.frames[i].kpage := false])
  }

  lemma DropResidentKeeps(s: State, p: PageId, i: nat)
    requires Ok(s) && p in s.pages && s.pages[p].kpage.Some? && i < |s.frames| && s.frames[i].owners == [p]
    ensures s.frames[i].kpage < |s.pool| && Ok(DropResident(s, p, i))
  {
    hide OwnersOk, PoolOk, SlotsOk, AllBytes, RemoveAt;
    TenantFacts(s, i);
    var r := DropResident(s, p, i);
    DropBytes(s, r, p);
    PoolRemove(s.frames, s.pool, i);
    OwnersRemove(s.frames, s.pool, s.pages, i, r.pages);
    SlotsDropped(s.pages, s.slotUsed, p);
  }
}
