/** Whole runs of the paging state machine, under any order of moves. */
module PageRuns {

  import opened Clock
  import opened Sectors
  import opened Swapping
  import opened PageStates

  datatype Move =
    | Promised(p: PageId, g: Page)
    | LoadedFirst(p: PageId, h: nat, k: nat)
    | LoadedBack(p: PageId, h: nat, k: nat)
    | Stored(p: PageId, off: nat, b: Byte)
    | EvictedClean(i: nat)
    | EvictedDirty(i: nat, m: nat)
    | Pinned(i: nat, status: bool)
    | Dropped(p: PageId, i: nat)

  /** The tests that the code makes before each move. */
  ghost predicate Allowed(s: State, a: Move) {
    match a
    case Promised(p, g) => p !in s.pages && |g.backing| <= PGSIZE && !g.alloc && g.kpage.None? && g.slot.None?
    case LoadedFirst(p, h, k) =>
      p in s.pages && s.pages[p].kpage.None? && !s.pages[p].alloc && h <= |s.frames| && k < |s.pool| && !s.pool[k]
    case LoadedBack(p, h, k) =>
      p in s.pages && Swapped(s.pages[p]) && h <= |s.frames| && k < |s.pool| && !s.pool[k]
    case Stored(p, off, _) => p in s.pages && s.pages[p].kpage.Some? && s.pages[p].writable && off < PGSIZE
    case EvictedClean(i) => i < |s.frames| && !s.frames[i].pinned && |s.frames[i].owners| == 1 && Tenant(s.frames, i) !in s.dirty
    case EvictedDirty(i, m) =>
      i < |s.frames| && !s.frames[i].pinned && |s.frames[i].owners| == 1 && Tenant(s.frames, i) in s.dirty
      && m < |s.slotUsed| && !s.slotUsed[m]
    case Pinned(i, _) => i < |s.frames|
    case Dropped(p, i) => p in s.pages && (s.pages[p].kpage.Some? ==> i < |s.frames| && s.frames[i].owners == [p])
  }

  ghost function Pin(s: State, i: nat, status: bool): (r: State)
    requires i < |s.frames|
  {
    s.(frames := s.frames[i := s.frames[i].(pinned := status)])
  }

  lemma PinMember(frames: seq<Frame>, i: nat, status: bool, x: Frame)
    requires i < |frames| && x in frames
    ensures exists y :: y in frames[i := frames[i].(pinned := status)] && y.kpage == x.kpage && y.owners == x.owners
  {
    var r := frames[i := frames[i].(pinned := status)];
    var j :| 0 <= j < |frames| && frames[j] == x;
    assert r[j] in r;
  }

  lemma PinPool(frames: seq<Frame>, pool: seq<bool>, i: nat, status: bool)
    requires PoolOk(frames, pool) && i < |frames|
    ensures PoolOk(frames[i := frames[i].(pinned := status)], pool)
  {
    var r := frames[i := frames[i].(pinned := status)];
    assert frames[i] in frames;
    assert forall x :: x in r ==> x == r[i] || x in frames;
    forall k | 0 <= k < |pool| && pool[k] ensures exists x :: x in r && x.kpage == k {
      var x :| x in frames && x.kpage == k;
      PinMember(frames, i, status, x);
    }
  }

  lemma PinOwners(frames: seq<Frame>, pages: map<PageId, Page>, i: nat, status: bool)
    requires OwnersOk(frames, pages) && i < |frames|
    ensures OwnersOk(frames[i := frames[i].(pinned := status)], pages)
  {
    var r := frames[i := frames[i].(pinned := status)];
    assert frames[i] in frames;
    assert forall x :: x in r ==> x == r[i] || x in frames;
    forall p | p in pages && pages[p].kpage.Some? ensures HasFrame(r, pages[p].kpage.value, p) {
      assert HasFrame(frames, pages[p].kpage.value, p);
      var x :| x in frames && x.kpage == pages[p].kpage.value && x.owners == [p];
      PinMember(frames, i, status, x);
    }
  }

  lemma PinBytes(s: State, r: State)
    requires AllBytes(s) && r == s.(frames := r.frames)
    ensures AllBytes(r)
  {
    forall q | q in r.pages ensures BytesOk(r, q) {
      assert BytesOk(s, q);
    }
  }

  lemma PinKeeps(s: State, i: nat, status: bool)
    requires Ok(s) && i < |s.frames|
    ensures Ok(Pin(s, i, status))
  {
    hide PoolOk, OwnersOk, SlotsOk, AllBytes;
    PinPool(s.frames, s.pool, i, status);
    PinOwners(s.frames, s.pages, i, status);
    PinBytes(s, Pin(s, i, status));
  }

  /** The indices that a move uses are in range. */
  ghost predicate Fits(s: State, a: Move) {
    && |s.memory| == |s.pool| && |s.slots| == |s.slotUsed|
    && match a
       case LoadedFirst(p, _, _) => p in s.pages && |s.pages[p].backing| <= PGSIZE
       case LoadedBack(p, _, _) => p in s.pages && s.pages[p].slot.Some? && s.pages[p].slot.value < |s.slotUsed|
       case Stored(p, off, _) =>
         && p in s.pages && s.pages[p].kpage.Some? && s.pages[p].kpage.value < |s.memory| && off < |s.memory[s.pages[p].kpage.value]|
         && p in s.flat && off < |s.flat[p]|
       case EvictedClean(i) => i < |s.frames| && |s.frames[i].owners| == 1 && Tenant(s.frames, i) in s.pages && s.frames[i].kpage < |s.pool|
       case EvictedDirty(i, _) =>
         i < |s.frames| && |s.frames[i].owners| == 1 && Tenant(s.frames, i) in s.pages && s.frames[i].kpage < |s.pool|
       case Dropped(p, i) =>
         && p in s.pages
         && (s.pages[p].kpage.Some? ==> i < |s.frames| && s.frames[i].kpage < |s.pool|)
         && (Swapped(s.pages[p]) ==> s.pages[p].slot.Some? && s.pages[p].slot.value < |s.slotUsed|)
       case _ => true
  }

  lemma AllowedFits(s: State, a: Move)
    requires Ok(s) && Allowed(s, a)
    ensures Fits(s, a)
  {
    match a
    case LoadedFirst(p, _, _) => BytesAt(s, p);
    case LoadedBack(p, _, _) => BytesAt(s, p);
    case Stored(p, _, _) => BytesAt(s, p);
    case EvictedClean(i) => TenantFacts(s, i);
    case EvictedDirty(i, _) => TenantFacts(s, i);
    case Dropped(p, i) =>
      BytesAt(s, p);
      if s.pages[p].kpage.Some? { TenantFacts(s, i); }
    case _ =>
  }

  ghost predicate Moved(s: State, a: Move, r: State)
    requires Allowed(s, a) && Fits(s, a)
  {
    match a
    case Promised(p, g) => r == Promise(s, p, g)
    case LoadedFirst(p, h, k) => r == LoadFirst(s, p, h, k)
    case LoadedBack(p, h, k) => r == LoadBack(s, p, h, k)
    case Stored(p, off, b) => r == Store(s, p, s.pages[p].kpage.value, off, b)
    case EvictedClean(i) => r == EvictClean(s, i)
    case EvictedDirty(i, m) => r == EvictDirty(s, i, m)
    case Pinned(i, status) => r == Pin(s, i, status)
    case Dropped(p, i) =>
      if s.pages[p].kpage.Some? then r == DropResident(s, p, i)
      else if s.pages[p].alloc then r == DropSwapped(s, p)
      else r == DropUnloaded(s, p)
  }

  lemma MovedKeeps(s: State, a: Move, r: State)
    requires Ok(s) && Allowed(s, a) && Fits(s, a) && Moved(s, a, r)
    ensures Ok(r)
  {
    hide Ok;
    match a
    case Promised(p, g) => PromiseKeeps(s, p, g);
    case LoadedFirst(p, h, k) => LoadFirstKeeps(s, p, h, k);
    case LoadedBack(p, h, k) => LoadBackKeeps(s, p, h, k);
    case Stored(p, off, b) => StoreKeeps(s, p, s.pages[p].kpage.value, off, b);
    case EvictedClean(i) => EvictCleanKeeps(s, i);
    case EvictedDirty(i, m) => EvictDirtyKeeps(s, i, m);
    case Pinned(i, status) => PinKeeps(s, i, status);
    case Dropped(p, i) =>
      if s.pages[p].kpage.Some? {
        DropResidentKeeps(s, p, i);
      } else if s.pages[p].alloc {
        DropSwappedKeeps(s, p);
      } else {
        DropUnloadedKeeps(s, p);
      }
  }

  /** Memory without paging: only promises, stores and drops matter. */
  ghost function Flat(moves: seq<Move>): (r: map<PageId, seq<Byte>>) {
    if moves == [] then map[]
    else
      var before := Flat(moves[..|moves| - 1]);
      match moves[|moves| - 1]
      case Promised(p, g) => if |g.backing| <= PGSIZE then before[p := Image(g)] else before
      case Stored(p, off, b) => if p in before && off < |before[p]| then before[p := Poke(before[p], off, b)] else before
      case Dropped(p, _) => before - {p}
      case _ => before
  }

  ghost predicate IsStep(s: State, a: Move, r: State) {
    Allowed(s, a) && (Fits(s, a) ==> Moved(s, a, r))
  }

  ghost predicate IsRun(states: seq<State>, moves: seq<Move>) {
    && |states| == |moves| + 1
    && states[0].pages == map[] && states[0].frames == [] && states[0].flat == map[]
    && |states[0].memory| == |states[0].pool| && |states[0].slots| == |states[0].slotUsed|
    && (forall k :: 0 <= k < |states[0].pool| ==> !states[0].pool[k])
    && (forall k :: 0 <= k < |states[0].slotUsed| ==> !states[0].slotUsed[k])
    && forall i :: 0 <= i < |moves| ==> IsStep(states[i], moves[i], states[i + 1])
  }

  /** A move changes flat memory as if there were no paging. */
  lemma MovedFlat(s: State, a: Move, r: State, moves: seq<Move>)
    requires Ok(s) && Allowed(s, a) && Fits(s, a) && Moved(s, a, r) && s.flat == Flat(moves)
    ensures r.flat == Flat(moves + [a])
  {
    assert (moves + [a])[..|moves|] == moves;
    if a.Stored? { BytesAt(s, a.p); }
  }

  lemma StepFlat(s: State, a: Move, r: State, moves: seq<Move>)
    requires Ok(s) && s.flat == Flat(moves) && IsStep(s, a, r)
    ensures Ok(r) && r.flat == Flat(moves + [a])
  {
    hide Ok, Moved, Allowed, Fits, Flat;
    AllowedFits(s, a);
    MovedKeeps(s, a, r);
    MovedFlat(s, a, r, moves);
  }

  lemma {:induction false} RunFlat(states: seq<State>, moves: seq<Move>, k: nat)
    requires IsRun(states, moves) && k < |states|
    ensures Ok(states[k]) && states[k].flat == Flat(moves[..k])
  {
    if k == 0 {
      assert moves[..0] == [];
      BootOk(states[0]);
    } else {
      RunFlat(states, moves, k - 1);
      hide Ok, IsStep, Flat;
      assert IsStep(states[k - 1], moves[k - 1], states[k - 1 + 1]);
      StepFlat(states[k - 1], moves[k - 1], states[k], moves[..k - 1]);
      assert moves[..k - 1] + [moves[k - 1]] == moves[..k];
    }
  }

  lemma BootOk(s: State)
    requires s.pages == map[] && s.frames == [] && s.flat == map[]
    requires |s.memory| == |s.pool| && |s.slots| == |s.slotUsed|
    requires (forall k :: 0 <= k < |s.pool| ==> !s.pool[k]) && (forall k :: 0 <= k < |s.slotUsed| ==> !s.slotUsed[k])
    ensures Ok(s)
  {
  }

  /** In every run a resident page shows exactly the bytes of flat memory, a page that
      is not resident would be loaded with exactly those bytes, and a swapped page is
      alone in its slot. */
  lemma PagingInvisible(states: seq<State>, moves: seq<Move>, n: nat, p: PageId)
    requires IsRun(states, moves) && n < |states| && p in states[n].pages
    ensures var s, g := states[n], states[n].pages[p];
            && p in Flat(moves[..n]) && Ok(s)
            && (g.kpage.Some? ==> g.kpage.value < |s.memory| && s.memory[g.kpage.value] == Flat(moves[..n])[p])
            && (!g.alloc ==> |g.backing| <= PGSIZE && Image(g) == Flat(moves[..n])[p])
            && (Swapped(g) ==> && g.slot.Some? && g.slot.value < |s.slots| && s.slots[g.slot.value] == Flat(moves[..n])[p]
                               && forall q :: q in s.pages && q != p && Swapped(s.pages[q]) ==> s.pages[q].slot != g.slot)
  {
    RunFlat(states, moves, n);
    BytesAt(states[n], p);
  }
}
