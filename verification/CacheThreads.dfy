/** The buffer cache under any interleaving of any number of threads.

    The steps are those between acquiring and releasing locks. `cacheLock` protects the
    scan and the recency list, and each slot has a lock of its own that is kept while the
    thread waits for the disk and copies. */
module CacheThreads {
  import opened Sectors
  import opened Cache
  import opened Sequences

  datatype Op = Reading(sector: nat, offset: nat, size: nat)
              | Writing(sector: nat, offset: nat, bytes: seq<Byte>)

  datatype Thread = Outside
                  | Scanning(op: Op, i: nat)
                  | Missed(op: Op)
                  | Taken(op: Op, cb: nat)
                  | WrittenBack(op: Op, cb: nat)
                  | Copying(op: Op, cb: nat)
                  | Flushing(i: nat)
                  | Freeing(sector: nat, i: nat)

  /** What a caller can observe, in the order in which it takes effect. */
  datatype Event = Read(op: Op, got: seq<Byte>)
                 | Wrote(op: Op)
                 | Freed(sector: nat, left: seq<Byte>)

  type Tid = nat

  datatype Lock = Unlocked | Held(holder: Tid)

  datatype State = State(
    slots: seq<Slot>,
    locks: map<nat, Tid>,          // the slots whose lock is held, and by whom
    cacheLock: Lock,
    lru: seq<nat>,
    touched: seq<nat>,             // the slots in the order in which they were used
    disk: seq<seq<Byte>>,
    threads: map<Tid, Thread>,
    trace: seq<Event>)

  /** What an operation asks for is inside one sector of the device. */
  predicate OpOk(op: Op, sectors: nat) {
    op.sector < sectors && op.offset + (if op.Reading? then op.size else |op.bytes|) <= SECTOR_SIZE
  }

  /** The flat disk after one event. */
  ghost function Apply(flat: seq<seq<Byte>>, e: Event): (r: seq<seq<Byte>>)
    requires AllSectors(flat)
    ensures |r| == |flat| && AllSectors(r)
    ensures e.Read? ==> r == flat
    ensures e.Wrote? && e.op.Writing? && OpOk(e.op, |flat|) ==>
              forall s, k :: 0 <= s < |flat| && 0 <= k < SECTOR_SIZE ==>
                r[s][k] == if s == e.op.sector && e.op.offset <= k < e.op.offset + |e.op.bytes| then e.op.bytes[k - e.op.offset]
                           else flat[s][k]
    ensures e.Freed? ==> forall s :: 0 <= s < |flat| && s != e.sector ==> r[s] == flat[s]
  {
    match e
    case Read(_, _) => flat
    case Wrote(op) =>
      if op.Writing? && OpOk(op, |flat|) then flat[op.sector := Patch(flat[op.sector], op.offset, op.bytes)] else flat
    case Freed(s, left) => if s < |flat| && |left| == SECTOR_SIZE then flat[s := left] else flat
  }

  /** The flat disk after the events of a trace. */
  ghost function Replay(flat: seq<seq<Byte>>, trace: seq<Event>): (r: seq<seq<Byte>>)
    requires AllSectors(flat)
    ensures |r| == |flat| && AllSectors(r)
  {
    if trace == [] then flat else Apply(Replay(flat, trace[..|trace| - 1]), trace[|trace| - 1])
  }

  lemma ReplayNext(flat: seq<seq<Byte>>, trace: seq<Event>, e: Event)
    requires AllSectors(flat)
    ensures Replay(flat, trace + [e]) == Apply(Replay(flat, trace), e)
  {
    assert (trace + [e])[..|trace|] == trace;
  }

  /** The bytes that `op` reads from a flat disk. */
  ghost predicate Reads(flat: seq<seq<Byte>>, op: Op, got: seq<Byte>)
    requires AllSectors(flat)
  {
    op.Reading? && OpOk(op, |flat|) && got == flat[op.sector][op.offset..op.offset + op.size]
  }

  /** Every read of the trace returns what the writes before it left there. */
  ghost predicate Linear(flat: seq<seq<Byte>>, trace: seq<Event>)
    requires AllSectors(flat)
  {
    forall k :: 0 <= k < |trace| && trace[k].Read? ==> Reads(Replay(flat, trace[..k]), trace[k].op, trace[k].got)
  }

  lemma LinearNext(flat: seq<seq<Byte>>, trace: seq<Event>, e: Event)
    requires AllSectors(flat) && Linear(flat, trace)
    requires e.Read? ==> Reads(Replay(flat, trace), e.op, e.got)
    ensures Linear(flat, trace + [e])
  {
    var trace' := trace + [e];
    forall k | 0 <= k < |trace'| && trace'[k].Read?
      ensures Reads(Replay(flat, trace'[..k]), trace'[k].op, trace'[k].got)
    {
      if k < |trace| { assert trace'[..k] == trace[..k]; } else { assert trace'[..k] == trace; }
    }
  }

  // The steps of thread `t`, in the order of the code.

  ghost predicate Start(st: State, st': State, t: Tid, op: Op) {
    && t in st.threads && st.threads[t].Outside? && st.cacheLock == Unlocked && OpOk(op, |st.disk|)
    && st' == st.(cacheLock := Held(t), threads := st.threads[t := Scanning(op, 0)])
  }

  /** Looks at slot `i` under its lock. On a hit the lock is kept and the slot becomes
      the most recently used one. */
  ghost predicate Look(st: State, st': State, t: Tid) {
    && t in st.threads && st.threads[t].Scanning? && |st.slots| == CACHE_SIZE
    && var op, i := st.threads[t].op, st.threads[t].i;
    && i < CACHE_SIZE && i !in st.locks
    && st' ==
       if st.slots[i].valid && st.slots[i].sector == op.sector then
         st.(slots := st.slots[i := st.slots[i].(dirty := st.slots[i].dirty || op.Writing?)],
             locks := st.locks[i := t], lru := Touch(st.lru, i), touched := st.touched + [i], cacheLock := Unlocked,
             threads := st.threads[t := Copying(op, i)])
       else
         st.(threads := st.threads[t := if i + 1 < CACHE_SIZE then Scanning(op, i + 1) else Missed(op)])
  }

  /** Takes the slot at the front of the recency list. */
  ghost predicate Take(st: State, st': State, t: Tid) {
    && t in st.threads && st.threads[t].Missed? && |st.lru| > 0
    && var cb := st.lru[0];
    && cb !in st.locks
    && st' == st.(locks := st.locks[cb := t], lru := st.lru[1..] + [cb], touched := st.touched + [cb],
                  cacheLock := Unlocked,
                  threads := st.threads[t := Taken(st.threads[t].op, cb)])
  }

  ghost predicate WriteBack(st: State, st': State, t: Tid) {
    && t in st.threads && st.threads[t].Taken?
    && var cb := st.threads[t].cb;
    && cb < |st.slots| && var slot := st.slots[cb];
    && (slot.valid && slot.dirty ==> slot.sector < |st.disk|)
    && st' == st.(disk := if slot.valid && slot.dirty then st.disk[slot.sector := slot.data] else st.disk,
                  threads := st.threads[t := WrittenBack(st.threads[t].op, cb)])
  }

  ghost predicate Fill(st: State, st': State, t: Tid) {
    && t in st.threads && st.threads[t].WrittenBack?
    && var op, cb := st.threads[t].op, st.threads[t].cb;
    && cb < |st.slots| && op.sector < |st.disk|
    && st' == st.(slots := st.slots[cb := Slot(false, op.Writing?, op.sector, st.disk[op.sector])],
                  threads := st.threads[t := Copying(op, cb)])
  }

  /** Copies to or from the slot, makes it valid and releases its lock: the operation
      takes effect here. */
  ghost predicate Copy(st: State, st': State, t: Tid) {
    && t in st.threads && st.threads[t].Copying?
    && var op, cb := st.threads[t].op, st.threads[t].cb;
    && cb < |st.slots| && var slot := st.slots[cb];
    && |slot.data| == SECTOR_SIZE && OpOk(op, |st.disk|)
    && var data := if op.Reading? then slot.data else Patch(slot.data, op.offset, op.bytes);
    && st' == st.(slots := st.slots[cb := slot.(valid := true, data := data)], locks := st.locks - {cb},
                  threads := st.threads[t := Outside],
                  trace := st.trace + [if op.Reading? then Read(op, slot.data[op.offset..op.offset + op.size])
                                       else Wrote(op)])
  }

  ghost predicate StartFlush(st: State, st': State, t: Tid) {
    && t in st.threads && st.threads[t].Outside? && st.cacheLock == Unlocked
    && st' == st.(cacheLock := Held(t), threads := st.threads[t := Flushing(0)])
  }

  ghost predicate FlushOne(st: State, st': State, t: Tid) {
    && t in st.threads && st.threads[t].Flushing? && |st.slots| == CACHE_SIZE
    && var i := st.threads[t].i;
    && i < CACHE_SIZE && i !in st.locks && var slot := st.slots[i];
    && (slot.valid && slot.dirty ==> slot.sector < |st.disk|)
    && var out := slot.valid && slot.dirty;
    && st' == st.(disk := if out then st.disk[slot.sector := slot.data] else st.disk,
                  slots := if out then st.slots[i := slot.(dirty := false)] else st.slots,
                  threads := st.threads[t := Flushing(i + 1)])
  }

  ghost predicate EndFlush(st: State, st': State, t: Tid) {
    && t in st.threads && st.threads[t] == Flushing(CACHE_SIZE)
    && st' == st.(cacheLock := Unlocked, threads := st.threads[t := Outside])
  }

  ghost predicate StartFree(st: State, st': State, t: Tid, sector: nat) {
    && t in st.threads && st.threads[t].Outside? && st.cacheLock == Unlocked && sector < |st.disk|
    && st' == st.(cacheLock := Held(t), threads := st.threads[t := Freeing(sector, 0)])
  }

  /** Looks for the sector to drop; the scan ends at the slot that holds it. */
  ghost predicate FreeOne(st: State, st': State, t: Tid) {
    && t in st.threads && st.threads[t].Freeing? && |st.slots| == CACHE_SIZE
    && var s, i := st.threads[t].sector, st.threads[t].i;
    && s < |st.disk|
    && if i < CACHE_SIZE then
         && i !in st.locks
         && if st.slots[i].valid && st.slots[i].sector == s then
              st' == st.(slots := st.slots[i := st.slots[i].(valid := false, dirty := false)], cacheLock := Unlocked,
                         threads := st.threads[t := Outside], trace := st.trace + [Freed(s, st.disk[s])])
            else st' == st.(threads := st.threads[t := Freeing(s, i + 1)])
       else st' == st.(cacheLock := Unlocked, threads := st.threads[t := Outside],
                       trace := st.trace + [Freed(s, st.disk[s])])
  }

  /** A step of cache_read or cache_write. */
  ghost predicate AccessStep(st: State, st': State) {
    || (exists t, op :: Start(st, st', t, op))
    || (exists t :: Look(st, st', t)) || (exists t :: Take(st, st', t)) || (exists t :: WriteBack(st, st', t))
    || (exists t :: Fill(st, st', t)) || (exists t :: Copy(st, st', t))
  }

  /** A step of cache_flush or cache_free. */
  ghost predicate CleaningStep(st: State, st': State) {
    || (exists t :: StartFlush(st, st', t)) || (exists t :: FlushOne(st, st', t)) || (exists t :: EndFlush(st, st', t))
    || (exists t, s :: StartFree(st, st', t, s)) || (exists t :: FreeOne(st, st', t))
  }

  ghost predicate Next(st: State, st': State) {
    AccessStep(st, st') || CleaningStep(st, st')
  }

  ghost predicate Init(st: State) {
    && |st.slots| == CACHE_SIZE && (forall i :: 0 <= i < CACHE_SIZE ==> !st.slots[i].valid)
    && st.locks == map[] && st.cacheLock == Unlocked && IsRecencyList(st.lru)
    && AllSectors(st.disk) && (forall t :: t in st.threads ==> st.threads[t].Outside?) && st.trace == [] && st.touched == []
  }

  /** The thread holds the cache lock. */
  predicate Searching(th: Thread) {
    th.Scanning? || th.Missed? || th.Flushing? || th.Freeing?
  }

  /** The thread holds the lock of slot `cb`. */
  predicate InSlot(th: Thread) {
    th.Taken? || th.WrittenBack? || th.Copying?
  }

  ghost predicate LocksOk(locks: map<nat, Tid>, cacheLock: Lock, threads: map<Tid, Thread>) {
    && (forall i :: i in locks ==>
          i < CACHE_SIZE && locks[i] in threads && InSlot(threads[locks[i]]) && threads[locks[i]].cb == i)
    && (forall t :: t in threads && InSlot(threads[t]) ==> threads[t].cb in locks && locks[threads[t].cb] == t)
    && (forall t :: t in threads && Searching(threads[t]) ==> cacheLock == Held(t))
  }

  /** No valid slot but possibly `except` holds `sector`. */
  ghost predicate Nowhere(slots: seq<Slot>, sector: nat, except: int) {
    forall j :: 0 <= j < |slots| && j != except && slots[j].valid ==> slots[j].sector != sector
  }

  /** The slots before `i` are unlocked and do not hold `sector`. */
  ghost predicate Passed(st: State, sector: nat, i: nat)
    requires |st.slots| == CACHE_SIZE
  {
    i <= CACHE_SIZE
    && forall j :: 0 <= j < i ==> j !in st.locks && !(st.slots[j].valid && st.slots[j].sector == sector)
  }

  /** The slots before `i` are unlocked and clean. */
  ghost predicate Cleaned(st: State, i: nat)
    requires |st.slots| == CACHE_SIZE
  {
    i <= CACHE_SIZE && forall j :: 0 <= j < i ==> j !in st.locks && !(st.slots[j].valid && st.slots[j].dirty)
  }

  /** What thread `t` relies on. */
  ghost predicate ThreadOk(st: State, flat: seq<seq<Byte>>, th: Thread)
    requires |st.slots| == CACHE_SIZE && |st.disk| == |flat|
  {
    match th
    case Outside => true
    case Scanning(op, i) => OpOk(op, |flat|) && i < CACHE_SIZE && Passed(st, op.sector, i)
    case Missed(op) => OpOk(op, |flat|) && Passed(st, op.sector, CACHE_SIZE)
    case Taken(op, cb) => OpOk(op, |flat|) && cb < CACHE_SIZE && Nowhere(st.slots, op.sector, -1)
    case WrittenBack(op, cb) =>
      && OpOk(op, |flat|) && cb < CACHE_SIZE && Nowhere(st.slots, op.sector, -1)
      && (st.slots[cb].valid ==> st.slots[cb].sector < |flat| && st.disk[st.slots[cb].sector] == flat[st.slots[cb].sector])
    case Copying(op, cb) =>
      && OpOk(op, |flat|) && cb < CACHE_SIZE && Nowhere(st.slots, op.sector, cb)
      && st.slots[cb].sector == op.sector && st.slots[cb].data == flat[op.sector]
      && (op.Writing? ==> st.slots[cb].dirty)
      && (!st.slots[cb].dirty ==> st.disk[op.sector] == flat[op.sector])
    case Flushing(i) => Cleaned(st, i)
    case Freeing(s, i) => s < |flat| && Passed(st, s, i)
  }

  ghost predicate TargetsDiffer(threads: map<Tid, Thread>) {
    forall t, u :: t in threads && u in threads && t != u && InSlot(threads[t]) && InSlot(threads[u]) ==>
      threads[t].op.sector != threads[u].op.sector
  }

  ghost predicate ThreadsOk(st: State, flat: seq<seq<Byte>>)
    requires |st.slots| == CACHE_SIZE && |st.disk| == |flat|
  {
    forall t :: t in st.threads ==> ThreadOk(st, flat, st.threads[t])
  }

  ghost predicate Good(st: State, flat: seq<seq<Byte>>) {
    && |st.slots| == CACHE_SIZE && |st.disk| == |flat| && IsRecencyList(st.lru)
    && Coherent(st.slots, st.disk, flat)
    && LocksOk(st.locks, st.cacheLock, st.threads) && TargetsDiffer(st.threads)
    && ThreadsOk(st, flat)
  }

  /** The invariant: the cache is coherent with the flat disk that the trace describes,
      and every read so far returned what that disk held. */
  ghost predicate Inv(st: State, flat0: seq<seq<Byte>>) {
    && AllSectors(flat0) && Good(st, Replay(flat0, st.trace)) && Linear(flat0, st.trace)
    && ByRecency(st.lru, st.touched)
  }

  /** Two states that another thread `th` cannot tell apart: only slot `c` and the flat
      disk at `z` changed, and the device moved towards the flat disk. */
  ghost predicate Framed(st: State, st': State, flat: seq<seq<Byte>>, flat': seq<seq<Byte>>, th: Thread, c: nat, z: nat) {
    && |st.slots| == |st'.slots| == CACHE_SIZE && |st.disk| == |st'.disk| == |flat| == |flat'|
    && (forall j :: 0 <= j < CACHE_SIZE && j != c ==> st'.slots[j] == st.slots[j])
    && (forall x :: 0 <= x < |flat| && x != z ==>
          flat'[x] == flat[x] && (st'.disk[x] == st.disk[x] || st'.disk[x] == flat[x]))
    && c < CACHE_SIZE
    && (InSlot(th) ==>
          && th.cb != c && th.op.sector != z
          && (st'.slots[c].valid ==>
                (st.slots[c].valid && st'.slots[c].sector == st.slots[c].sector) || st'.slots[c].sector != th.op.sector)
          && (th.WrittenBack? && th.cb < CACHE_SIZE && st.slots[th.cb].valid ==> st.slots[th.cb].sector != z))
    && (th.Scanning? || th.Flushing? || th.Freeing? ==> th.i <= c)
    && !th.Missed?
    && (Searching(th) ==> st'.locks.Keys <= st.locks.Keys)
  }

  lemma ThreadFrame(st: State, st': State, flat: seq<seq<Byte>>, flat': seq<seq<Byte>>, th: Thread, c: nat, z: nat)
    requires |st.slots| == CACHE_SIZE && |st.disk| == |flat|
    requires ThreadOk(st, flat, th) && Framed(st, st', flat, flat', th, c, z)
    ensures ThreadOk(st', flat', th)
  {
  }

  /** A locked slot has not been passed by any scan. */
  lemma NotPassed(st: State, flat: seq<seq<Byte>>, th: Thread, c: nat)
    requires |st.slots| == CACHE_SIZE && |st.disk| == |flat| && ThreadOk(st, flat, th) && c in st.locks && c < CACHE_SIZE
    ensures th.Scanning? || th.Flushing? || th.Freeing? ==> th.i <= c
    ensures !th.Missed?
  {
  }

  // How the locks move.

  lemma LocksAcquire(locks: map<nat, Tid>, threads: map<Tid, Thread>, t: Tid, th: Thread)
    requires LocksOk(locks, Unlocked, threads) && t in threads && threads[t].Outside? && Searching(th)
    ensures LocksOk(locks, Held(t), threads[t := th])
  {
  }

  lemma LocksStay(locks: map<nat, Tid>, cacheLock: Lock, threads: map<Tid, Thread>, t: Tid, th: Thread)
    requires LocksOk(locks, cacheLock, threads) && t in threads
    requires (Searching(threads[t]) && Searching(th))
             || (InSlot(threads[t]) && InSlot(th) && th.cb == threads[t].cb)
    ensures LocksOk(locks, cacheLock, threads[t := th])
  {
  }

  lemma LocksRelease(locks: map<nat, Tid>, cacheLock: Lock, threads: map<Tid, Thread>, t: Tid)
    requires LocksOk(locks, cacheLock, threads) && t in threads && Searching(threads[t])
    ensures LocksOk(locks, Unlocked, threads[t := Outside])
  {
    forall u | u in threads && u != t ensures !Searching(threads[u]) {
      assert cacheLock == Held(t);
    }
  }

  lemma LocksHandOver(locks: map<nat, Tid>, cacheLock: Lock, threads: map<Tid, Thread>, t: Tid, th: Thread)
    requires LocksOk(locks, cacheLock, threads) && t in threads && Searching(threads[t])
    requires InSlot(th) && th.cb !in locks && th.cb < CACHE_SIZE
    ensures LocksOk(locks[th.cb := t], Unlocked, threads[t := th])
  {
    LocksRelease(locks, cacheLock, threads, t);
  }

  lemma LocksDrop(locks: map<nat, Tid>, cacheLock: Lock, threads: map<Tid, Thread>, t: Tid)
    requires LocksOk(locks, cacheLock, threads) && t in threads && InSlot(threads[t])
    ensures LocksOk(locks - {threads[t].cb}, cacheLock, threads[t := Outside])
  {
  }

  /** Only the holder of the cache lock searches. */
  lemma OneSearcher(locks: map<nat, Tid>, cacheLock: Lock, threads: map<Tid, Thread>, t: Tid, u: Tid)
    requires LocksOk(locks, cacheLock, threads) && t in threads && u in threads && t != u
    requires Searching(threads[t])
    ensures !Searching(threads[u])
  {
    assert cacheLock == Held(t);
  }

  /** Two threads are never in the same slot. */
  lemma OnePerSlot(locks: map<nat, Tid>, cacheLock: Lock, threads: map<Tid, Thread>, t: Tid, u: Tid)
    requires LocksOk(locks, cacheLock, threads) && t in threads && u in threads && t != u
    requires InSlot(threads[t]) && InSlot(threads[u])
    ensures threads[t].cb != threads[u].cb
  {
    assert locks[threads[t].cb] == t;
  }

  // What each step keeps.

  /** A thread that enters or leaves changes nothing that the others rely on. */
  lemma SameView(st: State, st': State, flat: seq<seq<Byte>>, th: Thread)
    requires |st.slots| == CACHE_SIZE && |st.disk| == |flat| && ThreadOk(st, flat, th)
    requires st'.slots == st.slots && st'.disk == st.disk && st'.locks == st.locks
    ensures ThreadOk(st', flat, th)
  {
  }

  lemma SameViewAll(st: State, st': State, flat: seq<seq<Byte>>, t: Tid)
    requires |st.slots| == CACHE_SIZE && |st.disk| == |flat| && ThreadsOk(st, flat)
    requires st'.slots == st.slots && st'.disk == st.disk && st'.locks == st.locks
    requires t in st.threads && t in st'.threads && st'.threads == st.threads[t := st'.threads[t]]
    requires ThreadOk(st', flat, st'.threads[t])
    ensures ThreadsOk(st', flat)
  {
    hide ThreadOk;
    forall u | u in st'.threads ensures ThreadOk(st', flat, st'.threads[u]) {
      if u != t { SameView(st, st', flat, st.threads[u]); }
    }
  }

  lemma TargetsFewer(threads: map<Tid, Thread>, t: Tid, th: Thread)
    requires TargetsDiffer(threads) && t in threads
    requires InSlot(th) ==> InSlot(threads[t]) && th.op == threads[t].op
    ensures TargetsDiffer(threads[t := th])
  {
  }

  lemma StartKeeps(st: State, st': State, t: Tid, op: Op, flat: seq<seq<Byte>>)
    requires Good(st, flat) && Start(st, st', t, op)
    ensures Good(st', flat)
  {
    hide Coherent, IsRecencyList, LocksOk, TargetsDiffer, ThreadsOk;
    LocksAcquire(st.locks, st.threads, t, Scanning(op, 0));
    TargetsFewer(st.threads, t, Scanning(op, 0));
    SameViewAll(st, st', flat, t);
  }

  lemma StartFlushKeeps(st: State, st': State, t: Tid, flat: seq<seq<Byte>>)
    requires Good(st, flat) && StartFlush(st, st', t)
    ensures Good(st', flat)
  {
    hide Coherent, IsRecencyList, LocksOk, TargetsDiffer, ThreadsOk;
    LocksAcquire(st.locks, st.threads, t, Flushing(0));
    TargetsFewer(st.threads, t, Flushing(0));
    SameViewAll(st, st', flat, t);
  }

  lemma StartFreeKeeps(st: State, st': State, t: Tid, s: nat, flat: seq<seq<Byte>>)
    requires Good(st, flat) && StartFree(st, st', t, s)
    ensures Good(st', flat)
  {
    hide Coherent, IsRecencyList, LocksOk, TargetsDiffer, ThreadsOk;
    LocksAcquire(st.locks, st.threads, t, Freeing(s, 0));
    TargetsFewer(st.threads, t, Freeing(s, 0));
    SameViewAll(st, st', flat, t);
  }

  /** With no dirty slot the device is the flat disk. */
  lemma CleanDisk(slots: seq<Slot>, disk: seq<seq<Byte>>, flat: seq<seq<Byte>>)
    requires Coherent(slots, disk, flat) && forall j :: 0 <= j < |slots| ==> !(slots[j].valid && slots[j].dirty)
    ensures disk == flat
  {
    assert forall s: nat :: !HeldDirty(slots, s);
  }

  lemma EndFlushKeeps(st: State, st': State, t: Tid, flat: seq<seq<Byte>>)
    requires Good(st, flat) && EndFlush(st, st', t)
    ensures Good(st', flat) && st'.disk == flat
  {
    assert ThreadOk(st, flat, st.threads[t]);
    CleanDisk(st.slots, st.disk, flat);
    hide Coherent, IsRecencyList, LocksOk, TargetsDiffer, ThreadsOk;
    LocksRelease(st.locks, st.cacheLock, st.threads, t);
    TargetsFewer(st.threads, t, Outside);
    SameViewAll(st, st', flat, t);
  }

  /** A step of `t` on slot `c`, seen from the other threads. */
  lemma FramedAll(st: State, st': State, flat: seq<seq<Byte>>, flat': seq<seq<Byte>>, t: Tid, c: nat, z: nat)
    requires |st.slots| == CACHE_SIZE && |st.disk| == |flat| && ThreadsOk(st, flat)
    requires t in st.threads && t in st'.threads && st'.threads == st.threads[t := st'.threads[t]]
    requires forall u :: u in st.threads && u != t ==> Framed(st, st', flat, flat', st.threads[u], c, z)
    requires |st'.slots| == CACHE_SIZE && |st'.disk| == |flat'| && ThreadOk(st', flat', st'.threads[t])
    ensures ThreadsOk(st', flat')
  {
    hide ThreadOk, Framed;
    forall u | u in st'.threads ensures ThreadOk(st', flat', st'.threads[u]) {
      if u != t { ThreadFrame(st, st', flat, flat', st.threads[u], c, z); }
    }
  }

  /** Marking a valid slot dirty. */
  lemma DirtyKeeps(slots: seq<Slot>, disk: seq<seq<Byte>>, flat: seq<seq<Byte>>, i: nat, dirty: bool)
    requires Coherent(slots, disk, flat) && i < |slots| && slots[i].valid
    ensures Coherent(slots[i := slots[i].(dirty := slots[i].dirty || dirty)], disk, flat)
  {
    var slots' := slots[i := slots[i].(dirty := slots[i].dirty || dirty)];
    forall s | 0 <= s < |disk| && disk[s] != flat[s] ensures HeldDirty(slots', s) {
      assert HeldDirty(slots, s);
      var j :| 0 <= j < |slots| && slots[j].valid && slots[j].dirty && slots[j].sector == s;
      assert slots'[j].sector == s;
    }
  }

  /** What a hit means for the thread that finds it and for one that is in another slot. */
  lemma HitSelf(st: State, st': State, t: Tid, flat: seq<seq<Byte>>)
    requires Good(st, flat) && Look(st, st', t) && st'.threads[t].Copying?
    ensures ThreadOk(st', flat, st'.threads[t])
  {
    assert ThreadOk(st, flat, st.threads[t]);
  }

  lemma HitOther(st: State, st': State, t: Tid, u: Tid, flat: seq<seq<Byte>>)
    requires Good(st, flat) && Look(st, st', t) && st'.threads[t].Copying? && u in st.threads && u != t
    ensures Framed(st, st', flat, flat, st.threads[u], st.threads[t].i, |flat|)
    ensures InSlot(st.threads[u]) ==> st.threads[u].op.sector != st.threads[t].op.sector
  {
    assert ThreadOk(st, flat, st.threads[t]) && ThreadOk(st, flat, st.threads[u]);
    OneSearcher(st.locks, st.cacheLock, st.threads, t, u);
    hide Coherent, IsRecencyList;
  }

  lemma HitKeeps(st: State, st': State, t: Tid, flat: seq<seq<Byte>>)
    requires Good(st, flat) && Look(st, st', t) && st'.threads[t].Copying?
    ensures Good(st', flat)
  {
    hide Coherent, IsRecencyList, LocksOk, ThreadsOk, Framed, ThreadOk;
    var op, i := st.threads[t].op, st.threads[t].i;
    TouchKeeps(st.lru, i);
    DirtyKeeps(st.slots, st.disk, flat, i, op.Writing?);
    HitSelf(st, st', t, flat);
    forall u | u in st.threads && u != t
      ensures Framed(st, st', flat, flat, st.threads[u], i, |flat|)
      ensures InSlot(st.threads[u]) ==> st.threads[u].op.sector != op.sector
    {
      HitOther(st, st', t, u, flat);
    }
    FramedAll(st, st', flat, flat, t, i, |flat|);
    LocksHandOver(st.locks, st.cacheLock, st.threads, t, Copying(op, i));
  }

  lemma LookKeeps(st: State, st': State, t: Tid, flat: seq<seq<Byte>>)
    requires Good(st, flat) && Look(st, st', t)
    ensures Good(st', flat)
  {
    if st'.threads[t].Copying? {
      HitKeeps(st, st', t, flat);
    } else {
      assert ThreadOk(st, flat, st.threads[t]);
      assert ThreadOk(st', flat, st'.threads[t]);
      hide Coherent, IsRecencyList, LocksOk, TargetsDiffer, ThreadsOk;
      LocksStay(st.locks, st.cacheLock, st.threads, t, st'.threads[t]);
      TargetsFewer(st.threads, t, st'.threads[t]);
      SameViewAll(st, st', flat, t);
    }
  }

  /** A miss found every slot unlocked. */
  lemma AllUnlocked(st: State, t: Tid, flat: seq<seq<Byte>>)
    requires Good(st, flat) && t in st.threads
    requires st.threads[t].Missed? || st.threads[t] == Flushing(CACHE_SIZE)
             || (st.threads[t].Freeing? && st.threads[t].i == CACHE_SIZE)
    ensures st.locks == map[] && forall u :: u in st.threads ==> !InSlot(st.threads[u])
  {
    hide Coherent, IsRecencyList;
    assert ThreadOk(st, flat, st.threads[t]);
    assert forall j :: j in st.locks ==> j < CACHE_SIZE;
  }

  lemma TakeOther(st: State, st': State, t: Tid, u: Tid, flat: seq<seq<Byte>>)
    requires Good(st, flat) && Take(st, st', t) && u in st.threads && u != t
    ensures st.threads[u].Outside?
  {
    AllUnlocked(st, t, flat);
    OneSearcher(st.locks, st.cacheLock, st.threads, t, u);
  }

  lemma TakeKeeps(st: State, st': State, t: Tid, flat: seq<seq<Byte>>)
    requires Good(st, flat) && Take(st, st', t)
    ensures Good(st', flat)
  {
    var cb := st.lru[0];
    assert cb in st.lru;
    TouchKeeps(st.lru, cb);
    assert Touch(st.lru, cb) == st.lru[1..] + [cb];
    assert ThreadOk(st, flat, st.threads[t]);
    assert ThreadOk(st', flat, st'.threads[t]);
    hide Coherent, IsRecencyList, LocksOk;
    forall u | u in st.threads && u != t ensures st.threads[u].Outside? {
      TakeOther(st, st', t, u, flat);
    }
    LocksHandOver(st.locks, st.cacheLock, st.threads, t, Taken(st.threads[t].op, cb));
  }

  /** Writing a valid slot back to the device. */
  lemma WriteOutKeeps(slots: seq<Slot>, disk: seq<seq<Byte>>, flat: seq<seq<Byte>>, i: nat)
    requires Coherent(slots, disk, flat) && i < |slots| && slots[i].valid
    ensures Coherent(slots, disk[slots[i].sector := slots[i].data], flat)
    ensures Coherent(slots[i := slots[i].(dirty := false)], disk[slots[i].sector := slots[i].data], flat)
    ensures slots[i].sector < |flat| == |disk| && slots[i].data == flat[slots[i].sector]
    ensures !slots[i].dirty ==> disk[slots[i].sector] == flat[slots[i].sector]
  {
    var disk' := disk[slots[i].sector := slots[i].data];
    var slots' := slots[i := slots[i].(dirty := false)];
    forall s | 0 <= s < |disk| && disk'[s] != flat[s] ensures HeldDirty(slots, s) && HeldDirty(slots', s) {
      assert HeldDirty(slots, s);
      var j :| 0 <= j < |slots| && slots[j].valid && slots[j].dirty && slots[j].sector == s;
      assert slots'[j].sector == s;
    }
  }

  /** A thread that is in slot `c` does not disturb one that is not. */
  lemma ElsewhereFramed(st: State, t: Tid, u: Tid, flat: seq<seq<Byte>>)
    requires Good(st, flat) && t in st.threads && InSlot(st.threads[t]) && u in st.threads && u != t
    ensures InSlot(st.threads[u]) ==> st.threads[u].cb != st.threads[t].cb
                                      && st.threads[u].op.sector != st.threads[t].op.sector
    ensures st.threads[u].Scanning? || st.threads[u].Flushing? || st.threads[u].Freeing? ==>
              st.threads[u].i <= st.threads[t].cb
    ensures !st.threads[u].Missed?
    ensures ThreadOk(st, flat, st.threads[t]) && ThreadOk(st, flat, st.threads[u])
    ensures st.threads[t].cb in st.locks && st.threads[t].cb < CACHE_SIZE
  {
    hide Coherent, IsRecencyList;
    NotPassed(st, flat, st.threads[u], st.threads[t].cb);
    if InSlot(st.threads[u]) { OnePerSlot(st.locks, st.cacheLock, st.threads, t, u); }
  }

  lemma WriteBackOther(st: State, st': State, t: Tid, u: Tid, flat: seq<seq<Byte>>)
    requires Good(st, flat) && WriteBack(st, st', t) && u in st.threads && u != t
    ensures Framed(st, st', flat, flat, st.threads[u], st.threads[t].cb, |flat|)
  {
    var cb := st.threads[t].cb;
    if st.slots[cb].valid { WriteOutKeeps(st.slots, st.disk, flat, cb); }
    hide Coherent, IsRecencyList, LocksOk, ThreadsOk, TargetsDiffer;
    ElsewhereFramed(st, t, u, flat);
  }

  lemma WriteBackKeeps(st: State, st': State, t: Tid, flat: seq<seq<Byte>>)
    requires Good(st, flat) && WriteBack(st, st', t)
    ensures Good(st', flat)
  {
    var cb := st.threads[t].cb;
    if st.slots[cb].valid { WriteOutKeeps(st.slots, st.disk, flat, cb); }
    assert ThreadOk(st, flat, st.threads[t]);
    assert ThreadOk(st', flat, st'.threads[t]);
    hide Coherent, IsRecencyList, LocksOk, ThreadsOk, Framed, ThreadOk;
    forall u | u in st.threads && u != t ensures Framed(st, st', flat, flat, st.threads[u], cb, |flat|) {
      WriteBackOther(st, st', t, u, flat);
    }
    FramedAll(st, st', flat, flat, t, cb, |flat|);
    LocksStay(st.locks, st.cacheLock, st.threads, t, st'.threads[t]);
    TargetsFewer(st.threads, t, st'.threads[t]);
  }

  /** A slot that is written back can be reused. */
  lemma ReuseKeeps(slots: seq<Slot>, disk: seq<seq<Byte>>, flat: seq<seq<Byte>>, i: nat, slot: Slot)
    requires Coherent(slots, disk, flat) && i < |slots| && !slot.valid
    requires slots[i].valid ==> slots[i].sector < |flat| && disk[slots[i].sector] == flat[slots[i].sector]
    ensures Coherent(slots[i := slot], disk, flat)
  {
    var slots' := slots[i := slot];
    forall s | 0 <= s < |disk| && disk[s] != flat[s] ensures HeldDirty(slots', s) {
      assert HeldDirty(slots, s);
      var j :| 0 <= j < |slots| && slots[j].valid && slots[j].dirty && slots[j].sector == s;
      assert slots'[j].sector == s;
    }
  }

  /** A sector that no valid slot holds is up to date on the device. */
  lemma NowhereOnDisk(slots: seq<Slot>, disk: seq<seq<Byte>>, flat: seq<seq<Byte>>, s: nat)
    requires Coherent(slots, disk, flat) && s < |flat| && Nowhere(slots, s, -1)
    ensures disk[s] == flat[s]
  {
    assert !HeldDirty(slots, s);
  }

  lemma FillOther(st: State, st': State, t: Tid, u: Tid, flat: seq<seq<Byte>>)
    requires Good(st, flat) && Fill(st, st', t) && u in st.threads && u != t
    ensures Framed(st, st', flat, flat, st.threads[u], st.threads[t].cb, |flat|)
  {
    hide Coherent, IsRecencyList, LocksOk, ThreadsOk, TargetsDiffer;
    ElsewhereFramed(st, t, u, flat);
  }

  lemma FillKeeps(st: State, st': State, t: Tid, flat: seq<seq<Byte>>)
    requires Good(st, flat) && Fill(st, st', t)
    ensures Good(st', flat)
  {
    var op, cb := st.threads[t].op, st.threads[t].cb;
    assert ThreadOk(st, flat, st.threads[t]);
    NowhereOnDisk(st.slots, st.disk, flat, op.sector);
    ReuseKeeps(st.slots, st.disk, flat, cb, st'.slots[cb]);
    assert ThreadOk(st', flat, st'.threads[t]);
    hide Coherent, IsRecencyList, LocksOk, ThreadsOk, Framed, ThreadOk;
    forall u | u in st.threads && u != t ensures Framed(st, st', flat, flat, st.threads[u], cb, |flat|) {
      FillOther(st, st', t, u, flat);
    }
    FramedAll(st, st', flat, flat, t, cb, |flat|);
    LocksStay(st.locks, st.cacheLock, st.threads, t, st'.threads[t]);
    TargetsFewer(st.threads, t, st'.threads[t]);
  }

  /** The copy: slot `i` becomes valid with `data`, and so does the flat disk. */
  lemma CopyCoherent(slots: seq<Slot>, disk: seq<seq<Byte>>, flat: seq<seq<Byte>>, i: nat, data: seq<Byte>)
    requires Coherent(slots, disk, flat) && i < |slots| && slots[i].sector < |flat| && |data| == SECTOR_SIZE
    requires Nowhere(slots, slots[i].sector, i)
    requires !slots[i].dirty ==> data == disk[slots[i].sector]
    ensures Coherent(slots[i := slots[i].(valid := true, data := data)], disk, flat[slots[i].sector := data])
  {
    var slots' := slots[i := slots[i].(valid := true, data := data)];
    var flat' := flat[slots[i].sector := data];
    forall s | 0 <= s < |disk| && disk[s] != flat'[s] ensures HeldDirty(slots', s) {
      if s == slots[i].sector {
        assert slots'[i].valid && slots'[i].dirty && slots'[i].sector == s;
      } else {
        assert HeldDirty(slots, s);
        var j :| 0 <= j < |slots| && slots[j].valid && slots[j].dirty && slots[j].sector == s;
        assert slots'[j].sector == s;
      }
    }
  }

  lemma CopyOther(st: State, st': State, t: Tid, u: Tid, flat: seq<seq<Byte>>, flat': seq<seq<Byte>>)
    requires Good(st, flat) && Copy(st, st', t) && u in st.threads && u != t
    requires |flat'| == |flat| && forall x :: 0 <= x < |flat| && x != st.threads[t].op.sector ==> flat'[x] == flat[x]
    ensures Framed(st, st', flat, flat', st.threads[u], st.threads[t].cb, st.threads[t].op.sector)
  {
    hide Coherent, IsRecencyList, LocksOk, ThreadsOk, TargetsDiffer;
    ElsewhereFramed(st, t, u, flat);
  }

  /** The flat disk after a copy, in the cache and in the trace. */
  lemma CopyFlat(st: State, st': State, t: Tid, flat: seq<seq<Byte>>)
    requires Good(st, flat) && AllSectors(flat) && Copy(st, st', t)
    ensures var op, cb := st.threads[t].op, st.threads[t].cb;
            var flat' := Apply(flat, st'.trace[|st.trace|]);
            && flat' == flat[op.sector := st'.slots[cb].data] && Coherent(st'.slots, st'.disk, flat')
            && ThreadOk(st, flat, st.threads[t]) && ThreadOk(st', flat', st'.threads[t])
    ensures st'.trace[|st.trace|].Read? ==> Reads(flat, st.threads[t].op, st'.trace[|st.trace|].got)
  {
    var op, cb := st.threads[t].op, st.threads[t].cb;
    assert ThreadOk(st, flat, st.threads[t]);
    CopyCoherent(st.slots, st.disk, flat, cb, st'.slots[cb].data);
  }

  lemma CopyKeeps(st: State, st': State, t: Tid, flat: seq<seq<Byte>>)
    requires Good(st, flat) && AllSectors(flat) && Copy(st, st', t)
    ensures Good(st', Apply(flat, st'.trace[|st.trace|]))
    ensures st'.trace[|st.trace|].Read? ==> Reads(flat, st.threads[t].op, st'.trace[|st.trace|].got)
  {
    hide Coherent, IsRecencyList, LocksOk, ThreadsOk, ThreadOk, Framed, TargetsDiffer, Apply, Reads;
    var op, cb := st.threads[t].op, st.threads[t].cb;
    CopyFlat(st, st', t, flat);
    var flat' := Apply(flat, st'.trace[|st.trace|]);
    forall u | u in st.threads && u != t ensures Framed(st, st', flat, flat', st.threads[u], cb, op.sector) {
      CopyOther(st, st', t, u, flat, flat');
    }
    FramedAll(st, st', flat, flat', t, cb, op.sector);
    LocksDrop(st.locks, st.cacheLock, st.threads, t);
    TargetsFewer(st.threads, t, Outside);
  }

  lemma FlushOneOther(st: State, st': State, t: Tid, u: Tid, flat: seq<seq<Byte>>)
    requires Good(st, flat) && FlushOne(st, st', t) && u in st.threads && u != t
    ensures Framed(st, st', flat, flat, st.threads[u], st.threads[t].i, |flat|)
  {
    var i := st.threads[t].i;
    if st.slots[i].valid { WriteOutKeeps(st.slots, st.disk, flat, i); }
    OneSearcher(st.locks, st.cacheLock, st.threads, t, u);
    hide Coherent, IsRecencyList, ThreadsOk, TargetsDiffer;
  }

  lemma FlushOneKeeps(st: State, st': State, t: Tid, flat: seq<seq<Byte>>)
    requires Good(st, flat) && FlushOne(st, st', t)
    ensures Good(st', flat)
  {
    var i := st.threads[t].i;
    assert ThreadOk(st, flat, st.threads[t]);
    assert ThreadOk(st', flat, st'.threads[t]);
    if st.slots[i].valid { WriteOutKeeps(st.slots, st.disk, flat, i); }
    hide Coherent, IsRecencyList, LocksOk, ThreadsOk, Framed, ThreadOk;
    forall u | u in st.threads && u != t ensures Framed(st, st', flat, flat, st.threads[u], i, |flat|) {
      FlushOneOther(st, st', t, u, flat);
    }
    FramedAll(st, st', flat, flat, t, i, |flat|);
    LocksStay(st.locks, st.cacheLock, st.threads, t, st'.threads[t]);
    TargetsFewer(st.threads, t, st'.threads[t]);
  }

  /** Dropping the slot that holds a sector: the device's copy is what is left. */
  lemma DropCoherent(slots: seq<Slot>, disk: seq<seq<Byte>>, flat: seq<seq<Byte>>, i: nat)
    requires Coherent(slots, disk, flat) && i < |slots| && slots[i].valid
    ensures slots[i].sector < |flat|
    ensures Coherent(slots[i := slots[i].(valid := false, dirty := false)], disk,
                     flat[slots[i].sector := disk[slots[i].sector]])
  {
    var z := slots[i].sector;
    var slots' := slots[i := slots[i].(valid := false, dirty := false)];
    var flat' := flat[z := disk[z]];
    forall s | 0 <= s < |disk| && disk[s] != flat'[s] ensures HeldDirty(slots', s) {
      assert HeldDirty(slots, s);
      var j :| 0 <= j < |slots| && slots[j].valid && slots[j].dirty && slots[j].sector == s;
      assert slots'[j].sector == s;
    }
  }

  lemma DropOther(st: State, st': State, t: Tid, u: Tid, flat: seq<seq<Byte>>)
    requires Good(st, flat) && FreeOne(st, st', t) && u in st.threads && u != t
    requires var s, i := st.threads[t].sector, st.threads[t].i;
             i < CACHE_SIZE && st.slots[i].valid && st.slots[i].sector == s
    ensures var s, i := st.threads[t].sector, st.threads[t].i;
            Framed(st, st', flat, flat[s := st.disk[s]], st.threads[u], i, s)
  {
    OneSearcher(st.locks, st.cacheLock, st.threads, t, u);
    assert ThreadOk(st, flat, st.threads[u]);
    var i := st.threads[t].i;
    assert InSlot(st.threads[u]) ==> st.threads[u].cb != i;
    assert Unique(st.slots);
    hide Coherent, IsRecencyList, LocksOk, ThreadsOk, TargetsDiffer;
  }

  lemma DropKeeps(st: State, st': State, t: Tid, flat: seq<seq<Byte>>)
    requires Good(st, flat) && FreeOne(st, st', t)
    requires var s, i := st.threads[t].sector, st.threads[t].i;
             i < CACHE_SIZE && st.slots[i].valid && st.slots[i].sector == s
    ensures var s := st.threads[t].sector; Good(st', flat[s := st.disk[s]])
  {
    var s, i := st.threads[t].sector, st.threads[t].i;
    var flat' := flat[s := st.disk[s]];
    DropCoherent(st.slots, st.disk, flat, i);
    hide Coherent, IsRecencyList, LocksOk, ThreadsOk, Framed, TargetsDiffer;
    forall u | u in st.threads && u != t ensures Framed(st, st', flat, flat', st.threads[u], i, s) {
      DropOther(st, st', t, u, flat);
    }
    FramedAll(st, st', flat, flat', t, i, s);
    LocksRelease(st.locks, st.cacheLock, st.threads, t);
    TargetsFewer(st.threads, t, Outside);
  }

  /** Freeing moves past a slot that does not hold the sector. */
  lemma PassSlotKeeps(st: State, st': State, t: Tid, flat: seq<seq<Byte>>)
    requires Good(st, flat) && FreeOne(st, st', t)
    requires var s, i := st.threads[t].sector, st.threads[t].i;
             i < CACHE_SIZE && !(st.slots[i].valid && st.slots[i].sector == s)
    ensures st'.trace == st.trace && Good(st', flat)
  {
    assert ThreadOk(st, flat, st.threads[t]);
    assert ThreadOk(st', flat, st'.threads[t]);
    hide Coherent, IsRecencyList, LocksOk, TargetsDiffer, ThreadsOk;
    LocksStay(st.locks, st.cacheLock, st.threads, t, st'.threads[t]);
    TargetsFewer(st.threads, t, st'.threads[t]);
    SameViewAll(st, st', flat, t);
  }

  /** Freeing ends when no slot holds the sector. */
  lemma EndFreeKeeps(st: State, st': State, t: Tid, flat: seq<seq<Byte>>)
    requires Good(st, flat) && FreeOne(st, st', t) && st.threads[t].i >= CACHE_SIZE
    ensures var s := st.threads[t].sector; flat[s := st.disk[s]] == flat && Good(st', flat)
  {
    var s := st.threads[t].sector;
    assert ThreadOk(st, flat, st.threads[t]);
    NowhereOnDisk(st.slots, st.disk, flat, s);
    assert flat[s := st.disk[s]] == flat;
    hide Coherent, IsRecencyList, LocksOk, TargetsDiffer, ThreadsOk;
    LocksRelease(st.locks, st.cacheLock, st.threads, t);
    TargetsFewer(st.threads, t, Outside);
    SameViewAll(st, st', flat, t);
  }

  lemma FreeOneKeeps(st: State, st': State, t: Tid, flat: seq<seq<Byte>>)
    requires Good(st, flat) && AllSectors(flat) && FreeOne(st, st', t)
    ensures st'.trace == st.trace ==> Good(st', flat)
    ensures st'.trace != st.trace ==>
              && st'.trace == st.trace + [Freed(st.threads[t].sector, st.disk[st.threads[t].sector])]
              && Good(st', Apply(flat, Freed(st.threads[t].sector, st.disk[st.threads[t].sector])))
  {
    var s, i := st.threads[t].sector, st.threads[t].i;
    assert |flat| == |st.disk| && AllSectors(st.disk);
    hide Good;
    if i < CACHE_SIZE && st.slots[i].valid && st.slots[i].sector == s {
      DropKeeps(st, st', t, flat);
    } else if i < CACHE_SIZE {
      PassSlotKeeps(st, st', t, flat);
    } else {
      EndFreeKeeps(st, st', t, flat);
    }
  }

  /** A step that observes nothing. */
  lemma QuietInv(st: State, st': State, flat0: seq<seq<Byte>>)
    requires Inv(st, flat0) && st'.trace == st.trace && Good(st', Replay(flat0, st.trace))
    requires (st'.lru == st.lru && st'.touched == st.touched)
             || exists i :: st'.lru == Touch(st.lru, i) && st'.touched == st.touched + [i]
    ensures Inv(st', flat0)
  {
    hide Good, Linear;
    if !(st'.lru == st.lru && st'.touched == st.touched) {
      assert Distinct(st.lru) by { GoodList(st, Replay(flat0, st.trace)); }
      var i :| st'.lru == Touch(st.lru, i) && st'.touched == st.touched + [i];
      TouchByRecency(st.lru, i, st.touched);
    }
  }

  lemma GoodList(st: State, flat: seq<seq<Byte>>)
    requires Good(st, flat)
    ensures IsRecencyList(st.lru)
  {
  }

  /** A step that an observer sees as event `e`. */
  lemma EventInv(st: State, st': State, e: Event, flat0: seq<seq<Byte>>)
    requires Inv(st, flat0) && st'.trace == st.trace + [e] && Good(st', Apply(Replay(flat0, st.trace), e))
    requires e.Read? ==> Reads(Replay(flat0, st.trace), e.op, e.got)
    requires st'.lru == st.lru && st'.touched == st.touched
    ensures Inv(st', flat0)
  {
    ReplayNext(flat0, st.trace, e);
    LinearNext(flat0, st.trace, e);
  }

  lemma AccessKeeps(st: State, st': State, flat0: seq<seq<Byte>>)
    requires Inv(st, flat0) && AccessStep(st, st')
    ensures Inv(st', flat0)
  {
    var flat := Replay(flat0, st.trace);
    hide Good, Linear, Replay, ByRecency;
    if t, op :| Start(st, st', t, op) {
      StartKeeps(st, st', t, op, flat);
      QuietInv(st, st', flat0);
    } else if t :| Look(st, st', t) {
      LookKeeps(st, st', t, flat);
      QuietInv(st, st', flat0);
    } else if t :| Take(st, st', t) {
      TakeKeeps(st, st', t, flat);
      FrontIsTouched(st.lru);
      QuietInv(st, st', flat0);
    } else if t :| WriteBack(st, st', t) {
      WriteBackKeeps(st, st', t, flat);
      QuietInv(st, st', flat0);
    } else if t :| Fill(st, st', t) {
      FillKeeps(st, st', t, flat);
      QuietInv(st, st', flat0);
    } else {
      var t :| Copy(st, st', t);
      CopyKeeps(st, st', t, flat);
      EventInv(st, st', st'.trace[|st.trace|], flat0);
    }
  }

  lemma CleaningKeeps(st: State, st': State, flat0: seq<seq<Byte>>)
    requires Inv(st, flat0) && CleaningStep(st, st')
    ensures Inv(st', flat0)
  {
    var flat := Replay(flat0, st.trace);
    hide Good, Linear, Replay, ByRecency;
    if t :| StartFlush(st, st', t) {
      StartFlushKeeps(st, st', t, flat);
      QuietInv(st, st', flat0);
    } else if t :| FlushOne(st, st', t) {
      FlushOneKeeps(st, st', t, flat);
      QuietInv(st, st', flat0);
    } else if t :| EndFlush(st, st', t) {
      EndFlushKeeps(st, st', t, flat);
      QuietInv(st, st', flat0);
    } else if t, s :| StartFree(st, st', t, s) {
      StartFreeKeeps(st, st', t, s, flat);
      QuietInv(st, st', flat0);
    } else {
      var t :| FreeOne(st, st', t);
      FreeOneKeeps(st, st', t, flat);
      if st'.trace == st.trace {
        QuietInv(st, st', flat0);
      } else {
        EventInv(st, st', st'.trace[|st.trace|], flat0);
      }
    }
  }

  lemma NextKeeps(st: State, st': State, flat0: seq<seq<Byte>>)
    requires Inv(st, flat0) && Next(st, st')
    ensures Inv(st', flat0)
  {
    hide AccessStep, CleaningStep, Inv;
    if AccessStep(st, st') {
      AccessKeeps(st, st', flat0);
    } else {
      CleaningKeeps(st, st', flat0);
    }
  }

  lemma FrontIsTouched(lru: seq<nat>)
    requires |lru| > 0
    ensures Touch(lru, lru[0]) == lru[1..] + [lru[0]]
  {
  }

  ghost predicate Run(run: seq<State>) {
    && |run| > 0 && Init(run[0])
    && forall k :: 0 <= k < |run| - 1 ==> Next(run[k], run[k + 1])
  }

  lemma {:induction false} RunInv(run: seq<State>, n: nat)
    requires Run(run) && n < |run|
    ensures Inv(run[n], run[0].disk)
  {
    if n == 0 {
      InitInv(run[0]);
    } else {
      RunInv(run, n - 1);
      assert Next(run[n - 1], run[n - 1 + 1]);
      NextKeeps(run[n - 1], run[n], run[0].disk);
    }
  }

  lemma InitInv(st: State)
    requires Init(st)
    ensures Inv(st, st.disk)
  {
    assert forall i: nat :: LastTouch([], i) == -1;
  }

  /** In every run of any number of threads no two valid slots hold the same sector, and
      every read returns what the latest writes to its sector stored. */
  lemma CacheIsFlatDisk(run: seq<State>, n: nat)
    requires Run(run) && n < |run|
    ensures Unique(run[n].slots)
    ensures AllSectors(run[0].disk) && Linear(run[0].disk, run[n].trace)
  {
    RunInv(run, n);
  }

  lemma FlushEnds(st: State, st': State, t: Tid)
    requires Next(st, st') && t in st.threads && t in st'.threads && st.threads[t].Flushing? && st'.threads[t].Outside?
    ensures EndFlush(st, st', t)
  {
    if AccessStep(st, st') {
      AccessNotFlush(st, st', t);
    }
  }

  lemma AccessNotFlush(st: State, st': State, t: Tid)
    requires AccessStep(st, st') && t in st.threads && t in st'.threads && st.threads[t].Flushing?
    ensures st'.threads[t] == st.threads[t]
  {
  }

  /** In every run, when a thread's flush ends the device equals the flat disk. */
  lemma FlushReachesDisk(run: seq<State>, n: nat, t: Tid)
    requires Run(run) && n < |run| - 1 && t in run[n].threads && t in run[n + 1].threads
    requires run[n].threads[t].Flushing? && run[n + 1].threads[t].Outside?
    ensures AllSectors(run[0].disk) && run[n + 1].disk == Replay(run[0].disk, run[n + 1].trace)
  {
    RunInv(run, n);
    hide Good, Linear, Replay;
    FlushEnds(run[n], run[n + 1], t);
    EndFlushKeeps(run[n], run[n + 1], t, Replay(run[0].disk, run[n].trace));
  }
}
