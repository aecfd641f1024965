/** What the threads of the cache do, seen from where each stands before and after a step:
    which slot an access gets, that every access counts as a use and takes effect once, and
    that the threads never block each other for good. */
module CacheUse {
  import opened Cache
  import opened CacheThreads
  import opened Sectors

  /** Thread `t` stops searching and holds a slot. */
  ghost predicate Enters(st: State, st': State, t: Tid) {
    t in st.threads && t in st'.threads && Searching(st.threads[t]) && InSlot(st'.threads[t])
  }

  /** Thread `t` ends an access or a cache_free. */
  ghost predicate Leaves(st: State, st': State, t: Tid) {
    && t in st.threads && t in st'.threads
    && (InSlot(st.threads[t]) || st.threads[t].Freeing?) && st'.threads[t].Outside?
  }

  /** The event that says what thread `th` did. */
  ghost predicate EventOf(th: Thread, e: Event)
    requires InSlot(th) || th.Freeing?
  {
    if th.Freeing? then e.Freed? && e.sector == th.sector
    else if th.op.Reading? then e.Read? && e.op == th.op && |e.got| == th.op.size
    else e == Wrote(th.op)
  }

  /** What a step of thread `t` records: nothing, the slot that it enters, or what it did. */
  ghost predicate Records(st: State, st': State, t: Tid) {
    && t in st.threads && t in st'.threads && st'.threads == st.threads[t := st'.threads[t]]
    && (if Enters(st, st', t) then st'.touched == st.touched + [st'.threads[t].cb] else st'.touched == st.touched)
    && (if Leaves(st, st', t)
        then exists e :: st'.trace == st.trace + [e] && EventOf(st.threads[t], e)
        else st'.trace == st.trace)
  }

  lemma CopyRecords(st: State, st': State, t: Tid)
    requires Copy(st, st', t)
    ensures Records(st, st', t)
  {
    var e := st'.trace[|st.trace|];
    assert st'.trace == st.trace + [e] && EventOf(st.threads[t], e);
  }

  lemma AccessRecords(st: State, st': State) returns (t: Tid)
    requires AccessStep(st, st')
    ensures Records(st, st', t)
  {
    if u, op :| Start(st, st', u, op) { t := u; }
    else if u :| Look(st, st', u) { t := u; }
    else if u :| Take(st, st', u) { t := u; }
    else if u :| WriteBack(st, st', u) { t := u; }
    else if u :| Fill(st, st', u) { t := u; }
    else {
      t :| Copy(st, st', t);
      CopyRecords(st, st', t);
    }
  }

  lemma CleaningRecords(st: State, st': State) returns (t: Tid)
    requires CleaningStep(st, st')
    ensures Records(st, st', t)
  {
    if u :| StartFlush(st, st', u) { t := u; }
    else if u :| FlushOne(st, st', u) { t := u; }
    else if u :| EndFlush(st, st', u) { t := u; }
    else if u, s :| StartFree(st, st', u, s) { t := u; }
    else { t :| FreeOne(st, st', t); }
  }

  lemma NextRecords(st: State, st': State) returns (t: Tid)
    requires Next(st, st')
    ensures Records(st, st', t)
  {
    hide AccessStep, CleaningStep, Records;
    if AccessStep(st, st') {
      t := AccessRecords(st, st');
    } else {
      t := CleaningRecords(st, st');
    }
  }

  /** In every step, whoever gets a slot for an access has it counted as a use, and nothing
      else counts as one. */
  lemma EveryUseCounts(st: State, st': State)
    requires Next(st, st')
    ensures forall t :: Enters(st, st', t) ==> st'.touched == st.touched + [st'.threads[t].cb]
    ensures (forall t :: !Enters(st, st', t)) ==> st'.touched == st.touched
  {
    var u := NextRecords(st, st');
    hide Next, Leaves;
    forall t | Enters(st, st', t) ensures t == u {
    }
  }

  /** In every step, whoever ends an access or a cache_free takes effect then, once and with
      what was asked for, and nothing else takes effect. */
  lemma EveryAccessTakesEffect(st: State, st': State)
    requires Next(st, st')
    ensures forall t :: Leaves(st, st', t) ==> exists e :: st'.trace == st.trace + [e] && EventOf(st.threads[t], e)
    ensures (forall t :: !Leaves(st, st', t)) ==> st'.trace == st.trace
  {
    var u := NextRecords(st, st');
    hide Next, Enters, EventOf;
    forall t | Leaves(st, st', t) ensures t == u {
    }
  }

  // Which slot an access gets.

  /** Slot `cb` was not used later than any other. */
  ghost predicate LeastRecent(touched: seq<nat>, cb: nat) {
    forall other :: 0 <= other < CACHE_SIZE && other != cb ==>
      LastTouch(touched, cb) < LastTouch(touched, other) || LastTouch(touched, other) == -1
  }

  lemma FrontIsLeastRecent(lru: seq<nat>, touched: seq<nat>)
    requires IsRecencyList(lru) && ByRecency(lru, touched)
    ensures LeastRecent(touched, lru[0])
  {
    hide LastTouch;
    forall other | 0 <= other < CACHE_SIZE && other != lru[0]
      ensures LastTouch(touched, lru[0]) < LastTouch(touched, other) || LastTouch(touched, other) == -1
    {
      assert other in lru;
      var b :| 0 <= b < |lru| && lru[b] == other;
    }
  }

  /** Thread `t` gets the slot that holds its sector; if there is none it gets the slot that
      was used least recently. Nobody else holds that slot. */
  ghost predicate GetsItsSlot(st: State, st': State, t: Tid)
    requires Enters(st, st', t)
  {
    var th, cb := st.threads[t], st'.threads[t].cb;
    && (th.Scanning? || th.Missed?) && st'.threads[t].op == th.op
    && cb < |st.slots| == CACHE_SIZE && cb !in st.locks && st'.locks == st.locks[cb := t]
    && if exists i :: 0 <= i < CACHE_SIZE && st.slots[i].valid && st.slots[i].sector == th.op.sector
       then st.slots[cb].valid && st.slots[cb].sector == th.op.sector
       else LeastRecent(st.touched, cb)
  }

  lemma LookGets(st: State, st': State, t: Tid)
    requires Look(st, st', t) && Enters(st, st', t)
    ensures GetsItsSlot(st, st', t)
  {
    hide LeastRecent;
    var cb := st'.threads[t].cb;
    assert st.slots[cb].valid && st.slots[cb].sector == st.threads[t].op.sector;
  }

  lemma TakeGets(st: State, st': State, t: Tid, flat: seq<seq<Byte>>)
    requires Good(st, flat) && ByRecency(st.lru, st.touched) && Take(st, st', t)
    ensures Enters(st, st', t) && GetsItsSlot(st, st', t)
  {
    FrontIsLeastRecent(st.lru, st.touched);
    assert st.lru[0] in st.lru;
    assert ThreadOk(st, flat, st.threads[t]);
    hide LeastRecent, Coherent, IsRecencyList, LocksOk;
  }

  lemma EnterGets(st: State, st': State, t: Tid, flat0: seq<seq<Byte>>)
    requires Inv(st, flat0) && Next(st, st') && Enters(st, st', t)
    ensures GetsItsSlot(st, st', t)
  {
    var flat := Replay(flat0, st.trace);
    hide Good, Replay, Linear, ByRecency, GetsItsSlot;
    if AccessStep(st, st') {
      AccessEnters(st, st', t);
      if Look(st, st', t) { LookGets(st, st', t); } else { TakeGets(st, st', t, flat); }
    } else {
      CleaningEnters(st, st', t);
    }
  }

  lemma AccessEnters(st: State, st': State, t: Tid)
    requires AccessStep(st, st') && Enters(st, st', t)
    ensures Look(st, st', t) || Take(st, st', t)
  {
    if u :| Look(st, st', u) {
      assert t == u;
    } else if u :| Take(st, st', u) {
      assert t == u;
    } else {
      OthersDoNotEnter(st, st', t);
    }
  }

  lemma OthersDoNotEnter(st: State, st': State, t: Tid)
    requires (exists u, op :: Start(st, st', u, op)) || (exists u :: WriteBack(st, st', u)) || (exists u :: Fill(st, st', u))
             || (exists u :: Copy(st, st', u))
    ensures !Enters(st, st', t)
  {
  }

  lemma CleaningEnters(st: State, st': State, t: Tid)
    requires CleaningStep(st, st')
    ensures !Enters(st, st', t)
  {
  }

  lemma RunNext(run: seq<State>, n: nat)
    requires Run(run) && n < |run| - 1
    ensures Next(run[n], run[n + 1])
  {
    hide Next;
  }

  /** In every run, whichever thread gets a slot gets the one that holds its sector, or else
      the least recently used one. */
  lemma EvictsLeastRecent(run: seq<State>, n: nat, t: Tid)
    requires Run(run) && n < |run| - 1 && Enters(run[n], run[n + 1], t)
    ensures GetsItsSlot(run[n], run[n + 1], t)
  {
    hide *;
    RunInv(run, n);
    RunNext(run, n);
    EnterGets(run[n], run[n + 1], t, run[0].disk);
  }

  // Progress.

  /** From `st` a thread that is inside an operation can go on to `st'`. */
  ghost predicate GoesOn(st: State, st': State, t: Tid) {
    Next(st, st') && t in st.threads && t in st'.threads && !st.threads[t].Outside? && st'.threads[t] != st.threads[t]
  }

  /** A thread that holds a slot can go on. */
  lemma InSlotGoesOn(st: State, t: Tid, flat: seq<seq<Byte>>) returns (st': State)
    requires Good(st, flat) && t in st.threads && InSlot(st.threads[t])
    ensures GoesOn(st, st', t)
  {
    assert ThreadOk(st, flat, st.threads[t]);
    hide IsRecencyList, LocksOk, TargetsDiffer, ThreadsOk, CleaningStep;
    var op, cb := st.threads[t].op, st.threads[t].cb;
    var slot := st.slots[cb];
    if st.threads[t].Taken? {
      st' := st.(disk := if slot.valid && slot.dirty then st.disk[slot.sector := slot.data] else st.disk,
                 threads := st.threads[t := WrittenBack(op, cb)]);
      assert WriteBack(st, st', t);
    } else if st.threads[t].WrittenBack? {
      st' := st.(slots := st.slots[cb := Slot(false, op.Writing?, op.sector, st.disk[op.sector])],
                 threads := st.threads[t := Copying(op, cb)]);
      assert Fill(st, st', t);
    } else {
      var data := if op.Reading? then slot.data else Patch(slot.data, op.offset, op.bytes);
      st' := st.(slots := st.slots[cb := slot.(valid := true, data := data)], locks := st.locks - {cb},
                 threads := st.threads[t := Outside],
                 trace := st.trace + [if op.Reading? then Read(op, slot.data[op.offset..op.offset + op.size]) else Wrote(op)]);
      assert Copy(st, st', t);
    }
  }

  /** A thread that is searching for an access can go on when no slot is held. */
  lemma AccessGoesOn(st: State, t: Tid, flat: seq<seq<Byte>>) returns (st': State)
    requires Good(st, flat) && t in st.threads && (st.threads[t].Scanning? || st.threads[t].Missed?) && st.locks == map[]
    ensures GoesOn(st, st', t)
  {
    assert ThreadOk(st, flat, st.threads[t]);
    hide Coherent, IsRecencyList, LocksOk, TargetsDiffer, ThreadsOk, CleaningStep;
    var op := st.threads[t].op;
    if st.threads[t].Missed? {
      assert |st.lru| == CACHE_SIZE by { RecencySize(st.lru); }
      var cb := st.lru[0];
      st' := st.(locks := st.locks[cb := t], lru := st.lru[1..] + [cb], touched := st.touched + [cb],
                 cacheLock := Unlocked, threads := st.threads[t := Taken(op, cb)]);
      assert Take(st, st', t);
    } else {
      var i := st.threads[t].i;
      st' := if st.slots[i].valid && st.slots[i].sector == op.sector then
               st.(slots := st.slots[i := st.slots[i].(dirty := st.slots[i].dirty || op.Writing?)],
                   locks := st.locks[i := t], lru := Touch(st.lru, i), touched := st.touched + [i], cacheLock := Unlocked,
                   threads := st.threads[t := Copying(op, i)])
             else
               st.(threads := st.threads[t := if i + 1 < CACHE_SIZE then Scanning(op, i + 1) else Missed(op)]);
      assert Look(st, st', t);
    }
  }

  lemma RecencySize(lru: seq<nat>)
    requires IsRecencyList(lru)
    ensures |lru| == CACHE_SIZE
  {
  }

  /** So can one that is flushing. */
  lemma FlushGoesOn(st: State, t: Tid, flat: seq<seq<Byte>>) returns (st': State)
    requires Good(st, flat) && t in st.threads && st.threads[t].Flushing? && st.locks == map[]
    ensures GoesOn(st, st', t)
  {
    assert ThreadOk(st, flat, st.threads[t]);
    hide IsRecencyList, LocksOk, TargetsDiffer, ThreadsOk, AccessStep;
    var i := st.threads[t].i;
    if i == CACHE_SIZE {
      st' := st.(cacheLock := Unlocked, threads := st.threads[t := Outside]);
      assert EndFlush(st, st', t);
    } else {
      var slot := st.slots[i];
      var out := slot.valid && slot.dirty;
      st' := st.(disk := if out then st.disk[slot.sector := slot.data] else st.disk,
                 slots := if out then st.slots[i := slot.(dirty := false)] else st.slots,
                 threads := st.threads[t := Flushing(i + 1)]);
      assert FlushOne(st, st', t);
    }
  }

  /** And one that is freeing. */
  lemma FreeGoesOn(st: State, t: Tid, flat: seq<seq<Byte>>) returns (st': State)
    requires Good(st, flat) && t in st.threads && st.threads[t].Freeing? && st.locks == map[]
    ensures GoesOn(st, st', t)
  {
    assert ThreadOk(st, flat, st.threads[t]);
    hide Coherent, IsRecencyList, LocksOk, TargetsDiffer, ThreadsOk, AccessStep;
    var s, i := st.threads[t].sector, st.threads[t].i;
    if i == CACHE_SIZE {
      st' := st.(cacheLock := Unlocked, threads := st.threads[t := Outside], trace := st.trace + [Freed(s, st.disk[s])]);
    } else if st.slots[i].valid && st.slots[i].sector == s {
      st' := st.(slots := st.slots[i := st.slots[i].(valid := false, dirty := false)], cacheLock := Unlocked,
                 threads := st.threads[t := Outside], trace := st.trace + [Freed(s, st.disk[s])]);
    } else {
      st' := st.(threads := st.threads[t := Freeing(s, i + 1)]);
    }
    assert FreeOne(st, st', t);
  }

  lemma NobodyInSlot(locks: map<nat, Tid>, cacheLock: Lock, threads: map<Tid, Thread>)
    requires LocksOk(locks, cacheLock, threads) && forall u :: u in threads ==> !InSlot(threads[u])
    ensures locks == map[]
  {
    assert forall i :: i in locks ==> false;
  }

  /** In every run, as long as a thread is inside an operation some thread that is can go
      on: the threads never block each other for good. */
  lemma NeverStuck(run: seq<State>, n: nat, t: Tid)
    requires Run(run) && n < |run| && t in run[n].threads && !run[n].threads[t].Outside?
    ensures exists st', u :: GoesOn(run[n], st', u)
  {
    RunInv(run, n);
    hide Run, Next, Linear, Replay, Coherent, IsRecencyList, LocksOk, TargetsDiffer, ThreadsOk;
    var st, flat := run[n], Replay(run[0].disk, run[n].trace);
    var st';
    if u :| u in st.threads && InSlot(st.threads[u]) {
      st' := InSlotGoesOn(st, u, flat);
    } else {
      NobodyInSlot(st.locks, st.cacheLock, st.threads);
      if st.threads[t].Flushing? { st' := FlushGoesOn(st, t, flat); }
      else if st.threads[t].Freeing? { st' := FreeGoesOn(st, t, flat); }
      else { st' := AccessGoesOn(st, t, flat); }
    }
  }
}
