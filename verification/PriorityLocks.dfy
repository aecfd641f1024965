/** lock_acquire, lock_release and thread_set_priority keep donated priorities in step
    with who waits for whom. */
module PriorityLocks {

  import opened Donation
  import opened Sequences

  /** The thread is not waiting for a lock and not about to try one again. */
  ghost predicate Running(s: Sys, t: Tid) {
    t in s.priority && t !in s.waits && t !in s.woken
  }

  /** The waiting lists and `waits` agree, and nobody is listed twice. */
  ghost predicate WaitOk(waiters: map<Lid, seq<Tid>>, waits: map<Tid, Lid>) {
    && (forall t :: t in waits ==> waits[t] in waiters && t in waiters[waits[t]])
    && (forall l, i :: l in waiters && 0 <= i < |waiters[l]| ==> waiters[l][i] in waits && waits[waiters[l][i]] == l)
    && (forall l, i, j :: l in waiters && 0 <= i < j < |waiters[l]| ==> waiters[l][i] != waiters[l][j])
  }

  /** Each thread's list of locks is the locks that it holds. */
  ghost predicate HeldOk(holder: map<Lid, Tid>, locks: map<Tid, seq<Lid>>) {
    && (forall l :: l in holder ==> holder[l] in locks && l in locks[holder[l]])
    && (forall t, i :: t in locks && 0 <= i < |locks[t]| ==> locks[t][i] in holder && holder[locks[t][i]] == t)
    && (forall t, i, j :: t in locks && 0 <= i < j < |locks[t]| ==> locks[t][i] != locks[t][j])
  }

  /** A thread with a recorded parent waits for a lock that the parent holds. */
  ghost predicate ParentOk(parent: map<Tid, Tid>, waits: map<Tid, Lid>, holder: map<Lid, Tid>) {
    forall c :: c in parent ==> c in waits && waits[c] in holder && holder[waits[c]] == parent[c]
  }

  ghost predicate Inv(s: Sys) {
    && Fields(s) && EdgesOk(s)
    && WaitOk(s.waiters, s.waits) && HeldOk(s.holder, s.locks) && ParentOk(s.parent, s.waits, s.holder)
    && s.woken.Keys !! s.waits.Keys
  }

  /** lock_acquire on a free lock. */
  ghost function AcquireFree(s: Sys, t: Tid, l: Lid): (r: Sys)
    requires t in s.locks
  {
    s.(parent := s.parent - {t}, holder := s.holder[l := t], locks := s.locks[t := s.locks[t] + [l]])
  }

  /** lock_acquire on a lock that another thread holds: record the parent, donate, wait. */
  ghost function AcquireBusy(s: Sys, t: Tid, l: Lid): (r: Sys)
    requires Fields(s) && t in s.priority && l in s.holder
  {
    var d := Donate(s.(parent := s.parent[t := s.holder[l]]), t, 0);
    d.(waiters := s.waiters[l := s.waiters[l] + [t]], waits := s.waits[t := l])
  }

  /** A woken thread tries its lock again; nobody donates for it any more. */
  ghost function Retry(s: Sys, t: Tid): (r: Sys)
    requires Fields(s) && t in s.woken && s.woken[t] in s.waiters
  {
    var l := s.woken[t];
    if l !in s.holder then
      s.(holder := s.holder[l := t], locks := s.locks[t := s.locks[t] + [l]], woken := s.woken - {t})
    else
      s.(waiters := s.waiters[l := s.waiters[l] + [t]], waits := s.waits[t := l], woken := s.woken - {t})
  }

  /** The greatest effective priority in a waiting list; 0 if there is nobody. */
  ghost function Greatest(s: Sys, ws: seq<Tid>): (m: int)
    requires Fields(s) && forall i :: 0 <= i < |ws| ==> ws[i] in s.priority
    ensures m >= 0 && forall i :: 0 <= i < |ws| ==> m >= Effective(s, ws[i])
  {
    if ws == [] then 0 else Max(Greatest(s, ws[..|ws| - 1]), Effective(s, ws[|ws| - 1]))
  }

  /** What the waiters on some locks donate. */
  ghost function Donated(s: Sys, ls: seq<Lid>): (m: int)
    requires Fields(s) && forall i :: 0 <= i < |ls| ==> ls[i] in s.waiters
    ensures forall i :: 0 <= i < |ls| ==> m >= Greatest(s, s.waiters[ls[i]])
  {
    if ls == [] then 0 else Max(Donated(s, ls[..|ls| - 1]), Greatest(s, s.waiters[ls[|ls| - 1]]))
  }

  /** lock_release up to the wake-up: the waiters lose their parent and the holder keeps
      only what the waiters on its other locks donate. */
  ghost function LetGo(s: Sys, t: Tid, l: Lid): (r: Sys)
    requires Fields(s) && l in s.holder && s.holder[l] == t
  {
    var rest := Remove(s.locks[t], l);
    assert forall i :: 0 <= i < |rest| ==> rest[i] in s.locks[t];
    s.(parent := s.parent - (set c | c in s.waiters[l]),
       extra := s.extra[t := Donated(s, rest)],
       locks := s.locks[t := rest],
       holder := s.holder - {l})
  }

  lemma LetGoFields(s: Sys, t: Tid, l: Lid)
    requires Fields(s) && l in s.holder && s.holder[l] == t
    ensures Fields(LetGo(s, t, l))
  {
    hide Donated;
    var rest, r := Remove(s.locks[t], l), LetGo(s, t, l);
    assert forall i :: 0 <= i < |rest| ==> rest[i] in rest && rest[i] in s.locks[t];
    hide Remove, LetGo;
    assert r == s.(parent := r.parent, extra := r.extra, locks := s.locks[t := rest], holder := s.holder - {l});
  }

  /** The rest of sema_up: waiter `w` is taken off the list and will try the lock again. */
  ghost function Wake(s: Sys, l: Lid, w: Tid): (r: Sys)
    requires l in s.waiters
  {
    s.(waiters := s.waiters[l := Remove(s.waiters[l], w)], waits := s.waits - {w}, woken := s.woken[w := l])
  }

  /** `w` is the first of the waiters with the greatest effective priority. */
  ghost predicate IsFirstMax(s: Sys, ws: seq<Tid>, k: nat)
    requires Fields(s) && forall i :: 0 <= i < |ws| ==> ws[i] in s.priority
  {
    && k < |ws|
    && (forall i :: 0 <= i < k ==> Effective(s, ws[i]) < Effective(s, ws[k]))
    && (forall i :: k <= i < |ws| ==> Effective(s, ws[i]) <= Effective(s, ws[k]))
  }

  /** thread_list_max: where the first greatest waiter is. */
  ghost function MaxIndex(s: Sys, ws: seq<Tid>): (k: nat)
    requires Fields(s) && (forall i :: 0 <= i < |ws| ==> ws[i] in s.priority) && ws != []
    ensures IsFirstMax(s, ws, k)
  {
    if |ws| == 1 then 0
    else
      var last := |ws| - 1;
      var k := MaxIndex(s, ws[..last]);
      assert ws[..last][k] == ws[k];
      assert forall i :: 0 <= i < last ==> Effective(s, ws[..last][i]) == Effective(s, ws[i]);
      if Effective(s, ws[k]) < Effective(s, ws[last]) then last else k
  }

  /** lock_release. */
  ghost function Release(s: Sys, t: Tid, l: Lid): (r: Sys)
    requires Fields(s) && l in s.holder && s.holder[l] == t
  {
    var g := LetGo(s, t, l);
    LetGoFields(s, t, l);
    if s.waiters[l] == [] then g else Wake(g, l, s.waiters[l][MaxIndex(g, s.waiters[l])])
  }

  // What each operation keeps.

  lemma EdgesSame(s: Sys, r: Sys)
    requires Fields(s) && Fields(r) && EdgesOk(s)
    requires r.priority == s.priority && r.extra == s.extra
    requires forall c :: c in r.parent ==> c in s.parent && r.parent[c] == s.parent[c]
    ensures EdgesOk(r)
  {
    forall c | c in r.parent ensures EdgeOk(r, c) {
      assert EdgeOk(s, c);
    }
  }

  lemma HeldAppend(holder: map<Lid, Tid>, locks: map<Tid, seq<Lid>>, t: Tid, l: Lid)
    requires HeldOk(holder, locks) && t in locks && l !in holder
    ensures HeldOk(holder[l := t], locks[t := locks[t] + [l]])
  {
  }

  lemma HeldRemove(holder: map<Lid, Tid>, locks: map<Tid, seq<Lid>>, l: Lid)
    requires HeldOk(holder, locks) && l in holder
    ensures HeldOk(holder - {l}, locks[holder[l] := Remove(locks[holder[l]], l)])
  {
    var t := holder[l];
    var rest := Remove(locks[t], l);
    RemoveDistinct(locks[t], l);
    forall i | 0 <= i < |rest| ensures rest[i] in holder && rest[i] != l && holder[rest[i]] == t {
      assert rest[i] in rest && rest[i] in locks[t];
    }
  }

  lemma WaitAppend(waiters: map<Lid, seq<Tid>>, waits: map<Tid, Lid>, t: Tid, l: Lid)
    requires WaitOk(waiters, waits) && l in waiters && t !in waits
    ensures WaitOk(waiters[l := waiters[l] + [t]], waits[t := l])
  {
  }

  lemma WaitRemove(waiters: map<Lid, seq<Tid>>, waits: map<Tid, Lid>, t: Tid)
    requires WaitOk(waiters, waits) && t in waits
    ensures WaitOk(waiters[waits[t] := Remove(waiters[waits[t]], t)], waits - {t})
  {
    var l := waits[t];
    var rest := Remove(waiters[l], t);
    RemoveDistinct(waiters[l], t);
    forall i | 0 <= i < |rest| ensures rest[i] in waits && rest[i] != t && waits[rest[i]] == l {
      assert rest[i] in rest && rest[i] in waiters[l];
    }
  }

  lemma UnparentFields(s: Sys, t: Tid)
    requires Fields(s)
    ensures Fields(s.(parent := s.parent - {t}))
  {
  }

  lemma AcquireFreeKeeps(s: Sys, t: Tid, l: Lid)
    requires Inv(s) && Running(s, t) && l in s.waiters && l !in s.holder
    ensures t in s.locks && Inv(AcquireFree(s, t, l))
  {
    hide Fields, WaitOk, HeldOk, ParentOk, EdgesOk;
    ThreadFields(s, t);
    UnparentFields(s, t);
    TakeFields(s.(parent := s.parent - {t}), t, l);
    HeldAppend(s.holder, s.locks, t, l);
    ParentLess(s.parent, s.waits, s.holder, t);
    ParentMore(s.parent - {t}, s.waits, s.holder, t, l);
    EdgesSame(s, AcquireFree(s, t, l));
  }

  lemma ParentLess(parent: map<Tid, Tid>, waits: map<Tid, Lid>, holder: map<Lid, Tid>, t: Tid)
    requires ParentOk(parent, waits, holder)
    ensures ParentOk(parent - {t}, waits, holder)
  {
  }

  lemma QueueFields(d: Sys, t: Tid, l: Lid)
    requires Fields(d) && t in d.priority && l in d.waiters
    ensures Fields(d.(waiters := d.waiters[l := d.waiters[l] + [t]], waits := d.waits[t := l]))
  {
  }

  lemma DonateSame(s: Sys, t: Tid, l: Lid)
    requires Fields(s) && t in s.priority && l in s.holder
    ensures var r := AcquireBusy(s, t, l);
            && Fields(r)
            && r == s.(extra := r.extra, parent := s.parent[t := s.holder[l]],
                       waiters := s.waiters[l := s.waiters[l] + [t]], waits := s.waits[t := l])
  {
    var s1 := s.(parent := s.parent[t := s.holder[l]]);
    assert Fields(s1) && l in s1.waiters;
    hide Fields;
    QueueFields(Donate(s1, t, 0), t, l);
  }

  lemma EdgesOnly(d: Sys, r: Sys)
    requires Fields(d) && Fields(r) && r.priority == d.priority && r.extra == d.extra && r.parent == d.parent
    ensures EdgesOk(d) <==> EdgesOk(r)
  {
    if EdgesOk(d) { EdgesSame(d, r); }
    if EdgesOk(r) { EdgesSame(r, d); }
  }

  ghost function Waiting(s: Sys, t: Tid, l: Lid): Sys
    requires l in s.holder
  {
    s.(parent := s.parent[t := s.holder[l]])
  }

  lemma WaitingEdges(s: Sys, t: Tid, l: Lid)
    requires Inv(s) && Running(s, t) && l in s.holder
    ensures var s1 := Waiting(s, t, l); Fields(s1) && EdgesOkBut(s1, t) && Effective(s1, t) == Effective(s, t)
  {
    var s1 := Waiting(s, t, l);
    forall c | c in s1.parent && c != t ensures EdgeOk(s1, c) {
      assert EdgeOk(s, c);
    }
  }

  lemma ParentAppend(parent: map<Tid, Tid>, waits: map<Tid, Lid>, holder: map<Lid, Tid>, t: Tid, l: Lid)
    requires ParentOk(parent, waits, holder) && t !in waits && l in holder
    ensures ParentOk(parent[t := holder[l]], waits[t := l], holder)
  {
  }

  lemma AcquireBusyRest(s: Sys, t: Tid, l: Lid)
    requires Inv(s) && Running(s, t) && l in s.holder
    ensures Fields(AcquireBusy(s, t, l)) && (Inv(AcquireBusy(s, t, l)) <==> EdgesOk(AcquireBusy(s, t, l)))
  {
    hide Fields, WaitOk, HeldOk, ParentOk, EdgesOk, AcquireBusy;
    DonateSame(s, t, l);
    assert l in s.waiters by { LockFields(s, l); }
    WaitAppend(s.waiters, s.waits, t, l);
    ParentAppend(s.parent, s.waits, s.holder, t, l);
  }

  /** Blocking on a held lock keeps every donation in place exactly when the chain of
      parents has at most nine edges or its tenth edge already carries the priority
      that is donated. */
  lemma AcquireBusyExact(s: Sys, t: Tid, l: Lid, n: nat)
    requires Inv(s) && Running(s, t) && l in s.holder
    requires EndsWithin(s.parent[t := s.holder[l]], t, n)
    ensures Fields(Waiting(s, t, l))
    ensures Inv(AcquireBusy(s, t, l)) <==> Beyond(Waiting(s, t, l), t, MAX_DEPTH + 1, Effective(s, t))
  {
    WaitingEdges(s, t, l);
    DonateExact(Waiting(s, t, l), t, 0, n);
    DonateSame(s, t, l);
    AcquireBusyRest(s, t, l);
    EdgesOnly(Donate(Waiting(s, t, l), t, 0), AcquireBusy(s, t, l));
  }

  lemma UnwokenFields(s: Sys, t: Tid)
    requires Fields(s) && t in s.woken
    ensures t in s.priority && t in s.locks && Fields(s.(woken := s.woken - {t}))
  {
  }

  lemma TakeFields(s: Sys, t: Tid, l: Lid)
    requires Fields(s) && t in s.locks && l in s.waiters
    ensures Fields(s.(holder := s.holder[l := t], locks := s.locks[t := s.locks[t] + [l]]))
  {
  }

  lemma ParentMore(parent: map<Tid, Tid>, waits: map<Tid, Lid>, holder: map<Lid, Tid>, t: Tid, l: Lid)
    requires ParentOk(parent, waits, holder)
    ensures l !in holder ==> ParentOk(parent, waits, holder[l := t])
    ensures t !in waits ==> ParentOk(parent, waits[t := l], holder)
  {
  }

  lemma RetryKeeps(s: Sys, t: Tid)
    requires Inv(s) && t in s.woken && s.woken[t] in s.waiters
    ensures Inv(Retry(s, t))
  {
    hide Fields, WaitOk, HeldOk, ParentOk, EdgesOk;
    var l, r := s.woken[t], Retry(s, t);
    UnwokenFields(s, t);
    ParentMore(s.parent, s.waits, s.holder, t, l);
    if l !in s.holder {
      TakeFields(s.(woken := s.woken - {t}), t, l);
      HeldAppend(s.holder, s.locks, t, l);
    } else {
      QueueFields(s.(woken := s.woken - {t}), t, l);
      WaitAppend(s.waiters, s.waits, t, l);
    }
    EdgesSame(s, r);
  }

  lemma LetGoEdges(s: Sys, t: Tid, l: Lid)
    requires Inv(s) && Running(s, t) && l in s.holder && s.holder[l] == t && Fields(LetGo(s, t, l))
    ensures EdgesOk(LetGo(s, t, l))
  {
    var r, rest := LetGo(s, t, l), Remove(s.locks[t], l);
    forall c | c in r.parent ensures EdgeOk(r, c) {
      assert EdgeOk(s, c);
      if r.parent[c] == t {
        var m := s.waits[c];
        assert m in s.locks[t] && m != l;
        assert m in rest && c in s.waiters[m];
        assert r.extra[t] >= Greatest(s, s.waiters[m]) >= Effective(s, c);
      }
    }
  }

  lemma LetGoParents(s: Sys, t: Tid, l: Lid)
    requires Fields(s) && WaitOk(s.waiters, s.waits) && ParentOk(s.parent, s.waits, s.holder)
    requires l in s.holder && s.holder[l] == t
    ensures ParentOk(LetGo(s, t, l).parent, s.waits, s.holder - {l})
  {
    forall c | c in s.parent && c !in s.waiters[l] ensures s.waits[c] != l {
    }
  }

  lemma LetGoKeeps(s: Sys, t: Tid, l: Lid)
    requires Inv(s) && Running(s, t) && l in s.holder && s.holder[l] == t
    ensures Inv(LetGo(s, t, l))
  {
    hide Fields, EdgesOk, HeldOk, WaitOk, ParentOk;
    LetGoFields(s, t, l);
    LetGoEdges(s, t, l);
    LetGoParents(s, t, l);
    HeldRemove(s.holder, s.locks, l);
  }

  lemma WakeKeeps(s: Sys, l: Lid, w: Tid)
    requires Inv(s) && l in s.waiters && w in s.waiters[l] && w !in s.parent
    ensures Inv(Wake(s, l, w))
  {
    var r := Wake(s, l, w);
    WaitRemove(s.waiters, s.waits, w);
    assert Fields(r);
    EdgesSame(s, r);
  }

  lemma ReleaseKeeps(s: Sys, t: Tid, l: Lid)
    requires Inv(s) && Running(s, t) && l in s.holder && s.holder[l] == t
    ensures Inv(Release(s, t, l))
  {
    LetGoKeeps(s, t, l);
    if s.waiters[l] != [] {
      var g := LetGo(s, t, l);
      WakeKeeps(g, l, s.waiters[l][MaxIndex(g, s.waiters[l])]);
    }
  }

  lemma SetPriorityKeeps(s: Sys, t: Tid, p: int)
    requires Inv(s) && Running(s, t)
    ensures Inv(s.(priority := s.priority[t := p]))
  {
    var r := s.(priority := s.priority[t := p]);
    forall c | c in r.parent ensures EdgeOk(r, c) {
      assert EdgeOk(s, c);
    }
  }

  lemma SpawnKeeps(s: Sys, t: Tid, p: int)
    requires Inv(s) && t !in s.priority
    ensures Inv(Spawn(s, t, p))
  {
    var r := Spawn(s, t, p);
    assert Fields(r);
    forall c | c in r.parent ensures EdgeOk(r, c) {
      assert EdgeOk(s, c);
    }
  }

  lemma NewLockKeeps(s: Sys, l: Lid)
    requires Inv(s) && l !in s.waiters
    ensures Inv(s.(waiters := s.waiters[l := []]))
  {
    var r := s.(waiters := s.waiters[l := []]);
    assert Fields(r);
    EdgesSame(s, r);
  }

  // Runs.

  datatype Step =
    | CreateThread(t: Tid, p: int)
    | InitLock(l: Lid)
    | Acquire(t: Tid, l: Lid)
    | TryAgain(t: Tid)
    | LetLockGo(t: Tid, l: Lid)
    | SetPriority(t: Tid, p: int)

  ghost function Spawn(s: Sys, t: Tid, p: int): (r: Sys) {
    s.(priority := s.priority[t := p], extra := s.extra[t := 0], locks := s.locks[t := []])
  }

  /** What the kernel asserts before each operation, and who can make it. */
  ghost predicate Enabled(s: Sys, a: Step) {
    match a
    case CreateThread(t, _) => t !in s.priority
    case InitLock(l) => l !in s.waiters
    case Acquire(t, l) => Running(s, t) && l in s.waiters && (l in s.holder ==> s.holder[l] != t)
    case TryAgain(t) => t in s.woken && s.woken[t] in s.waiters
    case LetLockGo(t, l) => Running(s, t) && l in s.holder && s.holder[l] == t
    case SetPriority(t, _) => Running(s, t)
  }

  ghost function Apply(s: Sys, a: Step): (r: Sys)
    requires Fields(s) && Enabled(s, a)
  {
    match a
    case CreateThread(t, p) => Spawn(s, t, p)
    case InitLock(l) => s.(waiters := s.waiters[l := []])
    case Acquire(t, l) => if l in s.holder then AcquireBusy(s, t, l) else AcquireFree(s, t, l)
    case TryAgain(t) => Retry(s, t)
    case LetLockGo(t, l) => Release(s, t, l)
    case SetPriority(t, p) => s.(priority := s.priority[t := p])
  }

  /** A blocking acquire makes a chain of at most nine edges. */
  ghost predicate ShortChain(s: Sys, a: Step) {
    match a
    case Acquire(t, l) => l in s.holder ==> EndsWithin(s.parent[t := s.holder[l]], t, MAX_DEPTH + 1)
    case _ => true
  }

  lemma AcquireKeeps(s: Sys, t: Tid, l: Lid)
    requires Inv(s) && Enabled(s, Acquire(t, l)) && ShortChain(s, Acquire(t, l))
    ensures Inv(Apply(s, Acquire(t, l)))
  {
    if l in s.holder {
      hide EndsWithin, Inv;
      AcquireBusyExact(s, t, l, MAX_DEPTH + 1);
      ShortEnough(Waiting(s, t, l), t, MAX_DEPTH + 1, Effective(s, t));
    } else {
      AcquireFreeKeeps(s, t, l);
    }
  }

  lemma StepKeeps(s: Sys, a: Step)
    requires Inv(s) && Enabled(s, a) && ShortChain(s, a)
    ensures Inv(Apply(s, a))
  {
    match a
    case CreateThread(t, p) => SpawnKeeps(s, t, p);
    case InitLock(l) => NewLockKeeps(s, l);
    case Acquire(t, l) => AcquireKeeps(s, t, l);
    case TryAgain(t) => RetryKeeps(s, t);
    case LetLockGo(t, l) => ReleaseKeeps(s, t, l);
    case SetPriority(t, p) => SetPriorityKeeps(s, t, p);
  }

  /** No threads and no locks yet. */
  ghost function Boot(): (s: Sys)
    ensures Inv(s)
  {
    Sys(map[], map[], map[], map[], map[], map[], map[], map[])
  }

  ghost predicate Next(s: Sys, a: Step, r: Sys) {
    Fields(s) && Enabled(s, a) && ShortChain(s, a) && r == Apply(s, a)
  }

  /** The states of a run from boot in which no chain outgrows the donation depth. */
  ghost predicate IsRun(states: seq<Sys>, steps: seq<Step>) {
    && |states| == |steps| + 1 && states[0] == Boot()
    && forall i :: 0 <= i < |steps| ==> Next(states[i], steps[i], states[i + 1])
  }

  lemma {:induction false} RunKeeps(states: seq<Sys>, steps: seq<Step>, k: nat)
    requires IsRun(states, steps) && k < |states|
    ensures Inv(states[k])
  {
    if k > 0 {
      RunKeeps(states, steps, k - 1);
      assert Next(states[k - 1], steps[k - 1], states[k - 1 + 1]);
      hide Inv;
      StepKeeps(states[k - 1], steps[k - 1]);
    }
  }

  /** The k-th ancestor. */
  ghost function Ancestor(s: Sys, t: Tid, k: nat): (r: Tid)
    requires Fields(s) && t in s.priority
    ensures r in s.priority
    decreases k
  {
    if k == 0 || t !in s.parent then t else Ancestor(s, s.parent[t], k - 1)
  }

  lemma {:induction false} ChainRises(s: Sys, t: Tid, k: nat)
    requires Fields(s) && EdgesOk(s) && t in s.priority
    ensures Effective(s, Ancestor(s, t, k)) >= Effective(s, t)
    decreases k
  {
    if k > 0 && t in s.parent {
      assert EdgeOk(s, t);
      ChainRises(s, s.parent[t], k - 1);
    }
  }

  /** In every state of every run effective priority never falls towards the end of a
      chain of waiting threads, and each link waits for a lock that the next one holds. */
  lemma NoInversion(states: seq<Sys>, steps: seq<Step>, i: nat, t: Tid, k: nat)
    requires IsRun(states, steps) && i < |states| && t in states[i].priority
    ensures Inv(states[i]) && Effective(states[i], Ancestor(states[i], t, k)) >= Effective(states[i], t)
    ensures var s := states[i]; t in s.parent ==> t in s.waits && s.waits[t] in s.holder && s.holder[s.waits[t]] == s.parent[t]
  {
    RunKeeps(states, steps, i);
    ChainRises(states[i], t, k);
  }
}
