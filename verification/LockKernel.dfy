/** The lock operations as the kernel performs them, field by field. */
module LockKernel {

  import opened Donation
  import opened LockEffects
  import opened PriorityLocks
  import opened Sequences

  lemma {:induction false} GreatestFrame(s: Sys, r: Sys, ws: seq<Tid>)
    requires Fields(s) && Fields(r)
    requires forall i :: 0 <= i < |ws| ==> ws[i] in s.priority && ws[i] in r.priority
    requires forall i :: 0 <= i < |ws| ==> Effective(s, ws[i]) == Effective(r, ws[i])
    ensures Greatest(s, ws) == Greatest(r, ws)
  {
    if ws != [] { GreatestFrame(s, r, ws[..|ws| - 1]); }
  }

  lemma {:induction false} GreatestIs(s: Sys, ws: seq<Tid>, k: nat)
    requires Fields(s) && (forall i :: 0 <= i < |ws| ==> ws[i] in s.priority) && k < |ws|
    requires forall i :: 0 <= i < |ws| ==> Effective(s, ws[i]) <= Effective(s, ws[k])
    ensures Greatest(s, ws) == Max(0, Effective(s, ws[k]))
  {
    var last := |ws| - 1;
    if k < last {
      GreatestIs(s, ws[..last], k);
    } else if last > 0 {
      GreatestAtMost(s, ws[..last], Effective(s, ws[k]));
    }
  }

  lemma {:induction false} GreatestAtMost(s: Sys, ws: seq<Tid>, e: int)
    requires Fields(s) && (forall i :: 0 <= i < |ws| ==> ws[i] in s.priority)
    requires forall i :: 0 <= i < |ws| ==> Effective(s, ws[i]) <= e
    ensures Greatest(s, ws) <= Max(0, e)
  {
    if ws != [] { GreatestAtMost(s, ws[..|ws| - 1], e); }
  }

  /** The greatest of `ws` is the same in `s` and `r`, which differ in what `t` has. */
  lemma GreatestElsewhere(s: Sys, r: Sys, t: Tid, ws: seq<Tid>, k: nat)
    requires Fields(s) && Fields(r) && s.priority == r.priority && t !in ws
    requires forall i :: 0 <= i < |ws| ==> ws[i] in r.priority
    requires forall c :: c in r.extra && c != t ==> c in s.extra && r.extra[c] == s.extra[c]
    requires IsFirstMax(r, ws, k)
    ensures ws[k] in r.priority && ws[k] in r.extra && Greatest(s, ws) == Max(0, Effective(r, ws[k]))
  {
    assert forall i :: 0 <= i < |ws| ==> ws[i] in ws && Effective(s, ws[i]) == Effective(r, ws[i]);
    GreatestIs(r, ws, k);
    GreatestFrame(s, r, ws);
  }

  lemma FirstMaxUnique(s: Sys, ws: seq<Tid>, j: nat, k: nat)
    requires Fields(s) && forall i :: 0 <= i < |ws| ==> ws[i] in s.priority
    requires IsFirstMax(s, ws, j) && k < |ws|
    ensures IsFirstMax(s, ws, k) <==> k == j
  {
    assert j < k ==> Effective(s, ws[k]) <= Effective(s, ws[j]);
    assert k < j ==> Effective(s, ws[k]) < Effective(s, ws[j]);
  }

  /** The state of lock_release before it looks for the new donated priority. */
  ghost function Loosened(s: Sys, t: Tid, l: Lid): Sys
    requires Fields(s) && l in s.holder && s.holder[l] == t
  {
    s.(parent := LetGo(s, t, l).parent, locks := LetGo(s, t, l).locks)
  }

  lemma LoosenedFields(s: Sys, t: Tid, l: Lid)
    requires Fields(s) && l in s.holder && s.holder[l] == t
    ensures Fields(Loosened(s, t, l))
  {
    LetGoFields(s, t, l);
  }

  /** The locks that remain are held by `t`, which is on no waiting list. */
  lemma RestFacts(s: Sys, t: Tid, l: Lid)
    requires Inv(s) && Running(s, t) && l in s.holder && s.holder[l] == t
    ensures var ls := Remove(s.locks[t], l);
            forall i :: 0 <= i < |ls| ==> ls[i] in s.waiters && t !in s.waiters[ls[i]]
  {
    var ls := Remove(s.locks[t], l);
    forall i | 0 <= i < |ls| ensures ls[i] in s.waiters && t !in s.waiters[ls[i]] {
      assert ls[i] in ls && ls[i] in s.locks[t];
    }
  }

  lemma WaiterFields(s: Sys, l: Lid)
    requires Fields(s) && l in s.waiters
    ensures forall i :: 0 <= i < |s.waiters[l]| ==> s.waiters[l][i] in s.priority
  {
  }

  /** Changing what one thread was donated leaves the other fields well formed. */
  lemma ExtraFields(s: Sys, t: Tid, e: int)
    requires Fields(s) && t in s.priority
    ensures Fields(s.(extra := s.extra[t := e]))
  {
  }

  class Kernel {
    var priority: map<Tid, int>
    var extra: map<Tid, int>
    var parent: map<Tid, Tid>
    var locks: map<Tid, seq<Lid>>
    var holder: map<Lid, Tid>
    var waiters: map<Lid, seq<Tid>>
    /** Where each thread stands inside sema_down. */
    ghost var waits: map<Tid, Lid>
    ghost var woken: map<Tid, Lid>

    ghost function State(): Sys
      reads this
    {
      Sys(priority, extra, parent, locks, holder, waiters, waits, woken)
    }

    constructor ()
      ensures State() == Boot()
    {
      priority, extra, parent, locks := map[], map[], map[], map[];
      holder, waiters, waits, woken := map[], map[], map[], map[];
    }

    /** donate_up. */
    method DonateUp(t: Tid, depth: nat)
      requires Fields(State()) && t in priority
      modifies this`extra
      ensures State() == Donate(old(State()), t, depth)
      decreases MAX_DEPTH + 1 - depth
    {
      hide Fields;
      if depth > MAX_DEPTH || t !in parent { return; }
      ThreadFields(State(), t);
      var donated := Max(extra[t], priority[t]);
      var p := parent[t];
      extra := extra[p := Max(extra[p], donated)];
      assert State() == Raise(old(State()), t);
      DonateUp(p, depth + 1);
    }

    /** thread_list_max. */
    method ListMax(ws: seq<Tid>) returns (k: nat)
      requires Fields(State()) && (forall i :: 0 <= i < |ws| ==> ws[i] in priority) && ws != []
      ensures IsFirstMax(State(), ws, k)
    {
      k := 0;
      var e := 1;
      while e < |ws|
        invariant k < e <= |ws|
        invariant forall i :: 0 <= i < k ==> Effective(State(), ws[i]) < Effective(State(), ws[k])
        invariant forall i :: k <= i < e ==> Effective(State(), ws[i]) <= Effective(State(), ws[k])
      {
        if Max(priority[ws[k]], extra[ws[k]]) < Max(priority[ws[e]], extra[ws[e]]) {
          k := e;
        }
        e := e + 1;
      }
    }

    /** The blocking half of lock_acquire. */
    method Block(t: Tid, l: Lid)
      requires Fields(State()) && t in priority && l in holder && l in waiters && Fields(Waiting(State(), t, l))
      modifies this
      ensures State() == AcquireBusy(old(State()), t, l)
    {
      hide Fields, Donate;
      parent := parent[t := holder[l]];
      assert State() == Waiting(old(State()), t, l);
      DonateUp(t, 0);
      waiters, waits := waiters[l := waiters[l] + [t]], waits[t := l];
    }

    /** lock_acquire, up to the point where it gets the lock or blocks. */
    method Acquire(t: Tid, l: Lid) returns (got: bool)
      requires Inv(State()) && Enabled(State(), Step.Acquire(t, l))
      modifies this
      ensures State() == Apply(old(State()), Step.Acquire(t, l))
      ensures got <==> l !in old(holder)
      ensures got ==> holder == old(holder)[l := t] && t in old(locks) && locks == old(locks)[t := old(locks)[t] + [l]]
                      && parent == old(parent) - {t} && unchanged(`priority, `extra, `waiters)
      ensures !got ==> parent == old(parent)[t := old(holder)[l]] && l in old(waiters)
                       && waiters == old(waiters)[l := old(waiters)[l] + [t]] && waits == old(waits)[t := l]
                       && unchanged(`priority, `holder, `locks) && Lent(old(State()), t, l, extra)
      ensures ShortChain(old(State()), Step.Acquire(t, l)) ==> Inv(State())
    {
      if l in holder {
        WaitingEdges(State(), t, l);
        BlockLends(State(), t, l);
        DonateSame(State(), t, l);
      }
      assert Fields(State()) && t in locks;
      hide Inv, Fields, AcquireBusy, ShortChain;
      if ShortChain(State(), Step.Acquire(t, l)) { StepKeeps(State(), Step.Acquire(t, l)); }
      got := l !in holder;
      if got {
        parent := parent - {t};
        holder, locks := holder[l := t], locks[t := locks[t] + [l]];
      } else {
        Block(t, l);
      }
    }

    /** A woken thread goes round the loop of sema_down once more. */
    method TryAgain(t: Tid, l: Lid) returns (got: bool)
      requires Inv(State()) && Enabled(State(), Step.TryAgain(t)) && woken[t] == l
      modifies this
      ensures State() == Retry(old(State()), t) && Inv(State())
      ensures got <==> l !in old(holder)
      ensures got ==> holder == old(holder)[l := t] && t in old(locks) && locks == old(locks)[t := old(locks)[t] + [l]]
                      && unchanged(`waiters, `waits)
      ensures !got ==> waiters == old(waiters)[l := old(waiters)[l] + [t]] && waits == old(waits)[t := l]
                       && unchanged(`holder, `locks)
      ensures woken == old(woken) - {t} && unchanged(`priority, `extra, `parent)
    {
      hide Fields, WaitOk, HeldOk, EdgesOk, ParentOk;
      RetryKeeps(State(), t);
      assert t in priority by { UnwokenFields(State(), t); }
      ThreadFields(State(), t);
      got := l !in holder;
      if got {
        holder, locks := holder[l := t], locks[t := locks[t] + [l]];
      } else {
        waiters, waits := waiters[l := waiters[l] + [t]], waits[t := l];
      }
      woken := woken - {t};
    }

    /** The waiters of a lock that is being released lose their parent. */
    method ClearParents(ws: seq<Tid>)
      modifies this`parent
      ensures parent == old(parent) - set c | c in ws
    {
      var i := 0;
      while i < |ws|
        invariant 0 <= i <= |ws|
        invariant parent == old(parent) - set c | c in ws[..i]
      {
        parent := parent - {ws[i]};
        assert ws[..i + 1] == ws[..i] + [ws[i]];
        i := i + 1;
      }
      assert ws[..i] == ws;
    }

    /** One lock's share in the donated priority of `t`. */
    method Collect(t: Tid, ws: seq<Tid>, ghost s: Sys)
      requires Fields(State()) && Fields(s) && t in priority && s.priority == priority && t !in ws
      requires forall i :: 0 <= i < |ws| ==> ws[i] in priority
      requires forall c :: c in extra && c != t ==> c in s.extra && extra[c] == s.extra[c]
      requires extra[t] >= 0
      modifies this`extra
      ensures extra == old(extra)[t := Max(old(extra)[t], Greatest(s, ws))]
    {
      if ws != [] {
        hide Fields, Greatest, IsFirstMax;
        var k := ListMax(ws);
        GreatestElsewhere(s, State(), t, ws, k);
        var pri := Max(extra[ws[k]], priority[ws[k]]);
        assert Max(extra[t], pri) == Max(extra[t], Greatest(s, ws));
        extra := extra[t := Max(extra[t], pri)];
      } else {
        assert Greatest(s, ws) == 0 && extra[t := extra[t]] == extra;
      }
    }

    /** The new donated priority: the greatest among the waiters on the locks still held. */
    method Recompute(t: Tid, ls: seq<Lid>, ghost s: Sys)
      requires Fields(State()) && Fields(s) && t in priority
      requires s.priority == priority && s.extra == extra && s.waiters == waiters
      requires forall i :: 0 <= i < |ls| ==> ls[i] in waiters && t !in waiters[ls[i]]
      modifies this`extra
      ensures extra == s.extra[t := Donated(s, ls)]
    {
      hide Fields, Greatest;
      ThreadFields(s, t);
      ghost var s1 := State();
      extra := extra[t := 0];
      var i := 0;
      while i < |ls|
        invariant 0 <= i <= |ls|
        invariant extra == s.extra[t := Donated(s, ls[..i])]
        invariant 0 <= Donated(s, ls[..i])
      {
        ExtraFields(s1, t, Donated(s, ls[..i]));
        assert State() == s1.(extra := s1.extra[t := Donated(s, ls[..i])]);
        WaiterFields(s, ls[i]);
        assert ls[..i + 1][..i] == ls[..i];
        Collect(t, waiters[ls[i]], s);
        i := i + 1;
      }
      assert ls[..i] == ls;
    }

    /** sema_up on a lock's semaphore. */
    method SemaUp(l: Lid)
      requires Fields(State()) && l in waiters
      modifies this`waiters, this`waits, this`woken
      ensures State() == (if old(waiters)[l] == [] then old(State())
                          else Wake(old(State()), l, old(waiters)[l][MaxIndex(old(State()), old(waiters)[l])]))
    {
      var ws := waiters[l];
      if ws != [] {
        var k := ListMax(ws);
        FirstMaxUnique(State(), ws, k, MaxIndex(State(), ws));
        waiters := waiters[l := Remove(ws, ws[k])];
        waits, woken := waits - {ws[k]}, woken[ws[k] := l];
      }
    }

    /** lock_release up to the wake-up. */
    method Loosen(t: Tid, l: Lid)
      requires Fields(State()) && l in holder && holder[l] == t
      requires l in waiters && t in locks && Fields(Loosened(State(), t, l))
      modifies this`parent, this`locks
      ensures State() == Loosened(old(State()), t, l)
    {
      hide Fields, Donated, Remove;
      ClearParents(waiters[l]);
      locks := locks[t := Remove(locks[t], l)];
    }

    method Unhold(t: Tid, l: Lid)
      requires Inv(State()) && Running(State(), t) && l in holder && holder[l] == t
      modifies this`parent, this`locks, this`extra, this`holder
      ensures State() == LetGo(old(State()), t, l)
    {
      ghost var s := State();
      LoosenedFields(s, t, l);
      RestFacts(s, t, l);
      LockFields(s, l);
      ThreadFields(s, t);
      hide Inv, Fields, Donated, Remove;
      Loosen(t, l);
      Recompute(t, locks[t], s);
      holder := holder - {l};
    }

    /** lock_release. */
    method ReleaseLock(t: Tid, l: Lid)
      requires Inv(State()) && Enabled(State(), LetLockGo(t, l))
      modifies this
      ensures State() == Apply(old(State()), LetLockGo(t, l)) && Inv(State())
      ensures HandedOn(old(State()), State(), t, l) && t in priority && Owed(State(), t)
      ensures (forall i :: 0 <= i < |old(waiters)[l]| ==> old(waiters)[l][i] in priority)
              && WokeGreatest(old(State()), State(), l)
    {
      ghost var s := State();
      ReleaseKeeps(s, t, l);
      ReleaseOwed(s, t, l);
      ReleaseMeans(s, t, l);
      LetGoFields(s, t, l);
      LockFields(s, l);
      hide Inv, Fields, Wake, MaxIndex;
      Unhold(t, l);
      SemaUp(l);
    }

    /** thread_set_priority, without the yield. */
    method SetPriority(t: Tid, p: int)
      requires Inv(State()) && Running(State(), t)
      modifies this`priority
      ensures State() == Apply(old(State()), Step.SetPriority(t, p)) && Inv(State())
      ensures priority == old(priority)[t := p]
    {
      SetPriorityKeeps(State(), t, p);
      priority := priority[t := p];
    }
  }
}
