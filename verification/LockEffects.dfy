/** What the lock operations do to donated priorities, in terms of who waits for whom:
    nobody gets or keeps more than is due. */
module LockEffects {

  import opened Donation
  import opened PriorityLocks
  import opened Sequences

  // Blocking: whom a donation reaches, and with how much.

  /** The threads at most `n` edges above `t`. */
  ghost function Above(parent: map<Tid, Tid>, t: Tid, n: nat): (r: set<Tid>)
    decreases n
  {
    if n == 0 || t !in parent then {} else {parent[t]} + Above(parent, parent[t], n - 1)
  }

  /** What lies above `c` has at least `v`, unless the chain leads past `t`, which has. */
  lemma {:induction false} AboveCarries(s: Sys, t: Tid, c: Tid, n: nat, v: int, x: Tid)
    requires Fields(s) && EdgesOkBut(s, t) && t in s.priority && c in s.priority && Effective(s, c) >= v
    requires x in Above(s.parent, c, n)
    ensures x in s.extra && (s.extra[x] >= v || Effective(s, t) >= v)
    decreases n
  {
    assert s.parent[c] in s.priority;
    if c != t {
      assert EdgeOk(s, c);
      if x != s.parent[c] { AboveCarries(s, t, s.parent[c], n - 1, v, x); }
    } else if x != s.parent[c] {
      AboveThreads(s, s.parent[c], n - 1, x);
    }
  }

  lemma {:induction false} AboveThreads(s: Sys, c: Tid, n: nat, x: Tid)
    requires Fields(s) && c in s.priority && x in Above(s.parent, c, n)
    ensures x in s.extra
    decreases n
  {
    if x != s.parent[c] { AboveThreads(s, s.parent[c], n - 1, x); }
  }

  lemma RaiseIs(s: Sys, t: Tid, x: Tid)
    requires Fields(s) && t in s.parent && x in s.extra
    ensures var p, r := s.parent[t], Raise(s, t);
            && p in s.priority && t in s.priority && r.parent == s.parent && p in r.priority && x in r.extra
            && r.extra[x] == (if x == p then Max(s.extra[x], Effective(s, t)) else s.extra[x])
            && Effective(r, p) == Max(Effective(s, p), Effective(s, t)) && Effective(s, p) >= s.extra[p]
  {
  }

  lemma RaisedTwice(have: int, e: int, q: int, first: bool, up: bool)
    requires up ==> have >= q || e >= q
    ensures var raised := if first then Max(have, e) else have;
            (if up then Max(raised, Max(q, e)) else raised) == if first || up then Max(have, e) else have
  {
  }

  lemma DonateOnce(s: Sys, t: Tid, depth: nat)
    requires Fields(s) && t in s.priority
    ensures Donate(s, t, depth) == if depth > MAX_DEPTH || t !in s.parent then s else Donate(Raise(s, t), s.parent[t], depth + 1)
  {
  }

  lemma AboveOnce(parent: map<Tid, Tid>, t: Tid, n: nat, x: Tid)
    ensures x in Above(parent, t, n) <==> n > 0 && t in parent && (x == parent[t] || x in Above(parent, parent[t], n - 1))
  {
  }

  lemma DonateStep(s: Sys, t: Tid, depth: nat, x: Tid, d: int)
    requires Fields(s) && EdgesOkBut(s, t) && t in s.parent && t in s.priority && x in s.extra && depth <= MAX_DEPTH
    requires s.parent[t] in s.priority && x in Raise(s, t).extra && s.parent[t] in Raise(s, t).priority
    requires d == if x in Above(s.parent, s.parent[t], MAX_DEPTH - depth)
                  then Max(Raise(s, t).extra[x], Effective(Raise(s, t), s.parent[t])) else Raise(s, t).extra[x]
    ensures d == if x in Above(s.parent, t, MAX_DEPTH + 1 - depth) then Max(s.extra[x], Effective(s, t)) else s.extra[x]
  {
    hide *;
    RaiseIs(s, t, x);
    AboveOnce(s.parent, t, MAX_DEPTH + 1 - depth, x);
    var p, n := s.parent[t], MAX_DEPTH - depth;
    if x in Above(s.parent, p, n) {
      AboveCarries(s, t, p, n, Effective(s, p), x);
    }
    RaisedTwice(s.extra[x], Effective(s, t), Effective(s, p), x == p, x in Above(s.parent, p, n));
  }

  /** Donating from `t` raises exactly the threads above it, as far as nine edges, to the
      priority of `t`. */
  lemma {:induction false} DonateIs(s: Sys, t: Tid, depth: nat, x: Tid)
    requires Fields(s) && t in s.priority && EdgesOkBut(s, t) && depth <= MAX_DEPTH + 1 && x in s.extra
    ensures x in Donate(s, t, depth).extra
    ensures Donate(s, t, depth).extra[x] ==
            if x in Above(s.parent, t, MAX_DEPTH + 1 - depth) then Max(s.extra[x], Effective(s, t)) else s.extra[x]
    decreases MAX_DEPTH + 1 - depth
  {
    hide *;
    DonateOnce(s, t, depth);
    if depth > MAX_DEPTH || t !in s.parent {
      AboveOnce(s.parent, t, MAX_DEPTH + 1 - depth, x);
    } else {
      var p, r := s.parent[t], Raise(s, t);
      RaiseEdges(s, t);
      RaiseIs(s, t, x);
      DonateIs(r, p, depth + 1, x);
      DonateStep(s, t, depth, x, Donate(s, t, depth).extra[x]);
    }
  }

  /** The extra priorities after `t` blocks on `l`: exactly the threads up to nine edges
      above `t` have been raised to its priority. */
  ghost predicate Lent(s: Sys, t: Tid, l: Lid, extra: map<Tid, int>)
    requires Fields(s) && t in s.priority && l in s.holder
  {
    && extra.Keys == s.extra.Keys
    && forall x :: x in extra ==>
         extra[x] == if x in Above(s.parent[t := s.holder[l]], t, MAX_DEPTH + 1) then Max(s.extra[x], Effective(s, t)) else s.extra[x]
  }

  lemma BlockLends(s: Sys, t: Tid, l: Lid)
    requires Inv(s) && Running(s, t) && l in s.holder
    ensures Lent(s, t, l, AcquireBusy(s, t, l).extra)
  {
    WaitingEdges(s, t, l);
    var s1 := Waiting(s, t, l);
    assert AcquireBusy(s, t, l).extra == Donate(s1, t, 0).extra;
    hide Donate, Above, AcquireBusy, Inv;
    forall x | x in s.extra
      ensures AcquireBusy(s, t, l).extra[x] ==
              if x in Above(s1.parent, t, MAX_DEPTH + 1) then Max(s.extra[x], Effective(s, t)) else s.extra[x]
    {
      DonateIs(s1, t, 0, x);
    }
  }

  // Releasing: what the holder is left with.

  /** `c` waits for a lock that `t` holds. */
  ghost predicate WaitsFor(s: Sys, c: Tid, t: Tid) {
    c in s.waits && s.waits[c] in s.holder && s.holder[s.waits[c]] == t
  }

  /** What `t` was donated is exactly the greatest priority of those who wait for it. */
  ghost predicate Owed(s: Sys, t: Tid)
    requires Fields(s) && t in s.priority
  {
    && s.extra[t] >= 0
    && (forall c :: WaitsFor(s, c, t) ==> s.extra[t] >= Effective(s, c))
    && (s.extra[t] == 0 || exists c :: WaitsFor(s, c, t) && s.extra[t] == Effective(s, c))
  }

  lemma {:induction false} GreatestWitness(s: Sys, ws: seq<Tid>)
    requires Fields(s) && forall i :: 0 <= i < |ws| ==> ws[i] in s.priority
    ensures Greatest(s, ws) == 0 || exists i :: 0 <= i < |ws| && Greatest(s, ws) == Effective(s, ws[i])
  {
    if ws != [] {
      var last := |ws| - 1;
      GreatestWitness(s, ws[..last]);
      if Greatest(s, ws) != 0 && Greatest(s, ws) != Effective(s, ws[last]) {
        var i :| 0 <= i < last && Greatest(s, ws[..last]) == Effective(s, ws[..last][i]);
        assert Greatest(s, ws) == Effective(s, ws[i]);
      }
    }
  }

  lemma {:induction false} DonatedWitness(s: Sys, ls: seq<Lid>) returns (m: Lid)
    requires Fields(s) && (forall i :: 0 <= i < |ls| ==> ls[i] in s.waiters) && Donated(s, ls) != 0
    ensures m in ls && m in s.waiters && Donated(s, ls) == Greatest(s, s.waiters[m]) > 0
  {
    var last := |ls| - 1;
    m := ls[last];
    if Donated(s, ls) != Greatest(s, s.waiters[m]) {
      assert Donated(s, ls) == Donated(s, ls[..last]);
      m := DonatedWitness(s, ls[..last]);
    }
  }

  lemma {:induction false} DonatedNat(s: Sys, ls: seq<Lid>)
    requires Fields(s) && (forall i :: 0 <= i < |ls| ==> ls[i] in s.waiters)
    ensures Donated(s, ls) >= 0
  {
  }

  /** The locks that are left are those that `t` still holds. */
  lemma RestHeld(s: Sys, t: Tid, l: Lid)
    requires Inv(s) && l in s.holder && s.holder[l] == t
    ensures var holder, rest := s.holder - {l}, Remove(s.locks[t], l);
            && (forall m :: m in rest <==> m in holder && holder[m] == t)
            && (forall i :: 0 <= i < |rest| ==> rest[i] in rest && rest[i] in s.waiters)
  {
    HeldRemove(s.holder, s.locks, l);
    hide HeldOk;
    var holder, rest := s.holder - {l}, Remove(s.locks[t], l);
    HeldBy(holder, s.locks[t := rest], t);
  }

  lemma HeldBy(holder: map<Lid, Tid>, locks: map<Tid, seq<Lid>>, t: Tid)
    requires HeldOk(holder, locks) && t in locks
    ensures forall m :: m in locks[t] <==> m in holder && holder[m] == t
  {
  }

  lemma LetGoIs(s: Sys, t: Tid, l: Lid)
    requires Inv(s) && l in s.holder && s.holder[l] == t
    ensures var r, rest := LetGo(s, t, l), Remove(s.locks[t], l);
            && r.waits == s.waits && r.holder == s.holder - {l} && r.priority == s.priority
            && (forall i :: 0 <= i < |rest| ==> rest[i] in s.waiters)
            && r.extra == s.extra[t := Donated(s, rest)]
  {
    RestHeld(s, t, l);
    hide Donated, Remove;
  }

  lemma SameEffective(s: Sys, r: Sys, c: Tid)
    requires Fields(s) && Fields(r) && c in s.priority && c in r.priority && c in s.extra && c in r.extra
    requires r.priority[c] == s.priority[c] && r.extra[c] == s.extra[c]
    ensures Effective(r, c) == Effective(s, c)
  {
  }

  lemma WaitingThreads(s: Sys)
    requires Inv(s)
    ensures forall c :: c in s.waits ==> c in s.priority && s.waits[c] in s.waiters && c in s.waiters[s.waits[c]]
    ensures forall m, j :: m in s.waiters && 0 <= j < |s.waiters[m]| ==>
              s.waiters[m][j] in s.priority && s.waiters[m][j] in s.waits && s.waits[s.waiters[m][j]] == m
  {
  }

  /** After giving up `l`, thread `t` is left with at least what the waiters on its other
      locks are due. */
  lemma LetGoEnough(s: Sys, t: Tid, l: Lid, c: Tid)
    requires Inv(s) && Running(s, t) && l in s.holder && s.holder[l] == t && Fields(LetGo(s, t, l))
    requires WaitsFor(LetGo(s, t, l), c, t)
    ensures c in s.priority && c != t && LetGo(s, t, l).extra[t] >= Effective(LetGo(s, t, l), c)
  {
    LetGoIs(s, t, l);
    RestHeld(s, t, l);
    WaitingThreads(s);
    ThreadFields(s, c);
    hide Inv, Fields, LetGo, Remove;
    var r, rest, m := LetGo(s, t, l), Remove(s.locks[t], l), s.waits[c];
    SameEffective(s, r, c);
    hide Effective;
    assert m in rest;
    assert Donated(s, rest) >= Greatest(s, s.waiters[m]) >= Effective(s, c);
  }

  lemma GreatestWaiter(s: Sys, m: Lid) returns (c: Tid)
    requires Inv(s) && m in s.waiters && Greatest(s, s.waiters[m]) != 0
    ensures c in s.waits && s.waits[c] == m && c in s.priority && c in s.extra
    ensures Greatest(s, s.waiters[m]) == Effective(s, c)
  {
    WaitingThreads(s);
    GreatestWitness(s, s.waiters[m]);
    var j :| 0 <= j < |s.waiters[m]| && Greatest(s, s.waiters[m]) == Effective(s, s.waiters[m][j]);
    c := s.waiters[m][j];
  }

  /** And with no more than one of them is due. */
  lemma LetGoNoMore(s: Sys, t: Tid, l: Lid)
    requires Inv(s) && Running(s, t) && l in s.holder && s.holder[l] == t && Fields(LetGo(s, t, l))
    ensures var r := LetGo(s, t, l);
            && r.extra[t] >= 0
            && (r.extra[t] == 0 || exists c :: WaitsFor(r, c, t) && c in r.priority && r.extra[t] == Effective(r, c))
  {
    LetGoIs(s, t, l);
    RestHeld(s, t, l);
    hide LetGo, Remove, Greatest, Donated, Effective;
    var r, rest := LetGo(s, t, l), Remove(s.locks[t], l);
    DonatedNat(s, rest);
    if r.extra[t] != 0 {
      var m := DonatedWitness(s, rest);
      var c := GreatestWaiter(s, m);
      hide Inv, Fields;
      SameEffective(s, r, c);
      assert WaitsFor(r, c, t);
    }
  }

  lemma LetGoOwed(s: Sys, t: Tid, l: Lid)
    requires Inv(s) && Running(s, t) && l in s.holder && s.holder[l] == t
    ensures Fields(LetGo(s, t, l)) && Owed(LetGo(s, t, l), t)
  {
    LetGoFields(s, t, l);
    LetGoNoMore(s, t, l);
    hide Inv, LetGo, Effective;
    forall c | WaitsFor(LetGo(s, t, l), c, t) ensures LetGo(s, t, l).extra[t] >= Effective(LetGo(s, t, l), c) {
      LetGoEnough(s, t, l, c);
    }
  }

  /** The same threads wait for `t`, with the same priorities. */
  lemma OwedStill(s: Sys, r: Sys, t: Tid)
    requires Fields(s) && Fields(r) && t in s.priority && Owed(s, t)
    requires r.priority == s.priority && r.extra == s.extra && forall c :: WaitsFor(r, c, t) <==> WaitsFor(s, c, t)
    ensures Owed(r, t)
  {
  }

  /** Waking somebody who waited for a free lock changes nothing for `t`. */
  lemma WakeOwed(g: Sys, l: Lid, w: Tid, t: Tid)
    requires Fields(g) && l in g.waiters && w in g.waits && g.waits[w] == l && l !in g.holder
    requires t in g.priority && Owed(g, t) && Fields(Wake(g, l, w))
    ensures Owed(Wake(g, l, w), t)
  {
    hide Fields, Remove, Owed;
    OwedStill(g, Wake(g, l, w), t);
  }

  /** lock_release gives back every donation that came through the lock: the holder is left
      with exactly the greatest priority of those who wait for a lock that it still holds,
      or with none. */
  lemma ReleaseOwed(s: Sys, t: Tid, l: Lid)
    requires Inv(s) && Running(s, t) && l in s.holder && s.holder[l] == t
    ensures Fields(Release(s, t, l)) && t in Release(s, t, l).priority && Owed(Release(s, t, l), t)
  {
    ReleaseKeeps(s, t, l);
    LetGoOwed(s, t, l);
    LetGoIs(s, t, l);
    var g := LetGo(s, t, l);
    if s.waiters[l] != [] {
      WaitingThreads(s);
      WakeOwed(g, l, s.waiters[l][MaxIndex(g, s.waiters[l])], t);
    }
  }

  /** The first of the waiters with the greatest priority has left the list of `l` and will
      try the lock; the others keep their order. */
  ghost predicate WokeGreatest(s: Sys, r: Sys, l: Lid)
    requires Fields(r) && l in s.waiters && forall i :: 0 <= i < |s.waiters[l]| ==> s.waiters[l][i] in r.priority
  {
    var ws := s.waiters[l];
    if ws == [] then r.waiters == s.waiters && r.waits == s.waits && r.woken == s.woken
    else exists k: nat ::
           && IsFirstMax(r, ws, k) && r.waiters == s.waiters[l := ws[..k] + ws[k + 1..]]
           && r.waits == s.waits - {ws[k]} && r.woken == s.woken[ws[k] := l]
  }

  /** What lock_release does besides the donated priority. */
  ghost predicate HandedOn(s: Sys, r: Sys, t: Tid, l: Lid) {
    && r.priority == s.priority && r.holder == s.holder - {l}
    && t in s.locks && r.locks == s.locks[t := Remove(s.locks[t], l)]
    && l in s.waiters && r.parent == s.parent - set c | c in s.waiters[l]
    && t in r.extra && r.extra == s.extra[t := r.extra[t]]
  }

  lemma LetGoHandsOn(s: Sys, t: Tid, l: Lid)
    requires Fields(s) && l in s.holder && s.holder[l] == t
    ensures HandedOn(s, LetGo(s, t, l), t, l)
  {
    hide Donated, Remove;
  }

  lemma WakeIs(s: Sys, g: Sys, l: Lid, k: nat)
    requires Fields(g) && l in s.waiters && WaitOk(s.waiters, s.waits) && g.waiters == s.waiters && g.waits == s.waits && g.woken == s.woken
    requires (forall i :: 0 <= i < |s.waiters[l]| ==> s.waiters[l][i] in g.priority) && IsFirstMax(g, s.waiters[l], k)
    requires Fields(Wake(g, l, s.waiters[l][k]))
    ensures WokeGreatest(s, Wake(g, l, s.waiters[l][k]), l)
  {
    var ws := s.waiters[l];
    RemoveIs(ws, k);
    var r := Wake(g, l, ws[k]);
    hide Remove, Fields, WaitOk;
    assert IsFirstMax(r, ws, k);
  }

  /** lock_release, field by field. */
  lemma ReleaseMeans(s: Sys, t: Tid, l: Lid)
    requires Inv(s) && Running(s, t) && l in s.holder && s.holder[l] == t
    ensures var r := Release(s, t, l);
            && HandedOn(s, r, t, l) && Fields(r)
            && (forall i :: 0 <= i < |s.waiters[l]| ==> s.waiters[l][i] in r.priority) && WokeGreatest(s, r, l)
  {
    ReleaseKeeps(s, t, l);
    LetGoFields(s, t, l);
    LetGoHandsOn(s, t, l);
    var g := LetGo(s, t, l);
    assert g.waiters == s.waiters && g.waits == s.waits && g.woken == s.woken;
    hide LetGo, Remove;
    if s.waiters[l] != [] {
      WakeIs(s, g, l, MaxIndex(g, s.waiters[l]));
    }
  }

  // Runs: nobody ever has more than is due.

  /** What `t` was donated, somebody who waits for it has. */
  ghost predicate Deserves(s: Sys, t: Tid)
    requires Fields(s) && t in s.priority
  {
    s.extra[t] <= 0 || exists c :: WaitsFor(s, c, t) && s.extra[t] <= Effective(s, c)
  }

  ghost predicate AllDeserve(s: Sys)
    requires Fields(s)
  {
    forall t :: t in s.priority ==> Deserves(s, t)
  }

  /** Who waited for `t` still does, with no less. */
  ghost predicate WaitersKept(s: Sys, r: Sys, t: Tid) {
    forall c :: WaitsFor(s, c, t) ==>
      && WaitsFor(r, c, t) && c in s.priority && c in r.priority && c in s.extra && c in r.extra
      && r.priority[c] == s.priority[c] && r.extra[c] >= s.extra[c]
  }

  lemma DeservesStill(s: Sys, r: Sys, t: Tid)
    requires Fields(s) && Fields(r) && t in s.priority && t in r.priority && r.extra[t] == s.extra[t] && Deserves(s, t)
    requires WaitersKept(s, r, t)
    ensures Deserves(r, t)
  {
  }

  lemma OwedDeserves(s: Sys, t: Tid)
    requires Fields(s) && t in s.priority && Owed(s, t)
    ensures Deserves(s, t)
  {
  }

  /** Who is above `t` has a child that is `t` or above `t` itself. */
  lemma {:induction false} ChildOf(parent: map<Tid, Tid>, t: Tid, n: nat, x: Tid) returns (c: Tid)
    requires x in Above(parent, t, n)
    ensures c in parent && parent[c] == x && (c == t || c in Above(parent, t, n))
    decreases n
  {
    if x == parent[t] {
      c := t;
    } else {
      c := ChildOf(parent, parent[t], n - 1, x);
    }
  }

  lemma BlockIs(s: Sys, t: Tid, l: Lid)
    requires Inv(s) && Running(s, t) && l in s.holder
    ensures var r := AcquireBusy(s, t, l);
            && Fields(s) && Fields(r) && r.priority == s.priority && r.holder == s.holder && Lent(s, t, l, r.extra)
            && r.parent == s.parent[t := s.holder[l]] && r.waits == s.waits[t := l] && t !in s.waits
            && ParentOk(r.parent, r.waits, r.holder)
  {
    DonateSame(s, t, l);
    BlockLends(s, t, l);
    ParentAppend(s.parent, s.waits, s.holder, t, l);
  }

  /** A thread that got more has a child with as much. */
  lemma RaisedByChild(s: Sys, r: Sys, t: Tid, l: Lid, x: Tid)
    requires Fields(s) && Fields(r) && t in s.priority && l in s.holder && x in s.extra && Lent(s, t, l, r.extra)
    requires r.priority == s.priority && r.parent == s.parent[t := s.holder[l]] && ParentOk(r.parent, r.waits, r.holder)
    requires r.extra[x] != s.extra[x]
    ensures x in r.priority && Deserves(r, x)
  {
    hide Above;
    var c := ChildOf(r.parent, t, MAX_DEPTH + 1, x);
    assert WaitsFor(r, c, x);
    assert Effective(r, c) >= Effective(s, t);
  }

  lemma BlockKeeps(s: Sys, r: Sys, t: Tid, l: Lid, x: Tid)
    requires Fields(s) && Fields(r) && t in s.priority && l in s.holder && Lent(s, t, l, r.extra)
    requires r.priority == s.priority && r.holder == s.holder && r.waits == s.waits[t := l] && t !in s.waits
    ensures WaitersKept(s, r, x)
  {
    hide Above;
  }

  lemma BlockDeserved(s: Sys, t: Tid, l: Lid, x: Tid)
    requires Inv(s) && Running(s, t) && l in s.holder && x in s.priority && Deserves(s, x)
    ensures var r := AcquireBusy(s, t, l); Fields(r) && x in r.priority && Deserves(r, x)
  {
    var r := AcquireBusy(s, t, l);
    BlockIs(s, t, l);
    ThreadFields(s, x);
    hide *;
    if r.extra[x] == s.extra[x] {
      BlockKeeps(s, r, t, l, x);
      DeservesStill(s, r, x);
    } else {
      RaisedByChild(s, r, t, l, x);
    }
  }

  lemma LetGoWaiters(s: Sys, t: Tid, l: Lid, x: Tid)
    requires Inv(s) && Running(s, t) && l in s.holder && s.holder[l] == t && x in s.priority && x != t
    ensures var g := LetGo(s, t, l);
            x in g.priority && x in g.extra && x in s.extra && g.extra[x] == s.extra[x] && WaitersKept(s, g, x)
  {
    LetGoIs(s, t, l);
    hide LetGo, Remove, EdgesOk, WaitOk, HeldOk, ParentOk, Donated;
  }

  lemma WakeWaiters(s: Sys, g: Sys, l: Lid, w: Tid, x: Tid)
    requires l in g.waiters && WaitersKept(s, g, x) && l in s.holder && s.holder[l] != x && w in s.waits && s.waits[w] == l
    ensures WaitersKept(s, Wake(g, l, w), x)
  {
    hide Remove;
  }

  lemma ReleaseIs(s: Sys, t: Tid, l: Lid, x: Tid)
    requires Inv(s) && Running(s, t) && l in s.holder && s.holder[l] == t && x in s.priority && x != t
    ensures var r := Release(s, t, l);
            Fields(r) && x in r.priority && x in r.extra && x in s.extra && r.extra[x] == s.extra[x] && WaitersKept(s, r, x)
  {
    ReleaseKeeps(s, t, l);
    LetGoWaiters(s, t, l, x);
    LetGoFields(s, t, l);
    LockFields(s, l);
    WaitingThreads(s);
    hide LetGo, Inv;
    var g := LetGo(s, t, l);
    if s.waiters[l] != [] {
      var w := s.waiters[l][MaxIndex(g, s.waiters[l])];
      assert Release(s, t, l) == Wake(g, l, w);
      hide Fields;
      WakeWaiters(s, g, l, w, x);
    }
  }

  lemma ReleaseDeserved(s: Sys, t: Tid, l: Lid, x: Tid)
    requires Inv(s) && Running(s, t) && l in s.holder && s.holder[l] == t && x in s.priority && Deserves(s, x)
    ensures var r := Release(s, t, l); Fields(r) && x in r.priority && Deserves(r, x)
  {
    ReleaseOwed(s, t, l);
    hide *;
    if x == t {
      OwedDeserves(Release(s, t, l), t);
    } else {
      ReleaseIs(s, t, l, x);
      InvFields(s);
      DeservesStill(s, Release(s, t, l), x);
    }
  }

  lemma InvFields(s: Sys)
    requires Inv(s)
    ensures Fields(s)
  {
  }

  lemma TakeKeeps(s: Sys, t: Tid, l: Lid, x: Tid)
    requires Fields(s) && l !in s.holder && t in s.locks
    ensures WaitersKept(s, AcquireFree(s, t, l), x)
  {
  }

  /** The steps that take nobody off a list or from a lock. */
  lemma OtherKeeps(s: Sys, a: Step, x: Tid)
    requires Inv(s) && Enabled(s, a) && x in s.priority
    requires !a.LetLockGo? && (a.Acquire? ==> a.l !in s.holder)
    ensures var r := Apply(s, a);
            x in r.priority && x in r.extra && x in s.extra && r.extra[x] == s.extra[x] && WaitersKept(s, r, x)
  {
    hide EdgesOk, WaitOk, HeldOk, ParentOk;
    if a.Acquire? { TakeKeeps(s, a.t, a.l, x); }
  }

  lemma ApplyIs(s: Sys, a: Step)
    requires Fields(s) && Enabled(s, a)
    ensures a.LetLockGo? ==> Running(s, a.t) && a.l in s.holder && s.holder[a.l] == a.t && Apply(s, a) == Release(s, a.t, a.l)
    ensures a.Acquire? ==> Running(s, a.t) && a.t in s.priority && (a.l in s.holder ==> Apply(s, a) == AcquireBusy(s, a.t, a.l))
  {
  }

  lemma StepDeserved(s: Sys, a: Step, x: Tid)
    requires Inv(s) && Enabled(s, a) && ShortChain(s, a) && AllDeserve(s) && x in Apply(s, a).priority
    ensures Fields(Apply(s, a)) && Deserves(Apply(s, a), x)
  {
    StepKeeps(s, a);
    InvFields(s);
    InvFields(Apply(s, a));
    ApplyIs(s, a);
    hide *;
    if x in s.priority { AllDeserveAt(s, x); }
    if a.LetLockGo? {
      ReleaseThreads(s, a.t, a.l);
      ReleaseDeserved(s, a.t, a.l, x);
    } else if a.Acquire? && a.l in s.holder {
      BlockIs(s, a.t, a.l);
      BlockDeserved(s, a.t, a.l, x);
    } else if x in s.priority {
      OtherKeeps(s, a, x);
      DeservesStill(s, Apply(s, a), x);
    } else {
      NewDeserves(s, a, x);
    }
  }

  lemma ReleaseThreads(s: Sys, t: Tid, l: Lid)
    requires Fields(s) && l in s.holder && s.holder[l] == t
    ensures Release(s, t, l).priority == s.priority
  {
    hide MaxIndex, Donated, Remove;
  }

  lemma NewDeserves(s: Sys, a: Step, x: Tid)
    requires Fields(s) && Enabled(s, a) && x !in s.priority && x in Apply(s, a).priority && Fields(Apply(s, a))
    requires !a.LetLockGo? && !(a.Acquire? && a.l in s.holder)
    ensures Deserves(Apply(s, a), x)
  {
  }

  lemma NextDeserved(s: Sys, a: Step, r: Sys)
    requires Inv(s) && AllDeserve(s) && Next(s, a, r)
    ensures Inv(r) && AllDeserve(r)
  {
    hide Inv, Fields, Deserves, Apply, Enabled, ShortChain;
    StepKeeps(s, a);
    InvFields(r);
    forall t | t in r.priority ensures Deserves(r, t) {
      StepDeserved(s, a, t);
    }
  }

  lemma RunLength(states: seq<Sys>, steps: seq<Step>)
    requires IsRun(states, steps)
    ensures |states| == |steps| + 1
  {
    hide Next;
  }

  lemma RunNext(states: seq<Sys>, steps: seq<Step>, k: nat)
    requires IsRun(states, steps) && k < |steps|
    ensures Next(states[k], steps[k], states[k + 1])
  {
    hide Next;
  }

  lemma BootDeserved()
    ensures Inv(Boot()) && AllDeserve(Boot())
  {
  }

  lemma {:induction false} RunDeserved(states: seq<Sys>, steps: seq<Step>, k: nat)
    requires IsRun(states, steps) && k < |states|
    ensures Inv(states[k]) && AllDeserve(states[k])
  {
    hide Inv, AllDeserve, Next;
    if k == 0 {
      BootDeserved();
    } else {
      RunDeserved(states, steps, k - 1);
      RunNext(states, steps, k - 1);
      NextDeserved(states[k - 1], steps[k - 1], states[k]);
    }
  }

  /** In every state of every run a donated priority is one that somebody has who waits for
      a lock that the thread holds; and a release leaves exactly the greatest of those. */
  lemma NothingUndeserved(states: seq<Sys>, steps: seq<Step>, i: nat, t: Tid)
    requires IsRun(states, steps) && i < |states| && t in states[i].priority
    ensures Fields(states[i]) && Deserves(states[i], t)
    ensures i > 0 && steps[i - 1].LetLockGo? && steps[i - 1].t == t ==> Owed(states[i], t)
  {
    hide *;
    RunLength(states, steps);
    RunDeserved(states, steps, i);
    AllDeserveAt(states[i], t);
    if i > 0 && steps[i - 1].LetLockGo? && steps[i - 1].t == t {
      RunKeeps(states, steps, i - 1);
      RunNext(states, steps, i - 1);
      NextOwed(states[i - 1], steps[i - 1], states[i]);
    }
  }

  lemma AllDeserveAt(s: Sys, t: Tid)
    requires Inv(s) && AllDeserve(s) && t in s.priority
    ensures Fields(s) && Deserves(s, t)
  {
  }

  lemma NextOwed(s: Sys, a: Step, r: Sys)
    requires Inv(s) && Next(s, a, r) && a.LetLockGo?
    ensures Fields(r) && a.t in r.priority && Owed(r, a.t)
  {
    ReleaseOwed(s, a.t, a.l);
  }
}
