/** Locks with priority donation, outside the multi-level feedback queue scheduler.

    A thread that blocks on a lock records the holder as its parent and raises the
    donated priority of its ancestors, at most nine of them. */
module Donation {

  type Tid = nat
  type Lid = nat

  /** donate_up stops once its depth exceeds this. */
  const MAX_DEPTH: nat := 8

  /** The scheduling fields of all threads and locks. A thread without a parent is not
      in `parent`, a free lock is not in `holder`. `waits` says on which lock's list a
      thread is, and `woken` which lock a thread will try again. */
  datatype Sys = Sys(
    priority: map<Tid, int>,
    extra: map<Tid, int>,
    parent: map<Tid, Tid>,
    locks: map<Tid, seq<Lid>>,
    holder: map<Lid, Tid>,
    waiters: map<Lid, seq<Tid>>,
    waits: map<Tid, Lid>,
    woken: map<Tid, Lid>)

  function Max(a: int, b: int): (m: int) {
    if a > b then a else b
  }

  ghost predicate Fields(s: Sys) {
    && s.extra.Keys == s.priority.Keys == s.locks.Keys
    && s.parent.Keys <= s.priority.Keys && s.waits.Keys <= s.priority.Keys && s.woken.Keys <= s.priority.Keys
    && (forall t :: t in s.parent ==> s.parent[t] in s.priority)
    && (forall l :: l in s.holder ==> s.holder[l] in s.priority && l in s.waiters)
    && (forall l, i :: l in s.waiters && 0 <= i < |s.waiters[l]| ==> s.waiters[l][i] in s.priority)
    && (forall t, i :: t in s.locks && 0 <= i < |s.locks[t]| ==> s.locks[t][i] in s.waiters)
  }

  lemma ThreadFields(s: Sys, t: Tid)
    requires Fields(s) && t in s.priority
    ensures t in s.extra && t in s.locks
    ensures t in s.parent ==> s.parent[t] in s.priority && s.parent[t] in s.extra
  {
  }

  lemma LockFields(s: Sys, l: Lid)
    requires Fields(s) && l in s.holder
    ensures l in s.waiters && s.holder[l] in s.priority
  {
  }

  /** The priority that the scheduler goes by. */
  ghost function Effective(s: Sys, t: Tid): int
    requires Fields(s) && t in s.priority
  {
    Max(s.priority[t], s.extra[t])
  }

  ghost predicate EdgeOk(s: Sys, c: Tid)
    requires Fields(s) && c in s.parent
  {
    s.extra[s.parent[c]] >= Effective(s, c)
  }

  /** Every parent has at least the effective priority of its children. */
  ghost predicate EdgesOk(s: Sys)
    requires Fields(s)
  {
    forall c :: c in s.parent ==> EdgeOk(s, c)
  }

  ghost predicate EdgesOkBut(s: Sys, t: Tid)
    requires Fields(s)
  {
    forall c :: c in s.parent && c != t ==> EdgeOk(s, c)
  }

  /** The chain of parents from `t` ends after at most `n` edges. */
  ghost predicate EndsWithin(parent: map<Tid, Tid>, t: Tid, n: nat)
    decreases n
  {
    t in parent ==> n > 0 && EndsWithin(parent, parent[t], n - 1)
  }

  /** donate_up. */
  ghost function Donate(s: Sys, t: Tid, depth: nat): (r: Sys)
    requires Fields(s) && t in s.priority
    ensures Fields(r) && r == s.(extra := r.extra) && r.extra.Keys == s.extra.Keys
    decreases MAX_DEPTH + 1 - depth
  {
    if depth > MAX_DEPTH || t !in s.parent then s
    else Donate(Raise(s, t), s.parent[t], depth + 1)
  }

  ghost function Raise(s: Sys, t: Tid): (r: Sys)
    requires Fields(s) && t in s.parent
    ensures Fields(r)
  {
    var p := s.parent[t];
    s.(extra := s.extra[p := Max(s.extra[p], Effective(s, t))])
  }

  lemma RaiseEdges(s: Sys, t: Tid)
    requires Fields(s) && t in s.parent && EdgesOkBut(s, t)
    ensures EdgesOkBut(Raise(s, t), s.parent[t])
  {
    var r, p := Raise(s, t), s.parent[t];
    forall c | c in r.parent && c != p ensures EdgeOk(r, c) {
      if c != t { assert EdgeOk(s, c); }
    }
  }

  lemma {:induction false} NoSelfLoop(parent: map<Tid, Tid>, t: Tid, n: nat)
    requires EndsWithin(parent, t, n) && t in parent
    ensures parent[t] != t
  {
    if parent[t] == t { NoSelfLoop(parent, t, n - 1); }
  }

  /** Where donation stops: the edge that it does not reach, if any, already carries
      at least `e`. */
  ghost predicate Beyond(s: Sys, t: Tid, m: nat, e: int)
    requires Fields(s) && t in s.priority
    decreases m
  {
    t in s.parent ==>
      if m == 0 then s.extra[s.parent[t]] >= e else Beyond(s, s.parent[t], m - 1, e)
  }

  /** The number of edges of a chain that ends. */
  ghost function Length(parent: map<Tid, Tid>, t: Tid, n: nat): nat
    requires EndsWithin(parent, t, n)
    decreases n
  {
    if t in parent then 1 + Length(parent, parent[t], n - 1) else 0
  }

  lemma {:induction false} LengthUnique(parent: map<Tid, Tid>, t: Tid, m: nat, n: nat)
    requires EndsWithin(parent, t, m) && EndsWithin(parent, t, n)
    ensures Length(parent, t, m) == Length(parent, t, n)
    decreases m
  {
    if t in parent { LengthUnique(parent, parent[t], m - 1, n - 1); }
  }

  /** `t` is not on the chain from `q`. */
  ghost predicate OffChain(parent: map<Tid, Tid>, q: Tid, t: Tid, n: nat)
    decreases n
  {
    q != t && (q in parent ==> n > 0 && OffChain(parent, parent[q], t, n - 1))
  }

  /** A shorter chain does not lead back to the start of a longer one. */
  lemma {:induction false} ShorterIsOff(parent: map<Tid, Tid>, q: Tid, n: nat, t: Tid, m: nat)
    requires EndsWithin(parent, q, n) && EndsWithin(parent, t, m) && Length(parent, q, n) < Length(parent, t, m)
    ensures OffChain(parent, q, t, n)
    decreases n
  {
    if q == t { LengthUnique(parent, q, n, m); }
    if q in parent { ShorterIsOff(parent, parent[q], n - 1, t, m); }
  }

  /** Above `q` donated priorities are at least the effective priority of `q`. */
  lemma {:induction false} BeyondMax(s: Sys, q: Tid, n: nat, t: Tid, m: nat, e: int, x: int)
    requires Fields(s) && q in s.priority && EdgesOkBut(s, t) && OffChain(s.parent, q, t, n) && x <= Effective(s, q)
    ensures Beyond(s, q, m, Max(x, e)) <==> Beyond(s, q, m, e)
    decreases n
  {
    if q in s.parent {
      assert EdgeOk(s, q);
      if m > 0 { BeyondMax(s, s.parent[q], n - 1, t, m - 1, e, x); }
    }
  }

  /** Raising a thread that is not above `q` changes nothing there. */
  lemma {:induction false} BeyondFrame(s: Sys, r: Sys, q: Tid, n: nat, p: Tid, m: nat, e: int)
    requires Fields(s) && Fields(r) && r == s.(extra := r.extra) && q in s.priority
    requires forall t :: t in s.extra && t != p ==> r.extra[t] == s.extra[t]
    requires q in s.parent ==> n > 0 && OffChain(s.parent, s.parent[q], p, n - 1)
    ensures Beyond(r, q, m, e) <==> Beyond(s, q, m, e)
    decreases n
  {
    if q in s.parent && m > 0 {
      BeyondFrame(s, r, s.parent[q], n - 1, p, m - 1, e);
    }
  }

  lemma RaiseSame(s: Sys, t: Tid)
    requires Fields(s) && t in s.parent
    ensures Raise(s, t).parent == s.parent && Raise(s, t).priority == s.priority && s.parent[t] in s.priority
  {
  }

  lemma RaiseBeyond(s: Sys, t: Tid, n: nat, m: nat)
    requires Fields(s) && t in s.parent && EdgesOkBut(s, t) && EndsWithin(s.parent, t, n)
    ensures var r, p := Raise(s, t), s.parent[t];
            Beyond(r, p, m, Effective(r, p)) <==> Beyond(s, p, m, Effective(s, t))
  {
    var r, p, e := Raise(s, t), s.parent[t], Effective(s, t);
    assert Effective(r, p) == Max(Effective(s, p), e);
    ShorterIsOff(s.parent, p, n - 1, t, n);
    if p in s.parent { ShorterIsOff(s.parent, s.parent[p], n - 2, p, n - 1); }
    BeyondFrame(s, r, p, n - 1, p, m, Max(Effective(s, p), e));
    BeyondMax(s, p, n - 1, t, m, e, Effective(s, p));
  }

  /** Donation along a chain that ends restores every edge exactly when the chain has at
      most nine edges or the tenth already carries the donor's priority. */
  lemma {:induction false} DonateExact(s: Sys, t: Tid, depth: nat, n: nat)
    requires Fields(s) && t in s.priority && EdgesOkBut(s, t) && EndsWithin(s.parent, t, n)
    requires depth <= MAX_DEPTH + 1
    ensures EdgesOk(Donate(s, t, depth)) <==> Beyond(s, t, MAX_DEPTH + 1 - depth, Effective(s, t))
    decreases n
  {
    if t in s.parent {
      var p, e := s.parent[t], Effective(s, t);
      if depth > MAX_DEPTH {
        hide Fields;
        assert EdgesOk(s) <==> EdgeOk(s, t);
      } else {
        NoSelfLoop(s.parent, t, n);
        RaiseEdges(s, t);
        RaiseBeyond(s, t, n, MAX_DEPTH - depth);
        RaiseSame(s, t);
        hide Fields, EdgesOkBut, EdgesOk, Raise, Effective, Max;
        DonateExact(Raise(s, t), p, depth + 1, n - 1);
      }
    }
  }

  lemma {:induction false} ShortEnough(s: Sys, t: Tid, m: nat, e: int)
    requires Fields(s) && t in s.priority && EndsWithin(s.parent, t, m)
    ensures Beyond(s, t, m, e)
    decreases m
  {
    if t in s.parent { ShortEnough(s, s.parent[t], m - 1, e); }
  }
}
