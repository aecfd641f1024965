/** A chain of ten edges loses a donation, and it can come about: a run from boot leads to
    the state before it. */
module LongChain {

  import opened Donation
  import opened PriorityLocks

  /** Some run ends in this state. */
  ghost predicate Reachable(s: Sys) {
    exists states: seq<Sys>, steps: seq<Step> :: IsRun(states, steps) && states[|steps|] == s
  }

  lemma BootReachable()
    ensures Reachable(Boot())
  {
    assert IsRun([Boot()], []);
  }

  lemma StepReachable(s: Sys, a: Step, r: Sys)
    requires Reachable(s) && Next(s, a, r)
    ensures Reachable(r)
  {
    hide Next;
    var states: seq<Sys>, steps: seq<Step> :| IsRun(states, steps) && states[|steps|] == s;
    var states', steps' := states + [r], steps + [a];
    forall i | 0 <= i < |steps'| ensures Next(states'[i], steps'[i], states'[i + 1]) {
      if i < |steps| { assert Next(states[i], steps[i], states[i + 1]); }
    }
    assert IsRun(states', steps') && states'[|steps'|] == r;
  }

  /** The map from each number from `lo` to `hi - 1` to its value under `f`. */
  ghost function Table<V>(lo: nat, hi: nat, f: nat -> V): (r: map<nat, V>)
    ensures forall x: nat :: x in r <==> lo <= x < hi
    ensures forall x: nat :: lo <= x < hi ==> r[x] == f(x)
  {
    if hi <= lo then map[] else Table(lo, hi - 1, f)[hi - 1 := f(hi - 1)]
  }

  /** On the way to a line of waiting threads: locks 1 to `l - 1`, threads 0 to `t - 1`, of
      which 1 to `h - 1` hold their locks and `j` to `n - 1` wait for the next one. Only
      thread 0 has a priority above 0. */
  ghost function Stage(l: nat, t: nat, h: nat, j: nat, n: nat): (s: Sys) {
    Sys(Table(0, t, x => if x == 0 then 5 else 0),
        Table(0, t, x => 0),
        Table(j, n, x => x + 1),
        Table(0, t, x => if 1 <= x < h then [x] else []),
        Table(1, h, x => x),
        Table(1, l, x => if j < x <= n then [x - 1] else []),
        Table(j, n, x => x + 1),
        map[])
  }

  /** Threads 1 to n hold the locks of their number and all but the last wait for the
      next one; thread 0, with a higher priority, is about to ask for lock 1. */
  ghost function Line(n: nat): (s: Sys) {
    Stage(n + 1, n + 1, n + 1, 1, n)
  }

  /** The bounds of the stages below. */
  ghost predicate Staged(l: nat, t: nat, h: nat, j: nat, n: nat) {
    && 1 <= h <= l && (h == 1 || h <= t)
    && 1 <= j <= n && (j < n ==> n < h)
  }

  lemma StageFields(l: nat, t: nat, h: nat, j: nat, n: nat)
    requires Staged(l, t, h, j, n)
    ensures Fields(Stage(l, t, h, j, n))
  {
    hide Table;
  }

  lemma InitStage(l: nat, n: nat)
    requires 1 <= l && 1 <= n
    ensures var s := Stage(l, 0, 1, n, n); l !in s.waiters && Stage(l + 1, 0, 1, n, n) == s.(waiters := s.waiters[l := []])
  {
    hide Table;
    var s, r := Stage(l, 0, 1, n, n), Stage(l + 1, 0, 1, n, n);
    assert r.waiters == s.waiters[l := []];
    assert r == s.(waiters := r.waiters);
  }

  lemma LocksMap(l: nat, t: nat, n: nat)
    requires 1 <= l && 1 <= n
    ensures var s, r := Stage(l, t, 1, n, n), Stage(l, t + 1, 1, n, n); r.locks == s.locks[t := []]
  {
    hide Table;
  }

  lemma CreateStage(l: nat, t: nat, n: nat)
    requires 1 <= l && 1 <= n
    ensures var s := Stage(l, t, 1, n, n);
            t !in s.priority && Stage(l, t + 1, 1, n, n) == Spawn(s, t, if t == 0 then 5 else 0)
  {
    hide Table;
    var s, r := Stage(l, t, 1, n, n), Stage(l, t + 1, 1, n, n);
    assert r.priority == s.priority[t := if t == 0 then 5 else 0];
    assert r.extra == s.extra[t := 0];
    LocksMap(l, t, n);
    assert r == s.(priority := r.priority, extra := r.extra, locks := r.locks);
  }

  lemma TakeStage(l: nat, h: nat, n: nat)
    requires 1 <= h < l && 1 <= n
    ensures var s := Stage(l, l, h, n, n);
            && Running(s, h) && h in s.waiters && h !in s.holder && h in s.locks
            && Stage(l, l, h + 1, n, n) == AcquireFree(s, h, h)
  {
    hide Table;
    var s, r := Stage(l, l, h, n, n), Stage(l, l, h + 1, n, n);
    assert s.parent - {h} == s.parent;
    assert r.holder == s.holder[h := h];
    assert s.locks[h] == [] && [] + [h] == [h];
    assert r.locks == s.locks[h := [h]];
    assert r == s.(holder := r.holder, locks := r.locks);
  }

  lemma {:induction false} LocksMade(l: nat, n: nat)
    requires 1 <= l && 1 <= n
    ensures Reachable(Stage(l, 0, 1, n, n))
  {
    hide Reachable, Stage, Fields;
    if l == 1 {
      BootStage(n);
      BootReachable();
    } else {
      LocksMade(l - 1, n);
      StageFields(l - 1, 0, 1, n, n);
      InitStage(l - 1, n);
      StepReachable(Stage(l - 1, 0, 1, n, n), InitLock(l - 1), Stage(l, 0, 1, n, n));
    }
  }

  lemma BootStage(n: nat)
    requires 1 <= n
    ensures Stage(1, 0, 1, n, n) == Boot()
  {
  }

  lemma {:induction false} ThreadsMade(l: nat, t: nat, n: nat)
    requires 1 <= l && 1 <= n
    ensures Reachable(Stage(l, t, 1, n, n))
  {
    hide Reachable, Stage, Fields;
    if t == 0 {
      LocksMade(l, n);
    } else {
      ThreadsMade(l, t - 1, n);
      StageFields(l, t - 1, 1, n, n);
      CreateStage(l, t - 1, n);
      StepReachable(Stage(l, t - 1, 1, n, n), CreateThread(t - 1, if t == 1 then 5 else 0), Stage(l, t, 1, n, n));
    }
  }

  lemma {:induction false} LocksTaken(l: nat, h: nat, n: nat)
    requires 1 <= h <= l && 1 <= n
    ensures Reachable(Stage(l, l, h, n, n))
  {
    hide Reachable, Stage, Fields;
    if h == 1 {
      ThreadsMade(l, l, n);
    } else {
      LocksTaken(l, h - 1, n);
      StageFields(l, l, h - 1, n, n);
      TakeStage(l, h - 1, n);
      StepReachable(Stage(l, l, h - 1, n, n), Acquire(h - 1, h - 1), Stage(l, l, h, n, n));
    }
  }

  /** Where nobody has a priority to give, donation changes nothing. */
  lemma {:induction false} DonateNothing(s: Sys, t: Tid, depth: nat)
    requires Fields(s) && t in s.priority && t != 0 && depth <= MAX_DEPTH + 1
    requires forall x :: x in s.priority ==> s.extra[x] == 0 && (x != 0 ==> s.priority[x] == 0)
    requires forall c :: c in s.parent ==> s.parent[c] != 0
    ensures Donate(s, t, depth) == s
    decreases MAX_DEPTH + 1 - depth
  {
    if depth <= MAX_DEPTH && t in s.parent {
      assert Raise(s, t) == s;
      hide Fields, Raise;
      DonateNothing(s, s.parent[t], depth + 1);
    }
  }

  lemma {:induction false} StageEnds(parent: map<nat, nat>, x: nat, n: nat)
    requires x <= n && n !in parent && forall c :: c in parent && x <= c ==> parent[c] == c + 1
    ensures EndsWithin(parent, x, n - x)
    decreases n - x
  {
    if x in parent { StageEnds(parent, x + 1, n); }
  }

  lemma WaitersMap(j: nat, n: nat)
    requires 1 < j <= n
    ensures var s, r := Stage(n + 1, n + 1, n + 1, j, n), Stage(n + 1, n + 1, n + 1, j - 1, n);
            r.waiters == s.waiters[j := [j - 1]]
  {
    hide Table;
  }

  lemma WaitMaps(j: nat, n: nat)
    requires 1 < j <= n
    ensures var s, r := Stage(n + 1, n + 1, n + 1, j, n), Stage(n + 1, n + 1, n + 1, j - 1, n);
            && j in s.waiters
            && r == s.(parent := s.parent[j - 1 := j], waits := s.waits[j - 1 := j], waiters := s.waiters[j := s.waiters[j] + [j - 1]])
  {
    hide Table;
    var s, r := Stage(n + 1, n + 1, n + 1, j, n), Stage(n + 1, n + 1, n + 1, j - 1, n);
    assert r.parent == s.parent[j - 1 := j];
    assert r.waits == s.waits[j - 1 := j];
    assert s.waiters[j] == [] && [] + [j - 1] == [j - 1];
    WaitersMap(j, n);
    assert r == s.(parent := r.parent, waits := r.waits, waiters := r.waiters);
  }

  lemma WaitFacts(j: nat, n: nat)
    requires 1 < j <= n
    ensures var s := Stage(n + 1, n + 1, n + 1, j, n);
            && Running(s, j - 1) && j in s.holder && s.holder[j] == j && j in s.priority
            && (forall x :: x in s.priority ==> x in s.extra && s.extra[x] == 0 && (x != 0 ==> s.priority[x] == 0))
            && (forall c :: c in s.parent ==> j <= c < n && s.parent[c] == c + 1)
  {
    hide Table;
  }

  /** Thread `j - 1` joins the threads from `j` on that wait. */
  lemma WaitStage(j: nat, n: nat)
    requires 1 < j <= n
    ensures var s := Stage(n + 1, n + 1, n + 1, j, n);
            && Fields(s) && Running(s, j - 1) && j in s.waiters && j in s.holder && s.holder[j] == j && j - 1 in s.priority
            && Stage(n + 1, n + 1, n + 1, j - 1, n) == AcquireBusy(s, j - 1, j)
            && EndsWithin(s.parent[j - 1 := j], j - 1, n - (j - 1))
  {
    hide Table, Stage, Fields, Donate;
    StageFields(n + 1, n + 1, n + 1, j, n);
    WaitMaps(j, n);
    WaitFacts(j, n);
    var s := Stage(n + 1, n + 1, n + 1, j, n);
    WaitFields(s, j - 1, j);
    StageEnds(s.parent[j - 1 := j], j - 1, n);
    DonateNothing(s.(parent := s.parent[j - 1 := j]), j - 1, 0);
  }

  lemma WaitFields(s: Sys, t: Tid, p: Tid)
    requires Fields(s) && t in s.priority && p in s.priority
    ensures Fields(s.(parent := s.parent[t := p]))
  {
  }

  lemma {:induction false} WaitersReached(j: nat, n: nat)
    requires 1 <= j <= n <= MAX_DEPTH + 2
    ensures Reachable(Stage(n + 1, n + 1, n + 1, j, n))
    decreases n - j
  {
    hide Reachable, Stage, Fields, AcquireBusy;
    if j == n {
      LocksTaken(n + 1, n + 1, n);
    } else {
      WaitersReached(j + 1, n);
      WaitStage(j + 1, n);
      var s := Stage(n + 1, n + 1, n + 1, j + 1, n);
      EndsSooner(s.parent[j := j + 1], j, n - j, MAX_DEPTH + 1);
      StepReachable(s, Acquire(j, j + 1), Stage(n + 1, n + 1, n + 1, j, n));
    }
  }

  lemma {:induction false} EndsSooner(parent: map<Tid, Tid>, t: Tid, m: nat, n: nat)
    requires EndsWithin(parent, t, m) && m <= n
    ensures EndsWithin(parent, t, n)
    decreases m
  {
    if t in parent { EndsSooner(parent, parent[t], m - 1, n - 1); }
  }

  /** A line of up to ten holders comes about without any chain of more than nine edges. */
  lemma LineReached(n: nat)
    requires 1 <= n <= MAX_DEPTH + 2
    ensures Reachable(Line(n))
  {
    WaitersReached(1, n);
  }

  // The line has every donation in place, and thread 0 breaks one.

  lemma LineWaits(n: nat)
    requires n > 0
    ensures WaitOk(Line(n).waiters, Line(n).waits)
  {
    hide Table;
    var s := Line(n);
    forall t | t in s.waits ensures s.waits[t] in s.waiters && t in s.waiters[s.waits[t]] {
      assert s.waiters[t + 1] == [t];
    }
  }

  lemma LineHeld(n: nat)
    requires n > 0
    ensures HeldOk(Line(n).holder, Line(n).locks)
  {
    hide Table;
    var s := Line(n);
    forall l | l in s.holder ensures s.holder[l] in s.locks && l in s.locks[s.holder[l]] {
      assert s.locks[l] == [l];
    }
  }

  lemma LineEdges(n: nat)
    requires n > 0 && Fields(Line(n))
    ensures EdgesOk(Line(n)) && ParentOk(Line(n).parent, Line(n).waits, Line(n).holder) && Line(n).woken == map[]
  {
    hide Table, Fields;
  }

  lemma LineInOrder(n: nat)
    requires n > 0
    ensures Inv(Line(n))
  {
    hide Table, Stage, Fields, EdgesOk, WaitOk, HeldOk, ParentOk;
    StageFields(n + 1, n + 1, n + 1, 1, n);
    LineEdges(n);
    LineWaits(n);
    LineHeld(n);
  }

  lemma LineReady(n: nat)
    requires n > 0
    ensures var s := Line(n); Fields(s) && Running(s, 0) && 1 in s.holder && s.holder[1] == 1 && Effective(s, 0) == 5
  {
    StageFields(n + 1, n + 1, n + 1, 1, n);
    hide Fields, Table;
  }

  lemma LineEnds(n: nat)
    requires n > 0
    ensures EndsWithin(Line(n).parent[0 := 1], 0, n)
  {
    hide Table;
    StageEnds(Line(n).parent[0 := 1], 0, n);
  }

  lemma {:induction false} LineBare(n: nat, t: nat, m: nat)
    requires t + m < n && 1 in Line(n).holder && Fields(Waiting(Line(n), 0, 1)) && t in Line(n).priority
    ensures !Beyond(Waiting(Line(n), 0, 1), t, m, 5)
    decreases m
  {
    hide Table, Fields;
    if m > 0 { LineBare(n, t + 1, m - 1); }
  }

  /** Every line of ten or more holders has all its donations in place, and loses one
      when thread 0 joins. */
  lemma TenEdgesFail(n: nat)
    requires n >= 10
    ensures var s := Line(n);
            && Inv(s) && Running(s, 0) && 1 in s.holder && s.holder[1] == 1
            && EndsWithin(s.parent[0 := 1], 0, n)
            && !Inv(AcquireBusy(s, 0, 1))
  {
    hide Table, Stage, Inv, Fields, EndsWithin, Beyond, Running, AcquireBusy;
    LineInOrder(n);
    LineReady(n);
    LineEnds(n);
    AcquireBusyExact(Line(n), 0, 1, n);
    LineBare(n, 0, 9);
  }

  /** So the kernel can lose a donation: a run leads to a state where the next blocking
      acquire leaves one missing. */
  lemma TenthEdgeReached()
    ensures Reachable(Line(10)) && Fields(Line(10)) && Enabled(Line(10), Acquire(0, 1))
    ensures !Inv(Apply(Line(10), Acquire(0, 1)))
  {
    LineReached(10);
    TenEdgesFail(10);
    LineReady(10);
    hide Reachable, Inv, Fields, AcquireBusy, Table;
  }
}
