/** The fair reader/writer lock: requests are admitted strictly in the order in which
    they arrive, and a release hands the lock over directly. */
module RwLocks {

  datatype Request = Request(id: nat, writer: bool)

  /** Active holders and the wait queue, with the requests admitted so far. */
  datatype Rw = Rw(readers: nat, writers: nat, queue: seq<Request>, admitted: seq<Request>)

  function Enter(s: Rw, r: Request): (s': Rw) {
    if r.writer then s.(writers := s.writers + 1, admitted := s.admitted + [r])
    else s.(readers := s.readers + 1, admitted := s.admitted + [r])
  }

  /** Whether a request can join the present holders. */
  predicate CanEnter(s: Rw, r: Request) {
    s.writers == 0 && (r.writer ==> s.readers == 0)
  }

  /** A request arrives: it enters at once only if nobody waits. */
  function Arrive(s: Rw, r: Request): (s': Rw) {
    if s.queue == [] && CanEnter(s, r) then Enter(s, r) else s.(queue := s.queue + [r])
  }

  /** Admits waiters from the front for as long as they can enter. */
  function Drain(s: Rw): (s': Rw)
    decreases |s.queue|
  {
    if s.queue == [] || !CanEnter(s, s.queue[0]) then s
    else Drain(Enter(s.(queue := s.queue[1..]), s.queue[0]))
  }

  function Leave(s: Rw): (s': Rw)
    requires s.readers + s.writers > 0
  {
    var s1 := if s.readers > 0 then s.(readers := s.readers - 1) else s.(writers := s.writers - 1);
    if s1.readers == 0 && s1.writers == 0 then Drain(s1) else s1
  }

  /** Never a reader with a writer nor two writers; waiters imply a holder; while
      readers are active a writer is next. */
  ghost predicate Safe(s: Rw) {
    && s.writers <= 1 && (s.writers > 0 ==> s.readers == 0)
    && (s.queue != [] ==> s.readers + s.writers > 0)
    && (s.queue != [] && s.readers > 0 ==> s.queue[0].writer)
  }

  lemma ArriveSafe(s: Rw, r: Request)
    requires Safe(s)
    ensures Safe(Arrive(s, r))
  {
  }

  /** Draining keeps the order, admits someone if anyone waits, and stops only when the
      next waiter has to wait. */
  lemma {:induction false} DrainSafe(s: Rw)
    requires s.writers <= 1 && (s.writers > 0 ==> s.readers == 0)
    ensures var s' := Drain(s);
            && s'.writers <= 1 && (s'.writers > 0 ==> s'.readers == 0)
            && s'.admitted + s'.queue == s.admitted + s.queue && s.admitted <= s'.admitted
            && s'.readers + s'.writers - |s'.admitted| == s.readers + s.writers - |s.admitted|
            && (s'.queue != [] ==> !CanEnter(s', s'.queue[0]))
    decreases |s.queue|
  {
    if s.queue != [] && CanEnter(s, s.queue[0]) {
      var s1 := Enter(s.(queue := s.queue[1..]), s.queue[0]);
      assert s1.admitted + s1.queue == s.admitted + s.queue;
      DrainSafe(s1);
    }
  }

  lemma LeaveSafe(s: Rw)
    requires Safe(s) && s.readers + s.writers > 0
    ensures Safe(Leave(s))
    ensures Leave(s).admitted + Leave(s).queue == s.admitted + s.queue
    ensures Leave(s).readers + Leave(s).writers - |Leave(s).admitted| == s.readers + s.writers - 1 - |s.admitted|
  {
    var s1 := if s.readers > 0 then s.(readers := s.readers - 1) else s.(writers := s.writers - 1);
    if s1.readers == 0 && s1.writers == 0 { DrainSafe(s1); }
  }

  /** A release does not say who makes it; `r` is only a name for the caller. */
  datatype Event = Arrival(r: Request) | Release(r: Request)

  const Fresh: Rw := Rw(0, 0, [], [])

  /** A run of events is possible when nobody releases a lock that has no holder, which
      makes the code panic. */
  ghost predicate Possible(events: seq<Event>)
    decreases |events|, 0
  {
    events != [] ==>
      var before := events[..|events| - 1];
      Possible(before) && (events[|events| - 1].Release? ==> After(before).readers + After(before).writers > 0)
  }

  /** The lock after a run. */
  ghost function After(events: seq<Event>): Rw
    requires Possible(events)
    decreases |events|, 1
  {
    if events == [] then Fresh
    else
      match events[|events| - 1]
      case Arrival(r) => Arrive(After(events[..|events| - 1]), r)
      case Release(_) => Leave(After(events[..|events| - 1]))
  }

  ghost function Arrivals(events: seq<Event>): seq<Request> {
    if events == [] then []
    else Arrivals(events[..|events| - 1]) +
         match events[|events| - 1] { case Arrival(r) => [r] case Release(_) => [] }
  }

  ghost function Releases(events: seq<Event>): nat {
    if events == [] then 0
    else Releases(events[..|events| - 1]) + if events[|events| - 1].Release? then 1 else 0
  }

  /** In every run the lock is safe, the admitted requests followed by the wait queue are
      the requests in the order in which they arrived, and the holders are the admitted
      requests that were not released. */
  lemma {:induction false} NobodyOvertaken(events: seq<Event>)
    requires Possible(events)
    ensures var s := After(events);
            && Safe(s)
            && s.admitted + s.queue == Arrivals(events)
            && s.readers + s.writers == |s.admitted| - Releases(events)
  {
    if events != [] {
      var before := events[..|events| - 1];
      NobodyOvertaken(before);
      match events[|events| - 1]
      case Arrival(r) => ArriveSafe(After(before), r);
      case Release(_) => LeaveSafe(After(before));
    }
  }

  lemma {:induction false} ArrivalsGrow(events: seq<Event>, n: nat)
    requires n <= |events|
    ensures Arrivals(events[..n]) <= Arrivals(events) && Releases(events[..n]) <= Releases(events)
  {
    if n < |events| {
      var before := events[..|events| - 1];
      assert before[..n] == events[..n];
      ArrivalsGrow(before, n);
    } else {
      assert events[..n] == events;
    }
  }

  lemma {:induction false} PossiblePrefix(events: seq<Event>, n: nat)
    requires Possible(events) && n <= |events|
    ensures Possible(events[..n])
  {
    if n < |events| {
      var before := events[..|events| - 1];
      assert before[..n] == events[..n];
      PossiblePrefix(before, n);
    } else {
      assert events[..n] == events;
    }
  }

  /** Nobody waits long: the request that arrives as event `n`, with `ahead` unreleased
      requests before it, is admitted by the time that many more releases have happened. */
  lemma AdmittedInTime(events: seq<Event>, n: nat)
    requires Possible(events) && n < |events| && events[n].Arrival?
    ensures Possible(events[..n])
    ensures var ahead := |Arrivals(events[..n])| - Releases(events[..n]);
            && ahead == After(events[..n]).readers + After(events[..n]).writers + |After(events[..n]).queue|
            && (Releases(events) - Releases(events[..n]) >= ahead ==>
                  && |After(events).admitted| > |Arrivals(events[..n])|
                  && After(events).admitted[|Arrivals(events[..n])|] == events[n].r)
  {
    PossiblePrefix(events, n);
    NobodyOvertaken(events[..n]);
    NobodyOvertaken(events);
    ArrivalsGrow(events, n + 1);
    var p := |Arrivals(events[..n])|;
    assert events[..n + 1][..n] == events[..n];
    assert Arrivals(events[..n + 1]) == Arrivals(events[..n]) + [events[n].r];
    assert Arrivals(events)[p] == events[n].r;
    var s := After(events);
    assert (s.admitted + s.queue)[p] == events[n].r;
  }

  // Mutual exclusion, of requests and not of counters.

  /** `inside` are the holders: as many as the counters say, and of the kind they say. */
  ghost predicate Holders(s: Rw, inside: multiset<Request>) {
    && |inside| == s.readers + s.writers
    && forall r :: r in inside ==> (r.writer <==> s.writers > 0)
  }

  lemma EnterHolders(s: Rw, r: Request, inside: multiset<Request>)
    requires CanEnter(s, r) && Holders(s, inside)
    ensures Holders(Enter(s, r), inside + multiset{r})
  {
  }

  /** The holders after those are admitted whom `s'` has more than `s`. */
  ghost function Joined(s: Rw, s': Rw, inside: multiset<Request>): multiset<Request>
    requires s.admitted <= s'.admitted
  {
    inside + multiset(s'.admitted[|s.admitted|..])
  }

  lemma ArriveHolders(s: Rw, r: Request, inside: multiset<Request>)
    requires Holders(s, inside)
    ensures s.admitted <= Arrive(s, r).admitted && Holders(Arrive(s, r), Joined(s, Arrive(s, r), inside))
  {
    if s.queue == [] && CanEnter(s, r) {
      EnterHolders(s, r, inside);
      assert (s.admitted + [r])[|s.admitted|..] == [r];
    } else {
      assert s.admitted[|s.admitted|..] == [];
    }
  }

  lemma JoinedTwice(s: Rw, s1: Rw, s2: Rw, r: Request, inside: multiset<Request>)
    requires s1.admitted == s.admitted + [r] && s1.admitted <= s2.admitted
    ensures s.admitted <= s2.admitted && Joined(s1, s2, inside + multiset{r}) == Joined(s, s2, inside)
  {
    var a := s2.admitted;
    assert a[|s.admitted|..] == [r] + a[|s1.admitted|..];
  }

  lemma {:induction false} DrainHolders(s: Rw, inside: multiset<Request>)
    requires Holders(s, inside)
    ensures s.admitted <= Drain(s).admitted && Holders(Drain(s), Joined(s, Drain(s), inside))
    decreases |s.queue|
  {
    if s.queue == [] || !CanEnter(s, s.queue[0]) {
      assert s.admitted[|s.admitted|..] == [];
    } else {
      var r := s.queue[0];
      var s1 := Enter(s.(queue := s.queue[1..]), r);
      assert Drain(s) == Drain(s1);
      EnterHolders(s.(queue := s.queue[1..]), r, inside);
      hide Drain, Holders, Joined, CanEnter;
      DrainHolders(s1, inside + multiset{r});
      JoinedTwice(s, s1, Drain(s1), r, inside);
    }
  }

  /** Whichever holder leaves, the others stay with those who are admitted then. */
  lemma LeaveHolders(s: Rw, r: Request, inside: multiset<Request>)
    requires Safe(s) && Holders(s, inside) && r in inside
    ensures s.readers + s.writers > 0
    ensures s.admitted <= Leave(s).admitted && Holders(Leave(s), Joined(s, Leave(s), inside - multiset{r}))
  {
    assert |inside| == |inside - multiset{r}| + 1;
    var s1 := if s.readers > 0 then s.(readers := s.readers - 1) else s.(writers := s.writers - 1);
    assert Holders(s1, inside - multiset{r});
    if s1.readers == 0 && s1.writers == 0 {
      DrainHolders(s1, inside - multiset{r});
    } else {
      assert s.admitted[|s.admitted|..] == [];
    }
  }

  /** In every run, whoever calls: a writer among the last requests that were admitted, as
      many as have not been released, is alone; and the lock knows it. */
  lemma Exclusive(events: seq<Event>)
    requires Possible(events)
    ensures var a := After(events).admitted;
            var k := |a| - Releases(events);
            && 0 <= k
            && (forall i :: |a| - k <= i < |a| && a[i].writer ==> k == 1)
            && (After(events).writers > 0 <==> k > 0 && a[|a| - 1].writer)
  {
    LastAreHolders(events);
    NobodyOvertaken(events);
    hide After, Possible, Releases;
    var s := After(events);
    var k := s.readers + s.writers;
    var last := s.admitted[|s.admitted| - k..];
    forall i | |s.admitted| - k <= i < |s.admitted| ensures s.admitted[i].writer <==> s.writers > 0 {
      assert last[i - (|s.admitted| - k)] in multiset(last);
    }
  }

  /** The last requests admitted, as many as the counters say, hold the lock. */
  ghost predicate LastHold(s: Rw) {
    var i := |s.admitted| - (s.readers + s.writers);
    0 <= i && Holders(s, multiset(s.admitted[i..]))
  }

  lemma LastFits(s: Rw, i: nat)
    requires i <= |s.admitted| && Holders(s, multiset(s.admitted[i..]))
    ensures LastHold(s) && s.readers + s.writers == |s.admitted| - i
  {
    assert |multiset(s.admitted[i..])| == |s.admitted[i..]|;
  }

  /** What `a` has from `i` on and what `a'` has more. */
  lemma Split(a: seq<Request>, a': seq<Request>, i: nat)
    requires a <= a' && i <= |a|
    ensures multiset(a'[i..]) == multiset(a[i..]) + multiset(a'[|a|..])
  {
    assert a'[i..] == a[i..] + a'[|a|..];
  }

  lemma DropFirst(a: seq<Request>, i: nat)
    requires i < |a|
    ensures a[i] in multiset(a[i..]) && multiset(a[i..]) - multiset{a[i]} == multiset(a[i + 1..])
  {
    assert a[i..] == [a[i]] + a[i + 1..];
  }

  lemma FreshLast()
    ensures LastHold(Fresh)
  {
    var none: seq<Request> := [];
    assert none[0..] == none;
  }

  lemma ArriveLast(s: Rw, r: Request)
    requires LastHold(s)
    ensures LastHold(Arrive(s, r))
  {
    var i := |s.admitted| - (s.readers + s.writers);
    hide Arrive, Holders;
    ArriveHolders(s, r, multiset(s.admitted[i..]));
    Split(s.admitted, Arrive(s, r).admitted, i);
    LastFits(Arrive(s, r), i);
  }

  lemma LeaveLast(s: Rw)
    requires Safe(s) && LastHold(s) && s.readers + s.writers > 0
    ensures LastHold(Leave(s))
  {
    var i := |s.admitted| - (s.readers + s.writers);
    hide Leave, Holders, Safe;
    DropFirst(s.admitted, i);
    LeaveHolders(s, s.admitted[i], multiset(s.admitted[i..]));
    hide LastHold;
    Split(s.admitted, Leave(s).admitted, i + 1);
    LastFits(Leave(s), i + 1);
  }

  lemma {:induction false} LastAreHolders(events: seq<Event>)
    requires Possible(events)
    ensures LastHold(After(events))
  {
    if events == [] {
      FreshLast();
    } else {
      var before := events[..|events| - 1];
      LastAreHolders(before);
      NobodyOvertaken(before);
      hide LastHold, Safe, Arrive, Leave;
      match events[|events| - 1]
      case Arrival(r) => ArriveLast(After(before), r);
      case Release(_) => LeaveLast(After(before));
    }
  }

  /** Who has released so far. */
  ghost function Released(events: seq<Event>): seq<Request> {
    if events == [] then []
    else Released(events[..|events| - 1]) +
         match events[|events| - 1] { case Arrival(_) => [] case Release(r) => [r] }
  }

  /** The holders: admitted and not released. */
  ghost function Inside(events: seq<Event>): multiset<Request>
    requires Possible(events)
  {
    multiset(After(events).admitted) - multiset(Released(events))
  }

  /** Only holders release. The code leaves that to its callers. */
  ghost predicate Proper(events: seq<Event>)
    requires Possible(events)
  {
    events != [] ==>
      var before := events[..|events| - 1];
      Proper(before) && match events[|events| - 1] { case Arrival(_) => true case Release(r) => r in Inside(before) }
  }

  /** One of `a` that is not in `gone` goes, and `more` come. */
  lemma GoneAndMore(a: multiset<Request>, gone: multiset<Request>, r: Request, more: multiset<Request>)
    requires gone <= a
    ensures gone <= a + more && (a + more) - gone == (a - gone) + more
    ensures r in a - gone ==>
              gone + multiset{r} <= a + more && (a + more) - (gone + multiset{r}) == (a - gone - multiset{r}) + more
  {
  }

  /** Those in `admitted` but not in `gone` hold the lock. */
  ghost predicate RestHold(s: Rw, gone: multiset<Request>) {
    gone <= multiset(s.admitted) && Holders(s, multiset(s.admitted) - gone)
  }

  lemma SplitAll(a: seq<Request>, a': seq<Request>)
    requires a <= a'
    ensures multiset(a') == multiset(a) + multiset(a'[|a|..])
  {
    assert a' == a + a'[|a|..];
  }

  lemma ArriveRest(s: Rw, r: Request, gone: multiset<Request>)
    requires RestHold(s, gone)
    ensures RestHold(Arrive(s, r), gone)
  {
    ArriveHolders(s, r, multiset(s.admitted) - gone);
    hide Arrive, Holders;
    SplitAll(s.admitted, Arrive(s, r).admitted);
    GoneAndMore(multiset(s.admitted), gone, r, multiset(Arrive(s, r).admitted[|s.admitted|..]));
  }

  lemma LeaveRest(s: Rw, r: Request, gone: multiset<Request>)
    requires Safe(s) && RestHold(s, gone) && r in multiset(s.admitted) - gone
    ensures s.readers + s.writers > 0 && RestHold(Leave(s), gone + multiset{r})
  {
    LeaveHolders(s, r, multiset(s.admitted) - gone);
    hide Leave, Holders, Safe;
    SplitAll(s.admitted, Leave(s).admitted);
    GoneAndMore(multiset(s.admitted), gone, r, multiset(Leave(s).admitted[|s.admitted|..]));
  }

  lemma {:induction false} InsideAreHolders(events: seq<Event>)
    requires Possible(events) && Proper(events)
    ensures RestHold(After(events), multiset(Released(events)))
  {
    if events != [] {
      var before := events[..|events| - 1];
      InsideAreHolders(before);
      NobodyOvertaken(before);
      hide RestHold, Safe, Arrive, Leave;
      var s, gone := After(before), Released(before);
      match events[|events| - 1]
      case Arrival(r) =>
        assert Released(events) == gone;
        ArriveRest(s, r, multiset(gone));
      case Release(r) =>
        assert multiset(gone + [r]) == multiset(gone) + multiset{r};
        LeaveRest(s, r, multiset(gone));
    }
  }

  /** In every run in which only holders release, in whatever order, a writer that is
      inside is there alone, and the counters are the numbers of readers and writers. */
  lemma WriterAlone(events: seq<Event>)
    requires Possible(events) && Proper(events)
    ensures forall r :: r in Inside(events) && r.writer ==> Inside(events) == multiset{r} && After(events).writers == 1
    ensures After(events).writers > 0 ==> exists r: Request :: r.writer && Inside(events) == multiset{r}
    ensures After(events).readers > 0 ==> |Inside(events)| == After(events).readers && forall r :: r in Inside(events) ==> !r.writer
  {
    InsideAreHolders(events);
    NobodyOvertaken(events);
    forall r | r in Inside(events) && r.writer ensures Inside(events) == multiset{r} {
      Single(Inside(events), r);
    }
    if After(events).writers > 0 {
      var r :| r in Inside(events);
      Single(Inside(events), r);
    }
  }

  lemma Single(m: multiset<Request>, r: Request)
    requires |m| == 1 && r in m
    ensures m == multiset{r}
  {
    assert m == multiset{r} + (m - multiset{r});
    assert |m - multiset{r}| == 0;
  }

  /** The lock itself. */
  class RwLock {
    var activeReaders: nat
    var activeWriters: nat
    var waiters: seq<Request>
    ghost var admitted: seq<Request>
    /** What has happened to the lock. */
    ghost var events: seq<Event>

    ghost predicate Valid()
      reads this
    {
      Possible(events) && State() == After(events)
    }

    ghost function State(): Rw
      reads this
    {
      Rw(activeReaders, activeWriters, waiters, admitted)
    }

    constructor ()
      ensures Valid() && State() == Fresh
    {
      activeReaders, activeWriters, waiters, admitted, events := 0, 0, [], [], [];
    }

    /** rwlock_acquire_reader up to the point where the caller sleeps or holds the lock. */
    method AcquireReader(id: nat) returns (entered: bool)
      requires Valid()
      modifies this
      ensures Valid() && events == old(events) + [Arrival(Request(id, false))]
      ensures State() == Arrive(old(State()), Request(id, false))
      ensures entered <==> admitted == old(admitted) + [Request(id, false)]
      ensures entered <==> old(waiters) == [] && old(activeWriters) == 0
    {
      events := events + [Arrival(Request(id, false))];
      assert events[..|events| - 1] == old(events);
      if waiters == [] && activeWriters == 0 {
        activeReaders := activeReaders + 1;
        admitted := admitted + [Request(id, false)];
        return true;
      }
      waiters := waiters + [Request(id, false)];
      return false;
    }

    method AcquireWriter(id: nat) returns (entered: bool)
      requires Valid()
      modifies this
      ensures Valid() && events == old(events) + [Arrival(Request(id, true))]
      ensures State() == Arrive(old(State()), Request(id, true))
      ensures entered <==> admitted == old(admitted) + [Request(id, true)]
      ensures entered <==> old(waiters) == [] && old(activeReaders) == 0 && old(activeWriters) == 0
    {
      events := events + [Arrival(Request(id, true))];
      assert events[..|events| - 1] == old(events);
      if waiters == [] && activeReaders == 0 && activeWriters == 0 {
        activeWriters := activeWriters + 1;
        admitted := admitted + [Request(id, true)];
        return true;
      }
      waiters := waiters + [Request(id, true)];
      return false;
    }

    /** The loop of rwlock_release: hands the lock over to waiters from the front. */
    method HandOver() returns (woken: seq<Request>)
      modifies this`activeReaders, this`activeWriters, this`waiters, this`admitted
      ensures State() == Drain(old(State())) && admitted == old(admitted) + woken
    {
      woken := [];
      ghost var goal := Drain(State());
      while waiters != []
        invariant Drain(State()) == goal && admitted == old(admitted) + woken
        decreases |waiters|
      {
        var w := waiters[0];
        waiters := waiters[1..];
        if w.writer {
          if !(activeWriters == 0 && activeReaders == 0) {
            waiters := [w] + waiters;
            break;
          }
          activeWriters := activeWriters + 1;
        } else {
          if activeWriters > 0 {
            waiters := [w] + waiters;
            break;
          }
          activeReaders := activeReaders + 1;
        }
        admitted, woken := admitted + [w], woken + [w];
      }
    }

    /** rwlock_release; `woken` are the waiters whose semaphore is raised. */
    method Release(ghost who: Request) returns (woken: seq<Request>)
      requires Valid() && (activeReaders > 0 || activeWriters > 0)
      modifies this
      ensures Valid() && events == old(events) + [Event.Release(who)]
      ensures State() == Leave(old(State())) && admitted == old(admitted) + woken
    {
      hide Drain;
      woken := [];
      events := events + [Event.Release(who)];
      assert events[..|events| - 1] == old(events);
      if activeReaders > 0 {
        activeReaders := activeReaders - 1;
      } else {
        activeWriters := activeWriters - 1;
      }
      if activeReaders == 0 && activeWriters == 0 {
        woken := HandOver();
      }
    }
  }
}
