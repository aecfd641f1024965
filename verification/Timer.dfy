/** The alarm clock: sleeping threads wait in a heap for the tick that wakes them. */
module AlarmClock {
  import opened Heaps

  /** A thread that called timer_sleep, and when it wants to wake up. */
  datatype Sleeper = Sleeper(tid: nat, wakeup: int)

  /** sleep_que_comp: the earliest wake-up is at the top of the heap. */
  function Later(a: Elem<Sleeper>, b: Elem<Sleeper>): (r: bool) {
    a.value.wakeup > b.value.wakeup
  }

  lemma LaterStrictWeak(s: set<Elem<Sleeper>>)
    ensures StrictWeak(Later, s)
  {
  }

  /** Those of `s` that are due at `now`. */
  ghost function Due(s: set<Elem<Sleeper>>, now: int): set<Elem<Sleeper>> {
    set e | e in s && e.value.wakeup <= now
  }

  ghost predicate InWakeOrder(woken: seq<Elem<Sleeper>>) {
    forall i, j :: 0 <= i < j < |woken| ==> woken[i].value.wakeup <= woken[j].value.wakeup && woken[i] != woken[j]
  }

  /** Part of the way through a wake-up: `left` of `all` have not been looked at. */
  ghost predicate Progress(all: set<Elem<Sleeper>>, left: set<Elem<Sleeper>>, woken: seq<Elem<Sleeper>>, now: int) {
    && left <= all && InWakeOrder(woken)
    && (set e | e in woken) == all - left
    && (forall e :: e in woken ==> e.value.wakeup <= now)
    && (forall e, d :: e in woken && d in left ==> e.value.wakeup <= d.value.wakeup)
  }

  lemma NoProgress(all: set<Elem<Sleeper>>, now: int)
    ensures Progress(all, all, [], now)
  {
  }

  lemma OneMore(all: set<Elem<Sleeper>>, left: set<Elem<Sleeper>>, woken: seq<Elem<Sleeper>>, p: Elem<Sleeper>, now: int)
    requires Progress(all, left, woken, now) && p in left && p.value.wakeup <= now
    requires forall d :: d in left ==> !Later(p, d)
    ensures Progress(all, left - {p}, woken + [p], now)
  {
    var woken' := woken + [p];
    assert (set e | e in woken') == (set e | e in woken) + {p};
    forall i, j | 0 <= i < j < |woken'|
      ensures woken'[i].value.wakeup <= woken'[j].value.wakeup && woken'[i] != woken'[j]
    {
      assert woken'[i] in woken && woken'[i] in (set e | e in woken);
    }
  }

  lemma AllWoken(all: set<Elem<Sleeper>>, left: set<Elem<Sleeper>>, woken: seq<Elem<Sleeper>>, now: int)
    requires Progress(all, left, woken, now)
    requires left == {} || exists t :: t in left && t.value.wakeup > now && forall d :: d in left ==> !Later(t, d)
    ensures InWakeOrder(woken) && (set e | e in woken) == Due(all, now) && left == all - Due(all, now)
  {
  }

  lemma SizeIs<T>(h: Heap<T>)
    requires h.Valid()
    ensures h.size == 0 <==> h.elements == {}
  {
  }

  // Whole runs: threads go to sleep and ticks pass.

  datatype Event = Slept(n: int) | Tick

  /** A sleep that has not ended: the event that began it, and the tick that ends it. */
  datatype Rest = Rest(event: nat, until: int)

  ghost function Now(events: seq<Event>): nat {
    if events == [] then 0
    else Now(events[..|events| - 1]) + if events[|events| - 1].Tick? then 1 else 0
  }

  /** The sleeps that have not ended after a run. */
  ghost function Asleep(events: seq<Event>): set<Rest> {
    if events == [] then {}
    else
      var before := events[..|events| - 1];
      match events[|events| - 1]
      case Slept(n) => Asleep(before) + {Rest(|before|, Now(before) + n)}
      case Tick => set s | s in Asleep(before) && !(s.until <= Now(events))
  }

  lemma {:induction false} NamedByEvent(events: seq<Event>)
    ensures forall s :: s in Asleep(events) ==> s.event < |events|
  {
    if events != [] { NamedByEvent(events[..|events| - 1]); }
  }

  lemma {:induction false} NowGrows(events: seq<Event>, i: nat)
    requires i <= |events|
    ensures Now(events[..i]) <= Now(events)
  {
    if i < |events| {
      assert events[..|events| - 1][..i] == events[..i];
      NowGrows(events[..|events| - 1], i);
    } else {
      assert events[..i] == events;
    }
  }

  /** Nobody oversleeps or wakes early: a thread that goes to sleep at time `s` for `n`
      ticks is woken by the first tick that comes, if `n` is not positive, and otherwise
      by the tick that makes it `s + n`. */
  lemma {:induction false} WokenOnTime(events: seq<Event>, i: nat)
    requires i < |events| && events[i].Slept?
    ensures var s := Now(events[..i]);
            Rest(i, s + events[i].n) in Asleep(events) <==> Now(events) == s || Now(events) < s + events[i].n
  {
    var before := events[..|events| - 1];
    if i == |before| {
      assert events[..i] == before;
    } else {
      assert before[..i] == events[..i];
      WokenOnTime(before, i);
      NowGrows(before, i);
      NamedByEvent(before);
    }
  }

  /** Each sleep ends at one tick only. */
  lemma {:induction false} OneEnd(events: seq<Event>, r: Rest)
    requires r in Asleep(events)
    ensures r.event < |events| && events[r.event].Slept? && r.until == Now(events[..r.event]) + events[r.event].n
  {
    var before := events[..|events| - 1];
    if r in Asleep(before) {
      OneEnd(before, r);
      assert before[..r.event] == events[..r.event];
    }
  }

  lemma SleepLast(events: seq<Event>)
    requires events != [] && events[|events| - 1].Slept?
    ensures var before := events[..|events| - 1];
            && Now(events) == Now(before)
            && Asleep(events) == Asleep(before) + {Rest(|before|, Now(before) + events[|events| - 1].n)}
  {
  }

  lemma AfterSleep(events: seq<Event>, n: int)
    ensures Now(events + [Slept(n)]) == Now(events)
    ensures Asleep(events + [Slept(n)]) == Asleep(events) + {Rest(|events|, Now(events) + n)}
  {
    hide Now, Asleep;
    SleepLast(events + [Slept(n)]);
    assert (events + [Slept(n)])[..|events + [Slept(n)]| - 1] == events;
  }

  lemma AfterTick(events: seq<Event>)
    ensures Now(events + [Tick]) == Now(events) + 1
    ensures Asleep(events + [Tick]) == set r | r in Asleep(events) && r.until > Now(events) + 1
  {
    assert (events + [Tick])[..|events|] == events;
  }

  /** The queue holds the sleeps in `asleep`; `slept` names the event of each. */
  ghost predicate Tied(elements: set<Elem<Sleeper>>, slept: map<Elem<Sleeper>, nat>, asleep: set<Rest>) {
    && slept.Keys == elements
    && (forall e, d :: e in elements && d in elements && slept[e] == slept[d] ==> e == d)
    && (forall e :: e in elements ==> Rest(slept[e], e.value.wakeup) in asleep)
    && (forall r :: r in asleep ==> InQueue(elements, slept, r))
  }

  ghost predicate InQueue(elements: set<Elem<Sleeper>>, slept: map<Elem<Sleeper>, nat>, r: Rest)
    requires slept.Keys == elements
  {
    exists e :: e in elements && slept[e] == r.event && e.value.wakeup == r.until
  }

  lemma TiedSleep(elements: set<Elem<Sleeper>>, slept: map<Elem<Sleeper>, nat>, asleep: set<Rest>, e: Elem<Sleeper>, r: Rest)
    requires Tied(elements, slept, asleep) && e !in elements && e.value.wakeup == r.until
    requires forall q :: q in asleep ==> q.event < r.event
    ensures Tied(elements + {e}, slept[e := r.event], asleep + {r})
  {
    var all, named := elements + {e}, slept[e := r.event];
    forall d | d in elements ensures slept[d] < r.event {
      assert Rest(slept[d], d.value.wakeup) in asleep;
    }
    forall q | q in asleep + {r} ensures InQueue(all, named, q) {
      if q in asleep {
        assert InQueue(elements, slept, q);
        var d :| d in elements && slept[d] == q.event && d.value.wakeup == q.until;
        assert d in all && named[d] == q.event;
      } else {
        assert e in all && named[e] == q.event;
      }
    }
  }

  lemma TiedTick(elements: set<Elem<Sleeper>>, slept: map<Elem<Sleeper>, nat>, asleep: set<Rest>, now: int)
    requires Tied(elements, slept, asleep)
    ensures var due := Due(elements, now); Tied(elements - due, slept - due, set r | r in asleep && r.until > now)
  {
    var due := Due(elements, now);
    var left, named := elements - due, slept - due;
    assert named.Keys == left;
    forall q | q in asleep && q.until > now ensures InQueue(left, named, q) {
      assert InQueue(elements, slept, q);
      var d :| d in elements && slept[d] == q.event && d.value.wakeup == q.until;
      assert d in left && named[d] == q.event;
    }
  }

  /** Who is in the queue for event `i`. */
  lemma TiedAt(elements: set<Elem<Sleeper>>, slept: map<Elem<Sleeper>, nat>, asleep: set<Rest>, r: Rest)
    requires Tied(elements, slept, asleep) && forall q :: q in asleep && q.event == r.event ==> q == r
    ensures Sleeping(elements, slept, r.event) <==> r in asleep
  {
    forall e | e in elements && slept[e] == r.event ensures r in asleep {
      assert Rest(slept[e], e.value.wakeup) in asleep;
    }
    if r in asleep { assert InQueue(elements, slept, r); }
  }

  ghost predicate Sleeping(elements: set<Elem<Sleeper>>, slept: map<Elem<Sleeper>, nat>, i: nat) {
    exists e :: e in elements && e in slept && slept[e] == i
  }

  class Timer {
    var ticks: int
    const sleepQue: Heap<Sleeper>
    /** What has happened so far, and which event each sleeper stands for. */
    ghost var events: seq<Event>
    ghost var slept: map<Elem<Sleeper>, nat>

    ghost predicate QueueOk()
      reads this, sleepQue, sleepQue.elements
    {
      sleepQue.Valid() && sleepQue.less == Later
    }

    ghost predicate Valid()
      reads this, sleepQue, sleepQue.elements
    {
      QueueOk() && ticks == Now(events) && Tied(sleepQue.elements, slept, Asleep(events))
    }

    constructor ()
      ensures Valid() && events == [] && sleepQue.elements == {} && fresh(sleepQue)
    {
      ticks, events, slept := 0, [], map[];
      sleepQue := new Heap<Sleeper>(Later);
    }

    /** timer_sleep up to the point where the caller blocks. */
    method Sleep(tid: nat, n: int) returns (e: Elem<Sleeper>)
      requires Valid()
      modifies this`events, this`slept, sleepQue, sleepQue.elements
      ensures Valid() && fresh(e) && e.value == Sleeper(tid, ticks + n)
      ensures sleepQue.elements == old(sleepQue.elements) + {e}
      ensures events == old(events) + [Slept(n)] && slept == old(slept)[e := |old(events)|]
    {
      hide Tied, Heap.Valid, Asleep, Now;
      e := new Elem(Sleeper(tid, ticks + n));
      LaterStrictWeak(sleepQue.elements + {e});
      AfterSleep(events, n);
      NamedByEvent(events);
      TiedSleep(sleepQue.elements, slept, Asleep(events), e, Rest(|events|, ticks + n));
      sleepQue.Push(e);
      events, slept := events + [Slept(n)], slept[e := |events|];
    }

    /** timer_wakeup_threads. */
    method WakeUp() returns (woken: seq<Elem<Sleeper>>)
      requires QueueOk()
      modifies sleepQue, sleepQue.elements
      ensures QueueOk() && InWakeOrder(woken)
      ensures (set e | e in woken) == Due(old(sleepQue.elements), ticks)
      ensures sleepQue.elements == old(sleepQue.elements) - Due(old(sleepQue.elements), ticks)
    {
      hide Heap.Valid, Progress, InWakeOrder, Due;
      ghost var all := sleepQue.elements;
      woken := [];
      NoProgress(all, ticks);
      while sleepQue.size != 0
        invariant QueueOk() && sleepQue.elements <= all && Progress(all, sleepQue.elements, woken, ticks)
        decreases |sleepQue.elements|
      {
        SizeIs(sleepQue);
        var t := sleepQue.Top();
        if t.value.wakeup > ticks {
          AllWoken(all, sleepQue.elements, woken, ticks);
          return;
        }
        ghost var left := sleepQue.elements;
        var p := sleepQue.Pop();
        OneMore(all, left, woken, p, ticks);
        woken := woken + [p];
      }
      SizeIs(sleepQue);
      AllWoken(all, {}, woken, ticks);
    }

    /** timer_interrupt, without the scheduler's part. */
    method Interrupt() returns (woken: seq<Elem<Sleeper>>)
      requires Valid()
      modifies this, sleepQue, sleepQue.elements
      ensures Valid() && events == old(events) + [Tick] && InWakeOrder(woken)
      ensures (set e | e in woken) == Due(old(sleepQue.elements), ticks)
      ensures sleepQue.elements == old(sleepQue.elements) - Due(old(sleepQue.elements), ticks)
      ensures slept == old(slept) - Due(old(sleepQue.elements), ticks)
    {
      hide Tied, InWakeOrder, Heap.Valid, Asleep, Now;
      AfterTick(events);
      TiedTick(sleepQue.elements, slept, Asleep(events), ticks + 1);
      ticks := ticks + 1;
      ghost var due := Due(sleepQue.elements, ticks);
      woken := WakeUp();
      events, slept := events + [Tick], slept - due;
    }

    /** In every run of the timer, the sleep that began as event `i` is in the queue until
        exactly its tick. */
    lemma OnTime(i: nat)
      requires Valid() && i < |events| && events[i].Slept?
      ensures var s := Now(events[..i]);
              Sleeping(sleepQue.elements, slept, i) <==> ticks == s || ticks < s + events[i].n
    {
      hide Tied, Heap.Valid, Asleep, Now;
      var r := Rest(i, Now(events[..i]) + events[i].n);
      WokenOnTime(events, i);
      forall q | q in Asleep(events) && q.event == i ensures q == r {
        OneEnd(events, q);
      }
      TiedAt(sleepQue.elements, slept, Asleep(events), r);
    }
  }
}
