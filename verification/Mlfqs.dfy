/** The multi-level feedback queue scheduler's statistics, in 17.14 fixed point on
    32-bit integers. */
module Mlfqs {

  import opened Arithmetic

  /** FPT_F: the fixed-point one. */
  const F: int := 16384

  const TWO31: int := 0x8000_0000
  const TWO32: int := 0x1_0000_0000

  const TIMER_FREQ: nat := 100
  const PRI_MIN: int := 0
  const PRI_MAX: int := 63

  /** The most threads that can be ready or running for the bounds below to fit. */
  const MOST: nat := 545

  ghost predicate Int32(x: int) {
    -TWO31 <= x < TWO31
  }

  /** What is left of a value in a 32-bit variable. */
  function Wrap(x: int): (r: int)
    ensures Int32(r)
    ensures Int32(x) ==> r == x
  {
    (x + TWO31) % TWO32 - TWO31
  }

  /** Division as in C: towards zero. */
  function Quot(a: int, b: int): (q: int)
    requires b > 0
    ensures a >= 0 ==> q >= 0 && q * b <= a < q * b + b
    ensures a < 0 ==> q <= 0 && q * b - b < a <= q * b
  {
    if a >= 0 then DivBounds(a, b); a / b
    else DivBounds(-a, b); -((-a) / b)
  }

  // The macros of fixed.h; both factors of FP_MUL and FP_DIV are widened to 64 bits.

  function IntToFp(x: int): int { Wrap(x * F) }

  function FpToInt(x: int): int { Quot(x, F) }

  function FpAdd(x: int, y: int): int { Wrap(x + y) }

  function FpAddInt(x: int, n: int): int { Wrap(x + Wrap(n * F)) }

  function FpMul(x: int, y: int): int { Wrap(Quot(x * y, F)) }

  function FpMulInt(x: int, n: int): int { Wrap(x * n) }

  function FpDiv(x: int, y: int): int
    requires y > 0
  {
    Wrap(Quot(x * F, y))
  }

  function FpDivInt(x: int, n: int): int
    requires n > 0
  {
    Quot(x, n)
  }

  function Min(a: int, b: int): int { if a < b then a else b }

  function Max(a: int, b: int): int { if a > b then a else b }

  /** thread_calc_load_avg with `ready` threads ready or running. */
  function LoadAvg(loadAvg: int, ready: nat): (r: int) {
    var k1 := FpDiv(59 * F, 60 * F);
    var k2 := FpDiv(1 * F, 60 * F);
    FpAdd(FpMul(k1, loadAvg), FpMul(k2, IntToFp(ready)))
  }

  /** The decay factor of thread_calc_recent_cpu. */
  function Decay(loadAvg: int): (r: int)
    requires 0 <= loadAvg <= MOST * F
  {
    assert FpAddInt(FpMulInt(loadAvg, 2), 1) == 2 * loadAvg + F;
    FpDiv(FpMulInt(loadAvg, 2), FpAddInt(FpMulInt(loadAvg, 2), 1))
  }

  function RecentCpu(loadAvg: int, recentCpu: int, nice: int): (r: int)
    requires 0 <= loadAvg <= MOST * F
  {
    FpAddInt(FpMul(Decay(loadAvg), recentCpu), nice)
  }

  /** calc_mlfq_priority, except for the idle thread. */
  function Priority(recentCpu: int, nice: int): (r: int)
    ensures PRI_MIN <= r <= PRI_MAX
  {
    Max(Min(PRI_MAX - FpToInt(FpDivInt(recentCpu, 4)) - nice * 2, PRI_MAX), PRI_MIN)
  }

  // What the figures are meant to be: the exact formulas, up to the rounding.

  /** The value of a fixed-point number. */
  ghost function Value(x: int): real { x as real / F as real }

  /** `x`, or the nearer end of the range if it is outside. */
  ghost function Clamped(x: int, lo: int, hi: int): int
    requires lo <= hi
  {
    if x < lo then lo else if x > hi then hi else x
  }

  lemma QuotTwice(a: int)
    ensures Quot(Quot(a, 4), F) == Quot(a, 4 * F)
  {
    NestedDiv(if a >= 0 then a else -a, 4, F);
  }

  /** The priority is 63 less a quarter of recent_cpu, rounded toward zero, less twice nice,
      clamped to 0 and 63. */
  lemma PriorityIs(recentCpu: int, nice: int)
    ensures Priority(recentCpu, nice) == Clamped(63 - Quot(recentCpu, 65536) - 2 * nice, 0, 63)
  {
    QuotTwice(recentCpu);
  }

  /** load_avg is 59/60 of its old value and 1/60 of the threads that are ready or running,
      short of that by less than (n + 1) / 2^14. */
  lemma LoadAvgClose(loadAvg: int, ready: nat, n: nat)
    requires n <= MOST && 0 <= loadAvg <= n * F && ready <= n
    ensures var exact := 59.0 / 60.0 * Value(loadAvg) + 1.0 / 60.0 * ready as real;
            exact - (n + 1) as real / 16384.0 < Value(LoadAvg(loadAvg, ready)) <= exact
  {
    LoadAvgBound(loadAvg, ready, n);
    var q := 16110 * loadAvg / F;
    assert F * q <= 16110 * loadAvg < F * q + F;
    assert 60 * (q + 273 * ready) * F <= 966600 * loadAvg + 16380 * ready * F;
    LoadAvgReal(loadAvg, ready, n, q + 273 * ready);
  }

  lemma LoadAvgReal(loadAvg: int, ready: nat, n: nat, r: int)
    requires 0 <= loadAvg <= n * F && ready <= n
    requires 60 * r * F <= 966600 * loadAvg + 16380 * ready * F < 60 * r * F + 60 * F
    ensures var exact := 59.0 / 60.0 * Value(loadAvg) + 1.0 / 60.0 * ready as real;
            exact - (n + 1) as real / 16384.0 < Value(r) <= exact
  {
    var exact := 59.0 / 60.0 * Value(loadAvg) + 1.0 / 60.0 * ready as real;
    assert 983040.0 * exact == 59.0 * loadAvg as real + 16384.0 * ready as real;
    assert 983040.0 * Value(r) == 60.0 * r as real;
  }

  /** (2 load_avg) / (2 load_avg + 1) of recent_cpu, without rounding. */
  ghost function Exact(loadAvg: int, recentCpu: int): real
    requires loadAvg >= 0
  {
    var twice := 2.0 * Value(loadAvg);
    twice / (twice + 1.0) * Value(recentCpu)
  }

  /** recent_cpu is (2 load_avg) / (2 load_avg + 1) of its old value and nice, up to an error
      of (|recent_cpu| + 1) / 2^14. */
  lemma RecentCpuClose(loadAvg: int, recentCpu: int, nice: int, n: nat)
    requires n <= MOST && 0 <= loadAvg <= n * F && CpuOk(recentCpu, n, TIMER_FREQ) && -20 <= nice <= 20
    ensures var exact := Exact(loadAvg, recentCpu) + nice as real;
            var error := ((if recentCpu >= 0 then Value(recentCpu) else -Value(recentCpu)) + 1.0) / 16384.0;
            exact - error <= Value(RecentCpu(loadAvg, recentCpu, nice)) <= exact + error
  {
    RecentCpuBound(loadAvg, recentCpu, nice, n);
    var y := 2 * loadAvg + F;
    var d := 2 * loadAvg * F / y;
    DecayedClose(loadAvg, recentCpu, d, Quot(d * recentCpu, F));
    var q := Quot(d * recentCpu, F);
    RecentCpuReal(loadAvg, recentCpu, q);
    assert Value(q + nice * F) == q as real / 16384.0 + nice as real;
  }

  /** Collects the two rounding errors, `rest` of the decay factor and `left` of the product. */
  lemma Errors(a: int, x: int, d: int, q: int, y: int, rest: int, left: int)
    requires rest == a * F - d * y && left == d * x - q * F
    ensures (q * y - a * x) * F == -(left * y) - rest * x
  {
    assert q * F * y == (d * x - left) * y == d * x * y - left * y;
    assert a * F * x == (d * y + rest) * x == d * y * x + rest * x;
    assert d * x * y == d * y * x;
    assert (q * y - a * x) * F == q * F * y - a * F * x;
  }

  lemma DecayedClose(loadAvg: int, recentCpu: int, d: int, q: int)
    requires loadAvg >= 0 && d == 2 * loadAvg * F / (2 * loadAvg + F) && q == Quot(d * recentCpu, F)
    ensures var y, size := 2 * loadAvg + F, if recentCpu >= 0 then recentCpu else -recentCpu;
            -(y * (size + F)) <= (q * y - 2 * loadAvg * recentCpu) * F <= y * (size + F)
  {
    var y, size := 2 * loadAvg + F, if recentCpu >= 0 then recentCpu else -recentCpu;
    DivBounds(2 * loadAvg * F, y);
    var rest, left := 2 * loadAvg * F - d * y, d * recentCpu - q * F;
    Errors(2 * loadAvg, recentCpu, d, q, y, rest, left);
    MulMono(rest, y, size);
    MulMono(left, F, y);
    MulMono(-F, left, y);
    assert recentCpu < 0 ==> rest * recentCpu == -(rest * size);
    assert 0 <= rest * size;
    assert y * (size + F) == y * size + F * y;
  }

  lemma DivideBy(a: real, t: real, s: real)
    requires t > 0.0 && -(t * s) <= a <= t * s
    ensures -s <= a / t <= s
  {
    var z := a / t;
    assert z * t == a;
    assert z > s ==> z * t > s * t;
    assert z < -s ==> z * t < -s * t;
  }

  /** The exact value and the computed one over a common denominator. */
  lemma CommonDenominator(a: real, x: real, q: real, y: real)
    requires y == a + 16384.0 && y > 0.0
    ensures var twice := a / 16384.0;
            twice + 1.0 > 0.0 && (q / 16384.0 - twice / (twice + 1.0) * (x / 16384.0)) * 16384.0 == (q * y - a * x) / y
  {
    var twice := a / 16384.0;
    assert twice + 1.0 == y / 16384.0;
    assert twice / (twice + 1.0) == a / y by {
      assert a / y * (y / 16384.0) == a / 16384.0;
    }
    assert (q * y - a * x) / y == q - a / y * x;
    assert a / y * (x / 16384.0) * 16384.0 == a / y * x;
  }

  lemma WithinError(v: real, e: real, s: real, d: real)
    requires (v - e) * 16384.0 == d && -s <= d * 16384.0 <= s
    ensures e - s / 268435456.0 <= v <= e + s / 268435456.0
  {
  }

  lemma ExactIs(loadAvg: int, recentCpu: int, q: int)
    requires loadAvg >= 0
    ensures var y := 2 * loadAvg + F;
            var top := q as real * y as real - (2 * loadAvg) as real * recentCpu as real;
            (q as real / 16384.0 - Exact(loadAvg, recentCpu)) * 16384.0 == top / y as real
  {
    var y := 2 * loadAvg + F;
    CommonDenominator((2 * loadAvg) as real, recentCpu as real, q as real, y as real);
    assert 2.0 * Value(loadAvg) == (2 * loadAvg) as real / 16384.0;
  }

  lemma RecentCpuReal(loadAvg: int, recentCpu: int, q: int)
    requires loadAvg >= 0
    requires var y, size := 2 * loadAvg + F, if recentCpu >= 0 then recentCpu else -recentCpu;
             -(y * (size + F)) <= (q * y - 2 * loadAvg * recentCpu) * F <= y * (size + F)
    ensures var size := if recentCpu >= 0 then recentCpu else -recentCpu;
            var error := (size + F) as real / 268435456.0;
            Exact(loadAvg, recentCpu) - error <= q as real / 16384.0 <= Exact(loadAvg, recentCpu) + error
  {
    var y, size := 2 * loadAvg + F, if recentCpu >= 0 then recentCpu else -recentCpu;
    AsReals(q, y, 2 * loadAvg, recentCpu, size + F);
    ExactIs(loadAvg, recentCpu, q);
    hide Exact;
    var top := q as real * y as real - (2 * loadAvg) as real * recentCpu as real;
    NearExact(q as real, y as real, top, (size + F) as real, Exact(loadAvg, recentCpu));
  }

  lemma ScaledBound(a: real, t: real, s: real)
    requires t > 0.0 && -(t * s) <= a * 16384.0 <= t * s
    ensures -s <= a / t * 16384.0 <= s
  {
    DivideBy(a * 16384.0, t, s);
    assert a * 16384.0 / t == a / t * 16384.0;
  }

  lemma NearExact(q: real, y: real, top: real, s: real, exact: real)
    requires y > 0.0 && -(y * s) <= top * 16384.0 <= y * s && (q / 16384.0 - exact) * 16384.0 == top / y
    ensures exact - s / 268435456.0 <= q / 16384.0 <= exact + s / 268435456.0
  {
    ScaledBound(top, y, s);
    WithinError(q / 16384.0, exact, s, top / y);
  }

  lemma AsReals(q: int, y: int, a: int, x: int, s: int)
    requires -(y * s) <= (q * y - a * x) * F <= y * s
    ensures var top := (q * y - a * x) as real;
            && top == q as real * y as real - a as real * x as real
            && -(y as real * s as real) <= top * 16384.0 <= y as real * s as real
  {
    assert (y * s) as real == y as real * s as real;
    assert ((q * y - a * x) * F) as real == (q * y - a * x) as real * 16384.0;
    assert (q * y) as real == q as real * y as real;
    assert (a * x) as real == a as real * x as real;
  }

  // Bounds.

  /** load_avg stays between 0 and the number of threads, and nothing wraps. */
  lemma LoadAvgBound(loadAvg: int, ready: nat, n: nat)
    requires n <= MOST && 0 <= loadAvg <= n * F && ready <= n
    ensures 0 <= LoadAvg(loadAvg, ready) <= n * F
    ensures LoadAvg(loadAvg, ready) == 16110 * loadAvg / F + 273 * ready
  {
    assert FpDiv(59 * F, 60 * F) == 16110;
    assert FpDiv(1 * F, 60 * F) == 273;
    assert IntToFp(ready) == ready * F;
    assert Quot(273 * (ready * F), F) == 273 * ready;
    assert Quot(16110 * loadAvg, F) <= 16110 * n;
  }

  /** The decay factor is at most 2n / (2n + 1) when load_avg is at most n. */
  lemma DecayBound(loadAvg: int, n: nat)
    requires n <= MOST && 0 <= loadAvg <= n * F
    ensures 0 <= Decay(loadAvg) <= F
    ensures Decay(loadAvg) * (2 * n + 1) <= 2 * n * F
    ensures Decay(loadAvg) == 2 * loadAvg * F / (2 * loadAvg + F)
  {
    var y := 2 * loadAvg + F;
    assert FpMulInt(loadAvg, 2) == 2 * loadAvg && FpAddInt(FpMulInt(loadAvg, 2), 1) == y;
    var d := Quot(2 * loadAvg * F, y);
    assert d <= F by { if d > F { MulMono(F + 1, d, y); } }
    assert Decay(loadAvg) == d;
    DecayScaled(loadAvg, n, d);
  }

  lemma DecayScaled(loadAvg: int, n: nat, d: int)
    requires 0 <= loadAvg <= n * F && 0 <= d <= F && d * (2 * loadAvg + F) <= 2 * loadAvg * F
    ensures d * (2 * n + 1) <= 2 * n * F
  {
    assert d * F <= 2 * loadAvg * (F - d) by {
      assert d * (2 * loadAvg + F) == 2 * loadAvg * d + d * F;
      assert 2 * loadAvg * (F - d) == 2 * loadAvg * F - 2 * loadAvg * d;
    }
    MulMono(2 * loadAvg, 2 * n * F, F - d);
    assert 2 * n * F * (F - d) == (2 * n * (F - d)) * F;
    assert d <= 2 * n * (F - d);
    assert 2 * n * (F - d) == 2 * n * F - 2 * n * d;
    assert d * (2 * n + 1) == 2 * n * d + d;
  }

  /** recent_cpu between once-per-second updates, `k` ticks after the last one. */
  ghost predicate CpuOk(recentCpu: int, n: nat, k: nat) {
    -(40 * n + 20) * F <= recentCpu <= (240 * n + 20 + k) * F
  }

  /** The product with the decay factor, before nice is added. */
  lemma DecayedBound(d: int, recentCpu: int, n: nat)
    requires 0 <= d <= F && d * (2 * n + 1) <= 2 * n * F && CpuOk(recentCpu, n, TIMER_FREQ)
    ensures -40 * n * F <= Quot(d * recentCpu, F) <= 240 * n * F
  {
    if recentCpu >= 0 {
      MulBound(d, recentCpu, 120 * (2 * n + 1) * F);
      assert d * (120 * (2 * n + 1) * F) == 120 * F * (d * (2 * n + 1));
      MulMono(d * (2 * n + 1), 2 * n * F, 120 * F);
      assert d * recentCpu <= (240 * n * F) * F;
    } else {
      MulBound(d, -recentCpu, 20 * (2 * n + 1) * F);
      assert d * (20 * (2 * n + 1) * F) == 20 * F * (d * (2 * n + 1));
      MulMono(d * (2 * n + 1), 2 * n * F, 20 * F);
      assert d * -recentCpu == -(d * recentCpu);
      assert d * recentCpu >= -(40 * n * F) * F;
    }
  }

  lemma MulBound(d: int, x: int, y: int)
    requires d >= 0 && 0 <= x <= y
    ensures 0 <= d * x <= d * y
  {
  }

  /** The once-per-second update brings recent_cpu back below its base, and nothing
      wraps. */
  lemma RecentCpuBound(loadAvg: int, recentCpu: int, nice: int, n: nat)
    requires n <= MOST && 0 <= loadAvg <= n * F && CpuOk(recentCpu, n, TIMER_FREQ) && -20 <= nice <= 20
    ensures CpuOk(RecentCpu(loadAvg, recentCpu, nice), n, 0)
    ensures RecentCpu(loadAvg, recentCpu, nice) == Quot(2 * loadAvg * F / (2 * loadAvg + F) * recentCpu, F) + nice * F
  {
    DecayBound(loadAvg, n);
    DecayedBound(Decay(loadAvg), recentCpu, n);
  }

  // Runs.

  datatype Thread = Thread(nice: int, recentCpu: int, priority: int, idle: bool)

  datatype Sched = Sched(loadAvg: int, threads: seq<Thread>, ticks: nat)

  datatype Event =
    /** A timer interrupt while thread `running` runs and `ready` threads are ready or running. */
    | Tick(running: nat, ready: nat)
    | SetNice(i: nat, nice: int)
    | Create(parent: nat, idle: bool)
    | Exit(i: nat)

  function Renewed(t: Thread): (r: Thread) {
    if t.idle then t else t.(priority := Priority(t.recentCpu, t.nice))
  }

  /** thread_tick. */
  function Charged(t: Thread): (r: Thread) {
    if t.idle then t else Renewed(t.(recentCpu := FpAddInt(t.recentCpu, 1)))
  }

  /** thread_calc_recent_cpu. */
  function Recalculated(t: Thread, loadAvg: int): (r: Thread)
    requires 0 <= loadAvg <= MOST * F
  {
    Renewed(t.(recentCpu := RecentCpu(loadAvg, t.recentCpu, t.nice)))
  }

  ghost predicate ThreadOk(t: Thread, n: nat, k: nat) {
    -20 <= t.nice <= 20 && CpuOk(t.recentCpu, n, k)
  }

  ghost predicate AllOk(threads: seq<Thread>, n: nat, k: nat) {
    forall i :: 0 <= i < |threads| ==> ThreadOk(threads[i], n, k)
  }

  /** The bounds of every state, with at most `n` threads ready or running. */
  ghost predicate Bounded(s: Sched, n: nat) {
    0 <= s.loadAvg <= n * F && AllOk(s.threads, n, s.ticks % TIMER_FREQ)
  }

  ghost predicate Possible(s: Sched, e: Event, n: nat) {
    match e
    case Tick(running, ready) => running < |s.threads| && ready <= n
    case SetNice(i, nice) => i < |s.threads| && -20 <= nice <= 20
    case Create(parent, _) => parent < |s.threads|
    case Exit(i) => i < |s.threads|
  }

  ghost function AllRecalculated(threads: seq<Thread>, loadAvg: int): (r: seq<Thread>)
    requires 0 <= loadAvg <= MOST * F
  {
    seq(|threads|, i requires 0 <= i < |threads| => Recalculated(threads[i], loadAvg))
  }

  /** timer_interrupt, as far as the statistics go. */
  ghost function Ticked(s: Sched, running: nat, ready: nat, n: nat): (r: Sched)
    requires running < |s.threads| && ready <= n <= MOST && 0 <= s.loadAvg <= n * F
  {
    var charged := s.threads[running := Charged(s.threads[running])];
    if (s.ticks + 1) % TIMER_FREQ != 0 then s.(threads := charged, ticks := s.ticks + 1)
    else
      LoadAvgBound(s.loadAvg, ready, n);
      var loadAvg := LoadAvg(s.loadAvg, ready);
      Sched(loadAvg, AllRecalculated(charged, loadAvg), s.ticks + 1)
  }

  ghost function Apply(s: Sched, e: Event, n: nat): (r: Sched)
    requires n <= MOST && Possible(s, e, n) && 0 <= s.loadAvg <= n * F
  {
    match e
    case Tick(running, ready) => Ticked(s, running, ready, n)
    case SetNice(i, nice) => s.(threads := s.threads[i := Renewed(s.threads[i].(nice := nice))])
    case Create(parent, idle) => s.(threads := s.threads + [s.threads[parent].(priority := PRI_MAX, idle := idle)])
    case Exit(i) => s.(threads := s.threads[..i] + s.threads[i + 1..])
  }

  /** One more tick leaves room for one more unit, and nothing wraps. */
  lemma ChargedOk(t: Thread, n: nat, k: nat)
    requires n <= MOST && k < TIMER_FREQ && ThreadOk(t, n, k)
    ensures ThreadOk(Charged(t), n, k + 1)
    ensures !t.idle ==> Charged(t).recentCpu == t.recentCpu + F
  {
  }

  lemma LaterOk(t: Thread, n: nat, k: nat, m: nat)
    requires ThreadOk(t, n, k) && k <= m
    ensures ThreadOk(t, n, m)
  {
  }

  lemma RecalculatedOk(t: Thread, loadAvg: int, n: nat)
    requires n <= MOST && 0 <= loadAvg <= n * F && ThreadOk(t, n, TIMER_FREQ)
    ensures ThreadOk(Recalculated(t, loadAvg), n, 0)
  {
    RecentCpuBound(loadAvg, t.recentCpu, t.nice, n);
  }

  lemma NextTick(ticks: nat)
    ensures (ticks + 1) % TIMER_FREQ == if ticks % TIMER_FREQ + 1 == TIMER_FREQ then 0 else ticks % TIMER_FREQ + 1
  {
  }

  lemma ChargeOne(threads: seq<Thread>, running: nat, n: nat, k: nat)
    requires n <= MOST && k < TIMER_FREQ && AllOk(threads, n, k) && running < |threads|
    ensures AllOk(threads[running := Charged(threads[running])], n, k + 1)
  {
    hide ThreadOk, Charged;
    var charged := threads[running := Charged(threads[running])];
    forall i | 0 <= i < |charged| ensures ThreadOk(charged[i], n, k + 1) {
      if i == running { ChargedOk(threads[i], n, k); } else { LaterOk(threads[i], n, k, k + 1); }
    }
  }

  lemma RecalculateEach(threads: seq<Thread>, loadAvg: int, n: nat)
    requires n <= MOST && 0 <= loadAvg <= n * F && AllOk(threads, n, TIMER_FREQ)
    ensures AllOk(AllRecalculated(threads, loadAvg), n, 0)
  {
    hide ThreadOk, Recalculated;
    forall i | 0 <= i < |threads| ensures ThreadOk(Recalculated(threads[i], loadAvg), n, 0) {
      RecalculatedOk(threads[i], loadAvg, n);
    }
  }

  lemma TickedBounded(s: Sched, running: nat, ready: nat, n: nat)
    requires n <= MOST && Bounded(s, n) && running < |s.threads| && ready <= n
    ensures Bounded(Ticked(s, running, ready, n), n)
  {
    hide LoadAvg, ThreadOk, Charged, AllRecalculated;
    NextTick(s.ticks);
    assert AllOk(s.threads, n, s.ticks % TIMER_FREQ);
    ChargeOne(s.threads, running, n, s.ticks % TIMER_FREQ);
    LoadAvgBound(s.loadAvg, ready, n);
    var charged := s.threads[running := Charged(s.threads[running])];
    if (s.ticks + 1) % TIMER_FREQ == 0 {
      RecalculateEach(charged, LoadAvg(s.loadAvg, ready), n);
    }
    assert AllOk(Ticked(s, running, ready, n).threads, n, (s.ticks + 1) % TIMER_FREQ);
  }

  /** What one timer interrupt does: the running thread is charged one unit; once per second
      load_avg is renewed first, and with it recent_cpu of every thread. Whoever's figures
      change gets a new priority, except the idle thread. */
  ghost predicate Interrupted(s: Sched, r: Sched, running: nat, ready: nat)
    requires running < |s.threads|
  {
    && r.ticks == s.ticks + 1 && |r.threads| == |s.threads|
    && (if r.ticks % TIMER_FREQ == 0 then r.loadAvg == LoadAvg(s.loadAvg, ready) && 0 <= r.loadAvg <= MOST * F
        else r.loadAvg == s.loadAvg)
    && forall i :: 0 <= i < |s.threads| ==> Figures(s.threads[i], r.threads[i], i == running, r.ticks % TIMER_FREQ == 0, r.loadAvg)
  }

  ghost predicate Figures(t: Thread, u: Thread, running: bool, second: bool, loadAvg: int) {
    && u.nice == t.nice && u.idle == t.idle
    && var cpu := t.recentCpu + if running && !t.idle then F else 0;
    && (if second then 0 <= loadAvg <= MOST * F && u.recentCpu == RecentCpu(loadAvg, cpu, t.nice) else u.recentCpu == cpu)
    && u.priority == if !t.idle && (running || second) then Priority(u.recentCpu, u.nice) else t.priority
  }

  lemma FiguresAre(t: Thread, n: nat, k: nat, running: bool, second: bool, loadAvg: int)
    requires n <= MOST && k < TIMER_FREQ && ThreadOk(t, n, k) && 0 <= loadAvg <= MOST * F
    ensures var c := if running then Charged(t) else t;
            Figures(t, if second then Recalculated(c, loadAvg) else c, running, second, loadAvg)
  {
    ChargedOk(t, n, k);
    hide RecentCpu, Priority, FpAddInt, CpuOk;
  }

  lemma TickMeans(s: Sched, running: nat, ready: nat, n: nat)
    requires n <= MOST && Bounded(s, n) && running < |s.threads| && ready <= n
    ensures Interrupted(s, Ticked(s, running, ready, n), running, ready)
  {
    LoadAvgBound(s.loadAvg, ready, n);
    NextTick(s.ticks);
    hide LoadAvg, Figures, Charged, Recalculated, ThreadOk;
    var r := Ticked(s, running, ready, n);
    forall i | 0 <= i < |s.threads| ensures Figures(s.threads[i], r.threads[i], i == running, r.ticks % TIMER_FREQ == 0, r.loadAvg) {
      FiguresAre(s.threads[i], n, s.ticks % TIMER_FREQ, i == running, r.ticks % TIMER_FREQ == 0, r.loadAvg);
    }
  }

  lemma ApplyBounded(s: Sched, e: Event, n: nat)
    requires n <= MOST && Bounded(s, n) && Possible(s, e, n)
    ensures Bounded(Apply(s, e, n), n)
  {
    match e
    case Tick(running, ready) => TickedBounded(s, running, ready, n);
    case _ =>
  }

  ghost predicate Next(s: Sched, e: Event, r: Sched, n: nat)
    requires n <= MOST
  {
    Possible(s, e, n) && (0 <= s.loadAvg <= n * F ==> r == Apply(s, e, n))
  }

  /** A run from boot with one thread, at most `n` ever ready or running. */
  ghost predicate IsRun(states: seq<Sched>, events: seq<Event>, n: nat)
    requires n <= MOST
  {
    && |states| == |events| + 1
    && states[0].loadAvg == 0 && states[0].ticks == 0
    && |states[0].threads| == 1 && states[0].threads[0].nice == 0 && states[0].threads[0].recentCpu == 0
    && forall i :: 0 <= i < |events| ==> Next(states[i], events[i], states[i + 1], n)
  }

  /** In every run load_avg is at most the number of threads, recent_cpu stays within
      -(40n + 20) and 240n + 120, and both fit 32 bits. */
  lemma {:induction false} RunBounded(states: seq<Sched>, events: seq<Event>, n: nat, k: nat)
    requires n <= MOST && IsRun(states, events, n) && k < |states|
    ensures Bounded(states[k], n) && Int32(states[k].loadAvg)
    ensures forall i :: 0 <= i < |states[k].threads| ==>
              var c := states[k].threads[i].recentCpu; Int32(c) && -(40 * n + 20) * F <= c <= (240 * n + 120) * F
  {
    if k > 0 {
      RunBounded(states, events, n, k - 1);
      assert Next(states[k - 1], events[k - 1], states[k - 1 + 1], n);
      hide Possible, Apply;
      ApplyBounded(states[k - 1], events[k - 1], n);
    }
    assert forall i :: 0 <= i < |states[k].threads| ==> ThreadOk(states[k].threads[i], n, states[k].ticks % TIMER_FREQ);
  }

  class Scheduler {
    var loadAvg: int
    var threads: seq<Thread>
    var ticks: nat

    ghost function State(): Sched
      reads this
    {
      Sched(loadAvg, threads, ticks)
    }

    constructor ()
      ensures State() == Sched(0, [Thread(0, 0, PRI_MAX, false)], 0)
    {
      loadAvg, threads, ticks := 0, [Thread(0, 0, PRI_MAX, false)], 0;
    }

    /** thread_foreach with thread_calc_recent_cpu. */
    method RecalculateAll()
      requires 0 <= loadAvg <= MOST * F
      modifies this`threads
      ensures threads == AllRecalculated(old(threads), loadAvg)
    {
      hide Recalculated;
      var i := 0;
      while i < |threads|
        invariant 0 <= i <= |threads| == |old(threads)|
        invariant forall j :: 0 <= j < i ==> threads[j] == Recalculated(old(threads)[j], loadAvg)
        invariant forall j :: i <= j < |threads| ==> threads[j] == old(threads)[j]
      {
        threads := threads[i := Recalculated(threads[i], loadAvg)];
        i := i + 1;
      }
    }

    /** timer_interrupt: charge the running thread, and once per second load_avg first
        and then every thread. */
    method Interrupt(running: nat, ready: nat, ghost n: nat)
      requires n <= MOST && Bounded(State(), n) && running < |threads| && ready <= n
      modifies this
      ensures State() == Apply(old(State()), Tick(running, ready), n) && Bounded(State(), n)
      ensures Interrupted(old(State()), State(), running, ready)
    {
      TickMeans(State(), running, ready, n);
      hide Bounded, LoadAvg, Charged, AllRecalculated, Interrupted;
      LoadAvgIn(State(), n);
      TickedBounded(State(), running, ready, n);
      LoadAvgBound(loadAvg, ready, n);
      ticks := ticks + 1;
      threads := threads[running := Charged(threads[running])];
      if ticks % TIMER_FREQ == 0 {
        loadAvg := LoadAvg(loadAvg, ready);
        RecalculateAll();
      }
    }

    /** thread_set_nice, without the yield. */
    method Renice(i: nat, nice: int, ghost n: nat)
      requires n <= MOST && Bounded(State(), n) && i < |threads| && -20 <= nice <= 20
      modifies this`threads
      ensures State() == Apply(old(State()), SetNice(i, nice), n) && Bounded(State(), n)
      ensures threads == old(threads)[i := old(threads)[i].(nice := nice, priority := threads[i].priority)]
      ensures threads[i].priority == if threads[i].idle then old(threads)[i].priority else Priority(threads[i].recentCpu, nice)
    {
      hide Bounded;
      LoadAvgIn(State(), n);
      ApplyBounded(State(), SetNice(i, nice), n);
      threads := threads[i := Renewed(threads[i].(nice := nice))];
    }

    /** init_thread: a new thread starts with its creator's figures. */
    method CreateThread(parent: nat, idle: bool, ghost n: nat)
      requires n <= MOST && Bounded(State(), n) && parent < |threads|
      modifies this`threads
      ensures State() == Apply(old(State()), Create(parent, idle), n) && Bounded(State(), n)
      ensures threads == old(threads) + [Thread(old(threads)[parent].nice, old(threads)[parent].recentCpu, PRI_MAX, idle)]
    {
      hide Bounded;
      LoadAvgIn(State(), n);
      ApplyBounded(State(), Create(parent, idle), n);
      threads := threads + [threads[parent].(priority := PRI_MAX, idle := idle)];
    }
  }

  lemma LoadAvgIn(s: Sched, n: nat)
    requires Bounded(s, n)
    ensures 0 <= s.loadAvg <= n * F
  {
  }
}
