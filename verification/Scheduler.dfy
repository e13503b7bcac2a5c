/** The timer interrupt of the multi-level feedback queue scheduler: the load average, recent_cpu and
    the priorities of all threads, updated in place (Project2/src/devices/timer.c,
    Project2/src/threads/thread.c). */
module Scheduler {
  import opened Nonlinear
  import opened LoadAverage
  import opened Sequences
  import opened Threads

  const PRI_MIN: int := 0
  const PRI_MAX: int := 63

  newtype Int64 = x: int | -0x8000_0000_0000_0000 <= x < 0x8000_0000_0000_0000

  // ----- fixed-point arithmetic in int and int64

  method Multiply(a: Int32, b: Int32) returns (r: Int32)
    requires IsInt(FixedMul(a as int, b as int))
    ensures r as int == FixedMul(a as int, b as int)
  {
    ProductFits(a as int, b as int);
    var product := a as Int64 * b as Int64;
    r := Quot(product as int, F) as Int32;
  }

  lemma ProductFits(a: int, b: int)
    requires IsInt(a) && IsInt(b)
    ensures -0x4000_0000_0000_0000 <= a * b <= 0x4000_0000_0000_0000
  {
    var m := 0x8000_0000;
    MulLe(a, m, b);
    MulLe(-m, a, b);
    MulLe(a, m, -b);
    MulLe(-m, a, -b);
  }

  method Divide(a: Int32, b: Int32) returns (r: Int32)
    requires b > 0 && IsInt(FixedDiv(a as int, b as int))
    ensures r as int == FixedDiv(a as int, b as int)
  {
    var scaled := a as Int64 * 16384;
    r := Quot(scaled as int, b as int) as Int32;
  }

  // ----- the multi-level feedback queue scheduler

  function Clamp(p: int): int { if p > PRI_MAX then PRI_MAX else if p < PRI_MIN then PRI_MIN else p }

  /** thread_priority_update. */
  function Priority(recent: int, nice: int): (p: int)
    ensures PRI_MIN <= p <= PRI_MAX
  {
    Clamp(PRI_MAX - RoundToInt(Quot(recent, 4)) - nice * 2)
  }

  /** Using more of the processor, or being nicer, never raises a priority. */
  lemma PriorityFalls(recent: int, recent': int, nice: int, nice': int)
    requires recent <= recent' && nice <= nice'
    ensures Priority(recent', nice') <= Priority(recent, nice)
  {
    QuotGrows(recent, recent', 4);
    var f, f' := Quot(recent, 4), Quot(recent', 4);
    QuotGrows(f + (if f > 0 then F / 2 else -F / 2), f' + (if f' > 0 then F / 2 else -F / 2), F);
  }

  lemma QuotGrows(a: int, b: int, d: int)
    requires d > 0 && a <= b
    ensures Quot(a, d) <= Quot(b, d)
  {
    var x, y := if a < 0 then -a else a, if b < 0 then -b else b;
    DivCompare(x, d, y / d + 1);
    DivCompare(y, d, x / d + 1);
    DivCompare(y, d, y / d + 1);
    DivCompare(x, d, x / d + 1);
    DivCompare(x, d, 0);
    DivCompare(y, d, 0);
  }

  function Sizes(lists: seq<seq<Thread>>): nat
  {
    if lists == [] then 0 else Sizes(lists[..|lists| - 1]) + |lists[|lists| - 1]|
  }

  lemma {:induction false} OneMoreReady(lists: seq<seq<Thread>>, p: nat, t: Thread)
    requires p < |lists|
    ensures Sizes(lists[p := lists[p] + [t]]) == Sizes(lists) + 1
  {
    var n := |lists| - 1;
    var more := lists[p := lists[p] + [t]];
    if p < n {
      OneMoreReady(lists[..n], p, t);
      assert more[..n] == lists[..n][p := lists[..n][p] + [t]];
    } else {
      assert more[..n] == lists[..n];
    }
  }

  class Mlfqs {
    var ticks: nat
    var loadAvg: Int32
    /** The load average that exact arithmetic would give. */
    ghost var exact: real
    /** Ready threads by priority, all threads, the idle thread and the one running. */
    var ready: seq<seq<Thread>>
    var all: seq<Thread>
    const idle: Thread
    var current: Thread

    constructor (idle: Thread)
      requires idle.recentCpu == 0 && -20 <= idle.nice <= 20 && PRI_MIN <= idle.donatedPriority <= PRI_MAX
      ensures this.idle == idle && all == [idle] && Valid(0)
    {
      ticks, loadAvg, exact := 0, 0, 0.0;
      ready := seq(64, _ => []);
      all, this.idle, current := [idle], idle, idle;
    }

    ghost predicate Valid(n: nat)
      reads this, all
    {
      && Distinct(all) && current in all && |ready| == 64 && Close(loadAvg as int, exact, n)
      && forall t | t in all ::
           -20 <= t.nice <= 20 && RecentInRange(t.recentCpu as int, n, ticks % TIMER_FREQ) && PRI_MIN <= t.donatedPriority <= PRI_MAX
    }

    /** The scheduler's numbers as thread t sees them. */
    ghost function Seen(t: Thread): Numbers
      reads this, t
    {
      Numbers(ticks, loadAvg as int, exact, t.recentCpu as int)
    }

    /** How many threads are ready or running, the idle thread aside. */
    ghost function Runnable(): nat
      reads this
    {
      Sizes(ready) + if current != idle then 1 else 0
    }

    /** thread_unblock: to the end of the ready list of its priority; the idle thread is on none. */
    method Unblock(t: Thread)
      requires |ready| == 64 && PRI_MIN <= t.donatedPriority <= PRI_MAX
      modifies this`ready, t`status
      ensures |ready| == 64 && t.status == Ready && Runnable() == old(Runnable()) + if t != idle then 1 else 0
    {
      if t != idle {
        OneMoreReady(ready, t.donatedPriority, t);
        ready := ready[t.donatedPriority := ready[t.donatedPriority] + [t]];
      }
      t.status := Ready;
    }

    /** timer_interrupt once the sleep queue has been handled: the charge, once a second the load
        average and every recent_cpu, every fourth tick the priorities.  With at most 500 runnable
        threads no int overflows. */
    method UpdateTick(ghost n: nat)
      requires Valid(n) && Runnable() <= n <= 500
      modifies this`ticks, this`loadAvg, this`exact, all`recentCpu, all`basePriority, all`donatedPriority
      ensures Valid(n) && ticks == old(ticks) + 1
      ensures forall t | t in all :: Seen(t) == AfterTick(old(Seen(t)), Interrupt(Runnable(), t == current, t.nice))
      ensures forall t | t in all && t != idle && ticks % 4 == 0 ::
                t.basePriority == t.donatedPriority == Priority(t.recentCpu as int, t.nice)
      ensures forall t | t in all && ticks % 4 != 0 ::
                t.basePriority == old(t.basePriority) && t.donatedPriority == old(t.donatedPriority)
    {
      Advance(n);
      if ticks % 4 == 0 {
        UpdatePriorities();
      }
    }

    /** The tick, the charge and the second's updates. */
    method Advance(ghost n: nat)
      requires Valid(n) && Runnable() <= n <= 500
      modifies this`ticks, this`loadAvg, this`exact, all`recentCpu
      ensures Valid(n) && ticks == old(ticks) + 1
      ensures forall t | t in all :: Seen(t) == AfterTick(old(Seen(t)), Interrupt(Runnable(), t == current, t.nice))
    {
      KeepsBounds(n);
      ticks := ticks + 1;
      ChargeAndAge(n);
      assert forall t | t in all :: InBounds(Seen(t), n);
    }

    method ChargeAndAge(ghost n: nat)
      requires Distinct(all) && current in all && |ready| == 64 && 0 <= loadAvg as int <= F * n && Runnable() <= n <= 500
      requires IsInt(current.recentCpu as int + F)
      requires ticks % TIMER_FREQ == 0 ==>
        forall t | t in all :: RecentFits(NextLoad(loadAvg as int, Runnable()), Charged(t.recentCpu as int, t == current), t.nice)
      modifies this`loadAvg, this`exact, all`recentCpu
      ensures ticks % TIMER_FREQ == 0 ==> loadAvg as int == NextLoad(old(loadAvg) as int, Runnable()) && exact == NextExact(old(exact), Runnable())
      ensures ticks % TIMER_FREQ != 0 ==> loadAvg == old(loadAvg) && exact == old(exact)
      ensures forall t | t in all && ticks % TIMER_FREQ == 0 ::
                t.recentCpu as int == NextRecent(loadAvg as int, Charged(old(t.recentCpu) as int, t == current), t.nice)
      ensures forall t | t in all && ticks % TIMER_FREQ != 0 :: t.recentCpu as int == Charged(old(t.recentCpu) as int, t == current)
    {
      current.recentCpu := current.recentCpu + 16384;
      if ticks % TIMER_FREQ == 0 {
        OncePerSecond(n);
      }
    }

    method OncePerSecond(ghost n: nat)
      requires Distinct(all) && |ready| == 64 && 0 <= loadAvg as int <= F * n && Runnable() <= n <= 500
      requires forall t | t in all :: RecentFits(NextLoad(loadAvg as int, Runnable()), t.recentCpu as int, t.nice)
      modifies this`loadAvg, this`exact, all`recentCpu
      ensures loadAvg as int == NextLoad(old(loadAvg) as int, Runnable()) && exact == NextExact(old(exact), Runnable())
      ensures forall t | t in all :: t.recentCpu as int == NextRecent(loadAvg as int, old(t.recentCpu) as int, t.nice)
    {
      CountLoadAvg(n);
      UpdateRecentCpu();
    }

    /** No thread's numbers leave their bounds or overflow at the next tick. */
    lemma KeepsBounds(n: nat)
      requires Valid(n) && Runnable() <= n <= 500
      ensures forall t | t in all :: IsInt(t.recentCpu as int + F)
      ensures forall t | t in all :: InBounds(AfterTick(Seen(t), Interrupt(Runnable(), t == current, t.nice)), n)
      ensures (ticks + 1) % TIMER_FREQ == 0 ==>
                forall t | t in all :: RecentFits(NextLoad(loadAvg as int, Runnable()), Charged(t.recentCpu as int, t == current), t.nice)
    {
      forall t | t in all
        ensures IsInt(t.recentCpu as int + F)
        ensures InBounds(AfterTick(Seen(t), Interrupt(Runnable(), t == current, t.nice)), n)
        ensures (ticks + 1) % TIMER_FREQ == 0 ==>
                  RecentFits(NextLoad(loadAvg as int, Runnable()), Charged(t.recentCpu as int, t == current), t.nice)
      {
        TickKeepsBounds(Seen(t), Interrupt(Runnable(), t == current, t.nice), n);
        NoOverflow(Seen(t), Interrupt(Runnable(), t == current, t.nice), n);
      }
    }

    method CountLoadAvg(ghost n: nat)
      requires |ready| == 64 && 0 <= loadAvg as int <= F * n && Runnable() <= n <= 500
      modifies this`loadAvg, this`exact
      ensures loadAvg as int == NextLoad(old(loadAvg) as int, Runnable()) && exact == NextExact(old(exact), Runnable())
    {
      LoadStepRange(loadAvg as int, Runnable(), n);
      exact := NextExact(exact, Runnable());
      var cnt := 0;
      for p := 0 to 64
        invariant cnt == Sizes(ready[..p])
      {
        assert ready[..p + 1][..p] == ready[..p];
        cnt := cnt + |ready[p]|;
      }
      assert ready[..64] == ready;
      if current != idle {
        cnt := cnt + 1;
      }
      var old59 := Multiply(16110, loadAvg);
      loadAvg := old59 + 273 * cnt as Int32;
    }

    method UpdateRecentCpu()
      requires Distinct(all) && loadAvg >= 0
      requires forall t | t in all :: RecentFits(loadAvg as int, t.recentCpu as int, t.nice)
      modifies all`recentCpu
      ensures forall t | t in all :: t.recentCpu as int == NextRecent(loadAvg as int, old(t.recentCpu) as int, t.nice)
    {
      var i := 0;
      while i < |all|
        invariant 0 <= i <= |all|
        invariant forall j | 0 <= j < i :: all[j].recentCpu as int == NextRecent(loadAvg as int, old(all[j].recentCpu) as int, all[j].nice)
        invariant forall j | i <= j < |all| :: all[j].recentCpu == old(all[j].recentCpu)
      {
        UpdateRecentCpuOf(all[i]);
        i := i + 1;
      }
    }

    method UpdateRecentCpuOf(t: Thread)
      requires loadAvg >= 0 && RecentFits(loadAvg as int, t.recentCpu as int, t.nice)
      modifies t`recentCpu
      ensures t.recentCpu as int == NextRecent(loadAvg as int, old(t.recentCpu) as int, t.nice)
    {
      var twice := loadAvg * 2;
      var decay := Divide(twice, twice + 16384);
      var product := Multiply(decay, t.recentCpu);
      t.recentCpu := product + t.nice as Int32 * 16384;
    }

    method UpdatePriorities()
      requires Distinct(all) && forall t | t in all :: PRI_MIN <= t.donatedPriority <= PRI_MAX
      modifies all`basePriority, all`donatedPriority
      ensures forall t | t in all :: PRI_MIN <= t.donatedPriority <= PRI_MAX
      ensures forall t | t in all && t != idle :: t.basePriority == t.donatedPriority == Priority(t.recentCpu as int, t.nice)
    {
      var i := 0;
      while i < |all|
        invariant 0 <= i <= |all| && forall t | t in all :: PRI_MIN <= t.donatedPriority <= PRI_MAX
        invariant forall j | 0 <= j < i && all[j] != idle ::
          all[j].basePriority == all[j].donatedPriority == Priority(all[j].recentCpu as int, all[j].nice)
      {
        var t := all[i];
        if t != idle {
          t.basePriority := PRI_MAX - RoundToInt(Quot(t.recentCpu as int, 4)) - t.nice * 2;
          if t.basePriority > PRI_MAX {
            t.basePriority := PRI_MAX;
          }
          if t.basePriority < PRI_MIN {
            t.basePriority := PRI_MIN;
          }
          t.donatedPriority := t.basePriority;
        }
        i := i + 1;
      }
    }
  }
}
