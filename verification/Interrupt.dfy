/** The timer interrupt as a whole: the tick, the sleep queue, then the scheduler's updates, in this
    order (Project2/src/devices/timer.c). */
module Interrupt {
  import opened SleepQueue
  import opened Threads
  import opened SleepTimer
  import opened Scheduler
  import LoadAverage

  /** handle_tick_for_sleep_queue: unblocks the front of the queue while it is due. */
  method HandleTick(timer: Timer, sched: Mlfqs)
    requires timer.Valid() && |sched.ready| == 64 && sched.idle !in timer.sleepers
    requires forall t | t in timer.sleepers :: PRI_MIN <= t.donatedPriority <= PRI_MAX
    modifies timer`sleepers, timer`queue, sched`ready, timer.sleepers`wake, timer.sleepers`status
    ensures var k := Due(old(timer.queue), timer.ticks);
      && timer.Valid() && timer.sleepers == old(timer.sleepers)[k..] && timer.queue == old(timer.queue)[k..]
      && (forall i | 0 <= i < k :: old(timer.sleepers)[i].status == Ready && old(timer.sleepers)[i].wake == timer.ticks)
      && |sched.ready| == 64 && sched.Runnable() == old(sched.Runnable()) + k
  {
    ghost var all, q, k := timer.sleepers, timer.queue, 0;
    while timer.sleepers != [] && timer.sleepers[0].wake <= timer.ticks
      invariant 0 <= k <= |all| && timer.sleepers == all[k..] && timer.queue == q[k..] && timer.Valid()
      invariant forall i | 0 <= i < k :: all[i].status == Ready && all[i].wake == timer.ticks && q[i].wake <= timer.ticks
      invariant |sched.ready| == 64 && sched.Runnable() == old(sched.Runnable()) + k
    {
      var t := timer.sleepers[0];
      assert all[k] == t && q[k] == timer.queue[0];
      timer.TakeFirst(t);
      sched.Unblock(t);
      k := k + 1;
    }
    assert k < |q| ==> q[k] == timer.queue[0];
    DueIs(q, timer.ticks, k);
  }

  /** The queue stays valid while its threads keep their status and their ticks. */
  twostate lemma QueueStays(timer: Timer)
    requires old(timer.Valid()) && unchanged(timer)
    requires forall t | t in timer.sleepers :: t.status == old(t.status) && t.wake == old(t.wake) && t.since == old(t.since)
    ensures timer.Valid()
  {
  }

  /** The tick and the sleep queue: the scheduler's numbers stay, but for how many threads are runnable. */
  method Wake(timer: Timer, sched: Mlfqs, ghost n: nat)
    requires timer.Valid() && sched.Valid(n)
    requires sched.idle !in timer.sleepers && forall t | t in timer.sleepers :: t in sched.all
    modifies timer, sched`ready, timer.sleepers`wake, timer.sleepers`status
    ensures timer.Valid() && sched.Valid(n) && timer.ticks == old(timer.ticks) + 1
    ensures timer.queue == old(timer.queue)[Due(old(timer.queue), timer.ticks)..]
    ensures timer.sleepers == old(timer.sleepers)[Due(old(timer.queue), timer.ticks)..]
    ensures forall i | 0 <= i < Due(old(timer.queue), timer.ticks) :: old(timer.sleepers)[i].status == Ready
    ensures sched.Runnable() == old(sched.Runnable()) + Due(old(timer.queue), timer.ticks)
  {
    timer.ticks := timer.ticks + 1;
    HandleTick(timer, sched);
  }

  /** timer_interrupt under the feedback scheduler.  Sleepers whose tick has come are ready, and count
      as runnable in the load average of the same tick. */
  method TimerInterrupt(timer: Timer, sched: Mlfqs, ghost n: nat)
    requires timer.Valid() && sched.Valid(n) && timer.ticks == sched.ticks && n <= 500
    requires sched.idle !in timer.sleepers && forall t | t in timer.sleepers :: t in sched.all
    requires sched.Runnable() + Due(timer.queue, timer.ticks + 1) <= n
    modifies timer, sched, sched.all, timer.sleepers
    ensures timer.Valid() && sched.Valid(n) && timer.ticks == sched.ticks == old(timer.ticks) + 1
    ensures timer.queue == old(timer.queue)[Due(old(timer.queue), timer.ticks)..]
    ensures forall i | 0 <= i < Due(old(timer.queue), timer.ticks) :: old(timer.sleepers)[i].status == Ready
    ensures sched.Runnable() == old(sched.Runnable()) + Due(old(timer.queue), timer.ticks)
    ensures sched.all == old(sched.all) && sched.current == old(sched.current)
    ensures forall t | t in sched.all ::
      sched.Seen(t) == LoadAverage.AfterTick(old(sched.Seen(t)), LoadAverage.Interrupt(sched.Runnable(), t == sched.current, t.nice))
  {
    Wake(timer, sched, n);
    label woken:
    sched.UpdateTick(n);
    QueueStays@woken(timer);
  }
}
