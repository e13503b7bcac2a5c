/** The sleep queue as the timer handler and sleepers update it (Project2/src/threads/thread.c). */
module SleepTimer {
  import opened SleepQueue
  import opened Sequences
  import opened Threads

  lemma InsertedAt(all: seq<Thread>, k: nat, t: Thread)
    requires Distinct(all) && t !in all && k <= |all|
    ensures var now := all[..k] + [t] + all[k..];
      Distinct(now) && forall i {:trigger now[i]} | 0 <= i < |now| :: now[i] == if i < k then all[i] else if i == k then t else all[i - 1]
  {
  }

  class Timer {
    var ticks: nat
    var sleepers: seq<Thread>
    /** The queue as values. */
    ghost var queue: seq<Sleeper>

    ghost predicate Valid()
      reads this, sleepers
    {
      && Distinct(sleepers) && |queue| == |sleepers|
      && forall i | 0 <= i < |sleepers| :: sleepers[i].status == Blocked && queue[i] == sleepers[i].AsSleeper()
    }

    constructor ()
      ensures Valid() && ticks == 0 && queue == []
    {
      ticks, sleepers, queue := 0, [], [];
    }

    /** The search of list_insert_ordered. */
    method FindPosition(wake: int) returns (k: nat)
      requires Valid()
      ensures k == Position(queue, wake)
    {
      k := 0;
      while k < |sleepers| && !(wake < sleepers[k].wake)
        invariant 0 <= k <= |sleepers| && forall i | 0 <= i < k :: queue[i].wake <= wake
      {
        k := k + 1;
      }
    }

    /** The queue is as it should be, but for the status of thread t. */
    ghost predicate ValidBut(t: Thread)
      reads this, sleepers
    {
      && Distinct(sleepers) && |queue| == |sleepers|
      && forall i | 0 <= i < |sleepers| :: queue[i] == sleepers[i].AsSleeper() && (sleepers[i] == t || sleepers[i].status == Blocked)
    }

    /** list_insert_ordered. */
    method InsertOrdered(t: Thread)
      requires Valid() && t !in sleepers
      modifies this`sleepers, this`queue
      ensures ValidBut(t) && t in sleepers && queue == Inserted(old(queue), t.AsSleeper())
    {
      var k := FindPosition(t.wake);
      InsertedAt(sleepers, k, t);
      sleepers := sleepers[..k] + [t] + sleepers[k..];
      queue := Inserted(queue, t.AsSleeper());
      assert sleepers[k] == t;
    }

    /** sleep_the_thread: the running thread goes into the queue, behind those that wake no later. */
    method SleepTheThread(t: Thread, n: int)
      requires Valid() && t !in sleepers && t.status == Running
      modifies this`sleepers, this`queue, t
      ensures Valid() && t.status == Blocked && queue == Inserted(old(queue), Rests(t.tid, n, ticks))
    {
      t.wake, t.since := n + ticks, ticks;
      InsertOrdered(t);
      t.status := Blocked;
    }

    /** Takes the first sleeper, which is due, off the queue and resets its tick. */
    method TakeFirst(t: Thread)
      requires Valid() && sleepers != [] && t == sleepers[0]
      modifies this`sleepers, this`queue, t`wake
      ensures Valid() && sleepers == old(sleepers[1..]) && queue == old(queue)[1..] && t.wake == ticks
    {
      t.wake := ticks;
      sleepers, queue := sleepers[1..], queue[1..];
    }
  }
}
