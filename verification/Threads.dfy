/** The parts of a thread that the timer interrupt reads and updates (Project2/src/threads/thread.h). */
module Threads {
  import opened SleepQueue

  newtype Int32 = x: int | -0x8000_0000 <= x < 0x8000_0000

  datatype Status = Running | Ready | Blocked

  class Thread {
    const tid: nat
    var status: Status
    /** ticks_left_to_sleep, which holds the tick to wake up at. */
    var wake: int
    ghost var since: int
    var nice: int
    var recentCpu: Int32
    var basePriority: int
    var donatedPriority: int

    constructor (tid: nat)
    {
      this.tid := tid;
      status, wake, since, nice, recentCpu, basePriority, donatedPriority := Ready, 0, 0, 0, 0, 31, 31;
    }

    ghost function AsSleeper(): Sleeper
      reads this
    {
      Sleeper(tid, wake, since)
    }
  }
}
