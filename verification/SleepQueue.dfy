/** The queue of sleeping threads: ordered by wake-up tick, emptied from the front by the timer
    (Project2/src/threads/thread.c, Project2/src/devices/timer.c). */
module SleepQueue {
  /** A thread that went to sleep at tick `since` until tick `wake`. */
  datatype Sleeper = Sleeper(thread: nat, wake: int, since: int)

  ghost predicate Sorted(q: seq<Sleeper>)
  {
    forall i, j | 0 <= i < j < |q| :: q[i].wake <= q[j].wake
  }

  /** list_insert_ordered: before the first sleeper that wakes later. */
  function Position(q: seq<Sleeper>, wake: int): (k: nat)
    ensures k <= |q| && (k < |q| ==> wake < q[k].wake)
    ensures forall i | 0 <= i < k :: q[i].wake <= wake
  {
    if q == [] || wake < q[0].wake then 0 else 1 + Position(q[1..], wake)
  }

  function Inserted(q: seq<Sleeper>, s: Sleeper): (r: seq<Sleeper>)
    ensures |r| == |q| + 1
    ensures forall i {:trigger r[i]} | 0 <= i < |r| ::
      r[i] == var k := Position(q, s.wake); if i < k then q[i] else if i == k then s else q[i - 1]
  {
    q[..Position(q, s.wake)] + [s] + q[Position(q, s.wake)..]
  }

  lemma InsertedContents(q: seq<Sleeper>, s: Sleeper)
    ensures multiset(Inserted(q, s)) == multiset(q) + multiset{s}
  {
    assert q == q[..Position(q, s.wake)] + q[Position(q, s.wake)..];
  }

  /** How many sleepers the handler wakes at tick `now`. */
  function Due(q: seq<Sleeper>, now: int): (k: nat)
    ensures k <= |q| && (k < |q| ==> now < q[k].wake)
    ensures forall i | 0 <= i < k :: q[i].wake <= now
  {
    if q == [] || now < q[0].wake then 0 else 1 + Due(q[1..], now)
  }

  /** The first k sleepers are due, and the next, if any, is not. */
  ghost predicate AreDue(q: seq<Sleeper>, now: int, k: nat)
  {
    k <= |q| && (k < |q| ==> now < q[k].wake) && forall i | 0 <= i < k :: q[i].wake <= now
  }

  lemma DueIs(q: seq<Sleeper>, now: int, k: nat)
    requires AreDue(q, now, k)
    ensures Due(q, now) == k
  {
  }

  lemma InsertKeepsSorted(q: seq<Sleeper>, s: Sleeper)
    requires Sorted(q)
    ensures Sorted(Inserted(q, s))
  {
  }

  /** In a sorted queue the handler leaves exactly the sleepers whose tick has not come. */
  lemma HandlerIsExact(q: seq<Sleeper>, now: int)
    requires Sorted(q)
    ensures forall i | 0 <= i < |q| :: q[i].wake <= now <==> i < Due(q, now)
  {
  }

  // ----- runs

  datatype Event = Sleep(thread: nat, ticks: int) | Tick

  /** A sleeper and the tick at which it was unblocked. */
  datatype Woken = Woken(sleeper: Sleeper, at: int)

  datatype State = State(now: int, q: seq<Sleeper>, log: seq<Woken>)

  function WokenAt(q: seq<Sleeper>, now: int): (r: seq<Woken>)
    ensures |r| == |q| && forall i | 0 <= i < |q| :: r[i] == Woken(q[i], now)
  {
    seq(|q|, i requires 0 <= i < |q| => Woken(q[i], now))
  }

  /** A thread that lies down at tick `now`. */
  function Rests(thread: nat, ticks: int, now: int): Sleeper { Sleeper(thread, ticks + now, now) }

  function Clock(now: int, e: Event): int { if e.Tick? then now + 1 else now }

  function Apply(s: State, e: Event): State
  {
    match e
    case Sleep(thread, ticks) => State(s.now, Inserted(s.q, Rests(thread, ticks, s.now)), s.log)
    case Tick => AfterTick(s.q, Clock(s.now, e), s.log)
  }

  /** The handler of tick `now`. */
  function AfterTick(q: seq<Sleeper>, now: int, log: seq<Woken>): State
  {
    State(now, q[Due(q, now)..], log + WokenAt(q[..Due(q, now)], now))
  }

  function Later(a: int, b: int): int { if a < b then b else a }

  /** Whoever is in the queue is not due, unless it lay down after the last tick. */
  ghost predicate Resting(q: seq<Sleeper>, now: int)
  {
    forall i | 0 <= i < |q| :: q[i].since <= now && now < Later(q[i].wake, q[i].since + 1)
  }

  /** Every thread was woken at its tick, or at the first one after it lay down. */
  ghost predicate Punctual(log: seq<Woken>)
  {
    forall i | 0 <= i < |log| :: log[i].at == Later(log[i].sleeper.wake, log[i].sleeper.since + 1)
  }

  ghost predicate Inv(s: State)
  {
    Sorted(s.q) && Resting(s.q, s.now) && Punctual(s.log)
  }

  lemma SleepKeeps(q: seq<Sleeper>, now: int, log: seq<Woken>, x: Sleeper)
    requires Sorted(q) && Resting(q, now) && Punctual(log) && x.since == now
    ensures Inv(State(now, Inserted(q, x), log))
  {
    InsertKeepsSorted(q, x);
  }

  lemma TickKeeps(q: seq<Sleeper>, now: int, log: seq<Woken>)
    requires Sorted(q) && Resting(q, now - 1) && Punctual(log)
    ensures Inv(AfterTick(q, now, log))
  {
    HandlerIsExact(q, now);
    assert Punctual(WokenAt(q[..Due(q, now)], now));
  }

  lemma TickStepKeeps(s: State)
    requires Inv(s)
    ensures Inv(Apply(s, Tick))
  {
    TickKeeps(s.q, s.now + 1, s.log);
  }

  lemma SleepStepKeeps(s: State, thread: nat, ticks: int)
    requires Inv(s)
    ensures Inv(Apply(s, Sleep(thread, ticks)))
  {
    SleepKeeps(s.q, s.now, s.log, Rests(thread, ticks, s.now));
  }

  lemma StepKeeps(s: State, e: Event)
    requires Inv(s)
    ensures Inv(Apply(s, e))
  {
    if e.Tick? {
      TickStepKeeps(s);
    } else {
      SleepStepKeeps(s, e.thread, e.ticks);
      assert e == Sleep(e.thread, e.ticks);
    }
  }

  function Run(s: State, es: seq<Event>): State
    decreases |es|
  {
    if es == [] then s else Run(Apply(s, es[0]), es[1..])
  }

  /** Every run of sleeps and ticks: sorted queue, nobody woken early, nobody overslept. */
  lemma {:induction false} RunKeeps(s: State, es: seq<Event>)
    requires Inv(s)
    ensures Inv(Run(s, es))
    decreases |es|
  {
    if es != [] {
      StepKeeps(s, es[0]);
      RunKeeps(Apply(s, es[0]), es[1..]);
    }
  }

  function Sleepers(log: seq<Woken>): (r: seq<Sleeper>)
    ensures |r| == |log| && forall i | 0 <= i < |log| :: r[i] == log[i].sleeper
  {
    seq(|log|, i requires 0 <= i < |log| => log[i].sleeper)
  }

  lemma SleepersAppend(log: seq<Woken>, q: seq<Sleeper>, now: int)
    ensures Sleepers(log + WokenAt(q, now)) == Sleepers(log) + q
  {
  }

  /** Everyone who is in the queue or was woken. */
  function Accounted(s: State): multiset<Sleeper>
  {
    multiset(s.q) + multiset(Sleepers(s.log))
  }

  function SleptOne(now: int, e: Event): multiset<Sleeper>
  {
    if e.Tick? then multiset{} else multiset{Rests(e.thread, e.ticks, now)}
  }

  /** Who lay down in a run. */
  function Slept(now: int, es: seq<Event>): multiset<Sleeper>
    decreases |es|
  {
    if es == [] then multiset{}
    else SleptOne(now, es[0]) + Slept(Clock(now, es[0]), es[1..])
  }

  lemma TickAccounts(q: seq<Sleeper>, now: int, log: seq<Woken>, k: nat)
    requires k <= |q|
    ensures multiset(q[k..]) + multiset(Sleepers(log + WokenAt(q[..k], now))) == multiset(q) + multiset(Sleepers(log))
  {
    SleepersAppend(log, q[..k], now);
    assert q == q[..k] + q[k..];
  }

  lemma TickStepAccounts(s: State)
    ensures Accounted(Apply(s, Tick)) == Accounted(s)
  {
    TickAccounts(s.q, Clock(s.now, Tick), s.log, Due(s.q, Clock(s.now, Tick)));
  }

  lemma SleepStepAccounts(s: State, thread: nat, ticks: int)
    ensures Accounted(Apply(s, Sleep(thread, ticks))) == Accounted(s) + multiset{Rests(thread, ticks, s.now)}
  {
    InsertedContents(s.q, Rests(thread, ticks, s.now));
  }

  lemma StepAccounts(s: State, e: Event)
    ensures Accounted(Apply(s, e)) == Accounted(s) + SleptOne(s.now, e) && Apply(s, e).now == Clock(s.now, e)
  {
    if e.Tick? {
      TickStepAccounts(s);
    } else {
      SleepStepAccounts(s, e.thread, e.ticks);
      assert e == Sleep(e.thread, e.ticks);
    }
  }

  lemma Regroup(a: multiset<Sleeper>, b: multiset<Sleeper>, c: multiset<Sleeper>)
    ensures a + b + c == a + (b + c)
  {
  }

  /** Nobody is lost and nobody is woken twice: whoever lay down is still in the queue or was woken
      once. */
  lemma {:induction false} NobodyLost(s: State, es: seq<Event>)
    ensures Accounted(Run(s, es)) == Accounted(s) + Slept(s.now, es)
    decreases |es|
  {
    if es != [] {
      StepAccounts(s, es[0]);
      NobodyLost(Apply(s, es[0]), es[1..]);
      Regroup(Accounted(s), SleptOne(s.now, es[0]), Slept(Clock(s.now, es[0]), es[1..]));
    }
  }
}
