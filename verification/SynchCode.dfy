/** The atomic steps of synch.c as they update the kernel's tables in place.  Every method is proved
    to take exactly the corresponding step of Synch (Project2/src/threads/synch.c). */
module SynchCode {
  import opened Sequences
  import opened Synch

  class Kernel {
    var pc: map<nat, Pc>
    var semas: map<SemId, Sema>
    var holder: map<nat, nat>
    var conds: map<nat, seq<nat>>
    var prior: map<nat, int>
    ghost var counts: map<nat, Count>

    constructor ()
      ensures Abs() == Boot
    {
      pc, semas, holder, conds, prior, counts := map[], map[], map[], map[], map[], map[];
    }

    ghost function Abs(): State
      reads this
    {
      State(pc, semas, holder, conds, prior, counts)
    }

    function Read(s: SemId): Sema
      reads this
    {
      if s in semas then semas[s] else Sema(if s.LockSem? then 1 else 0, [])
    }

    function Listed(c: nat): seq<nat>
      reads this
    {
      if c in conds then conds[c] else []
    }

    /** One round of sema_down_donate for thread t: park on a semaphore at 0, else take one. */
    method SemaDown(t: nat, k: Purpose)
      modifies this
      ensures Abs() == Down(old(Abs()), t, k)
    {
      var s := SemFor(k, t);
      var sema := Read(s);
      if sema.value == 0 {
        semas := semas[s := Sema(0, sema.waiters + [t])];
        pc := pc[t := Parked(k)];
        return;
      }
      semas := semas[s := Sema(sema.value - 1, sema.waiters)];
      match k {
        case Plain(_) =>
          pc := pc[t := Idle];
        case Acquire(l) =>
          pc := pc[t := Idle];
          holder := holder[l := t];
        case Await(_, l) =>
          pc := pc[t := Reacquire(l)];
          counts := counts[t := CountOf(Abs(), t).(ended := CountOf(Abs(), t).ended + 1)];
      }
    }

    /** sema_up: pops and unblocks every waiter, and only then adds one.  The precondition is the
        assertion in thread_unblock; ParkInv implies it. */
    method SemaUp(s: SemId)
      requires forall t | t in Read(s).waiters :: t in pc && pc[t].Parked?
      requires Distinct(Read(s).waiters)
      modifies this`pc, this`semas
      ensures Abs() == Up(old(Abs()), s)
    {
      var value, waiters := Read(s).value, Read(s).waiters;
      ghost var all := waiters;
      ghost var k := 0;
      while waiters != []
        invariant 0 <= k <= |all| && waiters == all[k..] && pc.Keys == old(pc).Keys && semas == old(semas)
        invariant forall t | t in pc :: pc[t] == if t in all[..k] then Retry(old(pc)[t].k) else old(pc)[t]
      {
        var t := waiters[0];
        assert t == all[k] && t !in all[..k] && all[..k + 1] == all[..k] + [t];
        waiters := waiters[1..];
        pc := pc[t := Retry(pc[t].k)];
        k := k + 1;
      }
      assert all[..k] == all;
      assert pc == Wake(old(pc), all);
      semas := semas[s := Sema(value + 1, [])];
    }

    /** lock_release, for a thread that has moved to `next`. */
    method LockRelease(t: nat, l: nat, next: Pc)
      requires Inv(Abs()) && Releasing(Abs(), t, l, next)
      modifies this
      ensures Abs() == Release(At(old(Abs()), t, next), l)
    {
      ghost var st := Abs();
      UnblockAsserts(st, LockSem(l));
      pc := pc[t := next];
      holder := holder - {l};
      SemaUp(LockSem(l));
    }

    /** cond_wait up to its first switch point: a private semaphore, last in the condition's list. */
    method CondWait(t: nat, c: nat, l: nat)
      modifies this
      ensures Abs() == Begin(old(Abs()), t, c, l)
    {
      counts := counts[t := CountOf(Abs(), t).(began := CountOf(Abs(), t).began + 1)];
      semas := semas[Private(t) := Sema(0, [])];
      conds := conds[c := Listed(c) + [t]];
      pc := pc[t := Pushed(c, l)];
    }

    /** list_max with semaphore_elem_less. */
    method ListMax(ws: seq<nat>) returns (max: nat)
      requires ws != []
      ensures max == Pick(Abs(), ws) && max < |ws|
    {
      max := 0;
      var e := 1;
      assert ws[..1] == [ws[0]];
      while e < |ws|
        invariant 1 <= e <= |ws| && max == Pick(Abs(), ws[..e]) && max < e
      {
        assert ws[..e + 1][..e] == ws[..e];
        var less := SemaphoreElemLess(ws[max], ws[e]);
        if less {
          max := e;
        }
        e := e + 1;
      }
      assert ws[..e] == ws;
    }

    method SemaphoreElemLess(a: nat, b: nat) returns (less: bool)
      ensures less == Less(Abs(), a, b)
    {
      if Read(Private(a)).waiters == [] {
        return Read(Private(b)).waiters != [];
      } else if Read(Private(b)).waiters == [] {
        return false;
      }
      var pa := if a in prior then prior[a] else 31;
      var pb := if b in prior then prior[b] else 31;
      less := pa < pb;
    }

    /** The part of cond_signal and cond_broadcast that takes waiter i off the list. */
    method ListRemove(t: nat, c: nat, i: nat, all: bool)
      requires i < |Listed(c)|
      modifies this
      ensures Abs() == Take(old(Abs()), t, c, i, all)
    {
      var w := Listed(c)[i];
      counts := counts[w := CountOf(Abs(), w).(took := CountOf(Abs(), w).took + 1, taker := t)];
      conds := conds[c := Listed(c)[..i] + Listed(c)[i + 1..]];
      pc := pc[t := Taken(w, all, c)];
    }

    /** cond_signal up to its sema_up, if no other thread runs during list_max. */
    method CondSignal(t: nat, c: nat, l: nat)
      requires PcOf(Abs(), t) == Idle && Holds(Abs(), t, l)
      modifies this
      ensures old(Listed(c)) == [] ==> Abs() == old(Abs())
      ensures old(Listed(c)) != [] ==> Abs() == Step(old(Abs()), t, Op.CondSignal(c, l, Pick(old(Abs()), old(Listed(c)))))
    {
      if Listed(c) != [] {
        var i := ListMax(Listed(c));
        ListRemove(t, c, i, false);
      }
    }

    /** The sema_up on the private semaphore of the waiter that thread t took off. */
    method UpWaiter(t: nat, w: nat, next: Pc)
      requires Inv(Abs()) && Upping(Abs(), t, w, next)
      modifies this
      ensures Abs() == UpTaken(old(Abs()), t, w, next)
    {
      UnblockAsserts(Abs(), Private(w));
      counts := counts[w := CountOf(Abs(), w).(upped := CountOf(Abs(), w).upped + 1)];
      pc := pc[t := next];
      SemaUp(Private(w));
    }
  }

  /** The assertion in thread_unblock, that the thread is blocked, never fires in sema_up. */
  lemma UnblockAsserts(st: State, s: SemId)
    requires ParkInv(st)
    ensures Distinct(SemaOf(st, s).waiters)
    ensures forall t: nat | t in SemaOf(st, s).waiters :: t in st.pc && st.pc[t].Parked?
  {
    forall t: nat | t in SemaOf(st, s).waiters ensures t in st.pc && st.pc[t].Parked? {
      assert PcOf(st, t).Parked?;
    }
  }
}
