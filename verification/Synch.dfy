/** Semaphores, locks and condition variables as a state machine over atomic steps
    (Project2/src/threads/synch.c).  Interrupts are off inside a step; between two steps any thread
    that is not parked may run.  A semaphore that is upped wakes every waiter, and each of them
    tests the value again. */
module Synch {
  import opened Bitmap
  import opened Sequences

  /** A named semaphore, the semaphore of a lock, or the private one a thread waits for a condition on. */
  datatype SemId = Named(n: nat) | LockSem(l: nat) | Private(t: nat)

  /** Why a thread downs a semaphore: for itself, to acquire a lock, or inside cond_wait. */
  datatype Purpose = Plain(n: nat) | Acquire(l: nat) | Await(c: nat, l: nat)

  /** Where a thread is.  Pushed, Released and Reacquire are the points of cond_wait between its
      steps; Taken and Broadcasting those of cond_signal and cond_broadcast. */
  datatype Pc = Idle | Parked(k: Purpose) | Retry(k: Purpose)
    | Pushed(c: nat, l: nat) | Released(c: nat, l: nat) | Reacquire(l: nat)
    | Taken(w: nat, all: bool, c: nat) | Broadcasting(c: nat)

  datatype Sema = Sema(value: nat, waiters: seq<nat>)

  /** A thread's waits on conditions: begun, taken off a condition (last by thread `taker`), private
      semaphore upped, ended. */
  datatype Count = Count(began: nat, took: nat, taker: nat, upped: nat, ended: nat)

  datatype State = State(pc: map<nat, Pc>, semas: map<SemId, Sema>, holder: map<nat, nat>,
                         conds: map<nat, seq<nat>>, prior: map<nat, int>, counts: map<nat, Count>)

  function PcOf(st: State, t: nat): Pc { if t in st.pc then st.pc[t] else Idle }

  /** Locks start at 1, other semaphores at 0 unless initialised. */
  function SemaOf(st: State, s: SemId): Sema
  {
    if s in st.semas then st.semas[s] else Sema(if s.LockSem? then 1 else 0, [])
  }

  function CondOf(st: State, c: nat): seq<nat> { if c in st.conds then st.conds[c] else [] }

  function CountOf(st: State, t: nat): Count { if t in st.counts then st.counts[t] else Count(0, 0, 0, 0, 0) }

  function PriorOf(st: State, t: nat): int { if t in st.prior then st.prior[t] else 31 }

  predicate Holds(st: State, t: nat, l: nat) { l in st.holder && st.holder[l] == t }

  function SemFor(k: Purpose, t: nat): SemId
  {
    match k
    case Plain(n) => Named(n)
    case Acquire(l) => LockSem(l)
    case Await(_, _) => Private(t)
  }

  // ----- steps

  function At(st: State, t: nat, pc: Pc): State { st.(pc := st.pc[t := pc]) }

  function WithSema(st: State, s: SemId, sema: Sema): State { st.(semas := st.semas[s := sema]) }

  /** One round of the loop in sema_down: park, or take one and go on. */
  function Down(st: State, t: nat, k: Purpose): State
  {
    var s := SemFor(k, t);
    var sema := SemaOf(st, s);
    if sema.value == 0 then At(WithSema(st, s, Sema(0, sema.waiters + [t])), t, Parked(k))
    else Downed(WithSema(st, s, sema.(value := sema.value - 1)), t, k)
  }

  /** What follows a sema_down that succeeded, up to the next switch point. */
  function Downed(st: State, t: nat, k: Purpose): State
  {
    match k
    case Plain(_) => At(st, t, Idle)
    case Acquire(l) => At(st, t, Idle).(holder := st.holder[l := t])
    case Await(_, l) =>
      At(st, t, Reacquire(l)).(counts := st.counts[t := CountOf(st, t).(ended := CountOf(st, t).ended + 1)])
  }

  /** Every waiter is made ready, to test the semaphore again. */
  function Wake(pc: map<nat, Pc>, waiters: seq<nat>): map<nat, Pc>
  {
    map t | t in pc :: if t in waiters && pc[t].Parked? then Retry(pc[t].k) else pc[t]
  }

  /** sema_up. */
  function Up(st: State, s: SemId): State
  {
    var sema := SemaOf(st, s);
    WithSema(st, s, Sema(sema.value + 1, [])).(pc := Wake(st.pc, sema.waiters))
  }

  /** lock_release up to the switch point at its end. */
  function Release(st: State, l: nat): State
  {
    Up(st.(holder := st.holder - {l}), LockSem(l))
  }

  /** semaphore_elem_less: a waiter that has not parked yet is less than one that has. */
  predicate Less(st: State, a: nat, b: nat)
  {
    if SemaOf(st, Private(a)).waiters == [] then SemaOf(st, Private(b)).waiters != []
    else SemaOf(st, Private(b)).waiters != [] && PriorOf(st, a) < PriorOf(st, b)
  }

  /** list_max: the first waiter that is less than none after it. */
  function Pick(st: State, ws: seq<nat>): (i: nat)
    requires ws != []
    ensures i < |ws|
  {
    if |ws| == 1 then 0
    else
      var i := Pick(st, ws[..|ws| - 1]);
      if Less(st, ws[i], ws[|ws| - 1]) then |ws| - 1 else i
  }

  function Without(ws: seq<nat>, i: nat): (r: seq<nat>)
    requires i < |ws|
  {
    ws[..i] + ws[i + 1..]
  }

  /** Thread t takes the i-th waiter off the condition. */
  function Take(st: State, t: nat, c: nat, i: nat, all: bool): State
    requires i < |CondOf(st, c)|
  {
    var w := CondOf(st, c)[i];
    At(st, t, Taken(w, all, c)).(
      conds := st.conds[c := Without(CondOf(st, c), i)],
      counts := st.counts[w := CountOf(st, w).(took := CountOf(st, w).took + 1, taker := t)])
  }

  /** Thread t ups the private semaphore of the waiter it took. */
  function UpTaken(st: State, t: nat, w: nat, next: Pc): State
  {
    Up(At(st.(counts := st.counts[w := CountOf(st, w).(upped := CountOf(st, w).upped + 1)]), t, next), Private(w))
  }

  // ----- operations

  /** cond_signal takes off the waiter at index i.  It looks for the most urgent one with interrupts
      on; what other threads do meanwhile may change which that is, so that i is left open here.  See
      PickIsFirstMax for a search that nobody disturbs. */
  datatype Op =
    | Init(n: nat, value: nat)
    | SemaDown(n: nat) | SemaTryDown(n: nat) | SemaUp(n: nat)
    | LockAcquire(l: nat) | LockTryAcquire(l: nat) | LockRelease(l: nat)
    | CondWait(c: nat, l: nat) | CondSignal(c: nat, l: nat, i: nat) | CondBroadcast(c: nat, l: nat)
    | Prioritise(p: int)
    | Continue

  /** What the source asserts of its callers; a thread inside an operation can only go on with it,
      and a parked thread cannot run. */
  predicate Legal(st: State, t: nat, op: Op)
  {
    if op.Continue? then PcOf(st, t) != Idle && !PcOf(st, t).Parked?
    else
      PcOf(st, t) == Idle &&
      match op
      case Init(n, _) => Named(n) !in st.semas
      case LockAcquire(l) => !Holds(st, t, l)
      case LockTryAcquire(l) => !Holds(st, t, l)
      case LockRelease(l) => Holds(st, t, l)
      case CondWait(_, l) => Holds(st, t, l)
      case CondSignal(c, l, i) => Holds(st, t, l) && (CondOf(st, c) != [] ==> i < |CondOf(st, c)|)
      case CondBroadcast(_, l) => Holds(st, t, l)
      case _ => true
  }

  /** One atomic step of thread t. */
  function Step(st: State, t: nat, op: Op): State
    requires Legal(st, t, op)
  {
    match op
    case Init(n, value) => WithSema(st, Named(n), Sema(value, []))
    case SemaDown(n) => Down(st, t, Plain(n))
    case SemaTryDown(n) => if SemaOf(st, Named(n)).value > 0 then Down(st, t, Plain(n)) else st
    case SemaUp(n) => Up(st, Named(n))
    case LockAcquire(l) => Down(st, t, Acquire(l))
    case LockTryAcquire(l) => if SemaOf(st, LockSem(l)).value > 0 then Down(st, t, Acquire(l)) else st
    case LockRelease(l) => Release(st, l)
    case CondWait(c, l) => Begin(st, t, c, l)
    case CondSignal(c, _, i) => if CondOf(st, c) == [] then st else Take(st, t, c, i, false)
    case CondBroadcast(c, _) => At(st, t, Broadcasting(c))
    case Prioritise(p) => st.(prior := st.prior[t := p])
    case Continue => Resume(st, t)
  }

  /** The start of cond_wait: a private semaphore at 0, last on the condition's list. */
  function Begin(st: State, t: nat, c: nat, l: nat): State
  {
    At(WithSema(st, Private(t), Sema(0, [])), t, Pushed(c, l)).(
      conds := st.conds[c := CondOf(st, c) + [t]],
      counts := st.counts[t := CountOf(st, t).(began := CountOf(st, t).began + 1)])
  }

  function Resume(st: State, t: nat): State
  {
    match PcOf(st, t)
    case Retry(k) => Down(st, t, k)
    case Pushed(c, l) => Release(At(st, t, Released(c, l)), l)
    case Released(c, l) => Down(st, t, Await(c, l))
    case Reacquire(l) => Down(st, t, Acquire(l))
    case Taken(w, all, c) => UpTaken(st, t, w, if all then Broadcasting(c) else Idle)
    case Broadcasting(c) => if CondOf(st, c) == [] then At(st, t, Idle) else Take(st, t, c, 0, true)
    case _ => st
  }

  // ----- the invariant

  /** The lock a thread is waiting for or about to wait for. */
  function Wants(pc: Pc): Option<nat>
  {
    match pc
    case Parked(k) => if k.Plain? then None else Some(k.l)
    case Retry(k) => if k.Plain? then None else Some(k.l)
    case Released(_, l) => Some(l)
    case Reacquire(l) => Some(l)
    case _ => None
  }

  /** The condition a thread is waiting on, until its private semaphore has been downed. */
  function Awaits(pc: Pc): Option<nat>
  {
    match pc
    case Parked(k) => if k.Await? then Some(k.c) else None
    case Retry(k) => if k.Await? then Some(k.c) else None
    case Pushed(c, _) => Some(c)
    case Released(c, _) => Some(c)
    case _ => None
  }

  /** A lock's semaphore is 1 exactly when it has no holder, and 0 otherwise. */
  ghost predicate LockInv(st: State)
  {
    forall l: nat :: SemaOf(st, LockSem(l)).value == if l in st.holder then 0 else 1
  }

  /** Waiters are the parked threads, each once; nobody is parked on a positive semaphore. */
  ghost predicate ParkInv(st: State)
  {
    && (forall s: SemId :: SemaOf(st, s).value > 0 ==> SemaOf(st, s).waiters == [])
    && (forall s: SemId :: Distinct(SemaOf(st, s).waiters))
    && forall s: SemId, t: nat :: t in SemaOf(st, s).waiters <==> PcOf(st, t).Parked? && SemFor(PcOf(st, t).k, t) == s
  }

  /** Nobody waits for a lock it holds; who is about to release one inside cond_wait holds it. */
  ghost predicate HoldInv(st: State)
  {
    && (forall t: nat :: Wants(PcOf(st, t)).Some? ==> !Holds(st, t, Wants(PcOf(st, t)).value))
    && forall t: nat :: PcOf(st, t).Pushed? ==> Holds(st, t, PcOf(st, t).l)
  }

  /** A condition's list holds exactly the threads that wait on it and have not been taken off. */
  ghost predicate CondInv(st: State)
  {
    && (forall c: nat :: Distinct(CondOf(st, c)))
    && forall c: nat, t: nat :: t in CondOf(st, c) <==> Awaits(PcOf(st, t)) == Some(c) && CountOf(st, t).took < CountOf(st, t).began
  }

  /** Each wait is taken off once, upped once and ended once, in this order; the private semaphore
      holds the difference. */
  ghost predicate TallyInv(st: State)
  {
    && (forall t: nat :: var n := CountOf(st, t);
          n.ended <= n.upped <= n.took <= n.began == n.ended + (if Awaits(PcOf(st, t)).Some? then 1 else 0))
    && forall t: nat :: SemaOf(st, Private(t)).value == CountOf(st, t).upped - CountOf(st, t).ended
  }

  /** Whoever has been taken off but not upped is about to be. */
  ghost predicate TakerInv(st: State)
  {
    && (forall u: nat :: PcOf(st, u).Taken? ==>
          var n := CountOf(st, PcOf(st, u).w); n.upped < n.took && n.taker == u)
    && forall t: nat :: var n := CountOf(st, t); n.upped < n.took ==> PcOf(st, n.taker).Taken? && PcOf(st, n.taker).w == t
  }

  ghost predicate CountInv(st: State) { TallyInv(st) && TakerInv(st) }

  ghost predicate Inv(st: State)
  {
    LockInv(st) && ParkInv(st) && HoldInv(st) && CondInv(st) && CountInv(st)
  }

  // ----- every step keeps the invariant

  /** Thread t is at a point from which sema_down for purpose k may be tried. */
  predicate Entering(st: State, t: nat, k: Purpose)
  {
    var pc := PcOf(st, t);
    || pc == Retry(k)
    || (pc == Idle && (k.Plain? || (k.Acquire? && !Holds(st, t, k.l))))
    || (k.Await? && pc == Released(k.c, k.l))
    || (k.Acquire? && pc == Reacquire(k.l))
  }

  // what a step changes, seen through the observers

  ghost predicate Moves(st: State, st': State, t: nat, pc: Pc)
  {
    forall u: nat {:trigger PcOf(st', u)} :: PcOf(st', u) == if u == t then pc else PcOf(st, u)
  }

  ghost predicate Sets(st: State, st': State, s: SemId, sema: Sema)
  {
    forall r: SemId {:trigger SemaOf(st', r)} :: SemaOf(st', r) == if r == s then sema else SemaOf(st, r)
  }

  ghost predicate SameConds(st: State, st': State)
  {
    forall c: nat {:trigger CondOf(st', c)} :: CondOf(st', c) == CondOf(st, c)
  }

  ghost predicate Counts(st: State, st': State, t: nat, n: Count)
  {
    forall u: nat {:trigger CountOf(st', u)} :: CountOf(st', u) == if u == t then n else CountOf(st, u)
  }

  ghost predicate SameCounts(st: State, st': State)
  {
    forall u: nat {:trigger CountOf(st', u)} :: CountOf(st', u) == CountOf(st, u)
  }

  // ----- parking

  ghost predicate Parks(st: State, st': State, t: nat, k: Purpose)
  {
    && SemaOf(st, SemFor(k, t)).value == 0
    && Moves(st, st', t, Parked(k)) && Sets(st, st', SemFor(k, t), Sema(0, SemaOf(st, SemFor(k, t)).waiters + [t]))
    && SameConds(st, st') && SameCounts(st, st') && st'.holder == st.holder
  }

  lemma ParkEffect(st: State, t: nat, k: Purpose)
    requires SemaOf(st, SemFor(k, t)).value == 0
    ensures Parks(st, Down(st, t, k), t, k)
  {
  }

  lemma ParkKeepsLocks(st: State, st': State, t: nat, k: Purpose)
    requires LockInv(st) && HoldInv(st) && Entering(st, t, k) && Parks(st, st', t, k)
    ensures LockInv(st') && HoldInv(st')
  {
  }

  lemma ParkKeepsParked(st: State, st': State, t: nat, k: Purpose)
    requires ParkInv(st) && Entering(st, t, k) && Parks(st, st', t, k)
    ensures ParkInv(st')
  {
    assert t !in SemaOf(st, SemFor(k, t)).waiters;
  }

  lemma ParkKeepsConds(st: State, st': State, t: nat, k: Purpose)
    requires CondInv(st) && Entering(st, t, k) && Parks(st, st', t, k)
    ensures CondInv(st')
  {
  }

  lemma ParkKeepsTallies(st: State, st': State, t: nat, k: Purpose)
    requires TallyInv(st) && Entering(st, t, k) && Parks(st, st', t, k)
    ensures TallyInv(st')
  {
  }

  lemma ParkKeepsTakers(st: State, st': State, t: nat, k: Purpose)
    requires CountInv(st) && Entering(st, t, k) && Parks(st, st', t, k)
    ensures TakerInv(st')
  {
  }

  lemma ParkKeeps(st: State, t: nat, k: Purpose)
    requires Inv(st) && Entering(st, t, k) && SemaOf(st, SemFor(k, t)).value == 0
    ensures Inv(Down(st, t, k))
  {
    var st' := Down(st, t, k);
    ParkEffect(st, t, k);
    ParkKeepsLocks(st, st', t, k);
    ParkKeepsParked(st, st', t, k);
    ParkKeepsConds(st, st', t, k);
    ParkKeepsTallies(st, st', t, k);
    ParkKeepsTakers(st, st', t, k);
  }

  // ----- passing

  function PcAfter(k: Purpose): Pc { if k.Await? then Reacquire(k.l) else Idle }

  function CountAfter(n: Count, k: Purpose): Count { if k.Await? then n.(ended := n.ended + 1) else n }

  ghost predicate Passes(st: State, st': State, t: nat, k: Purpose)
  {
    var s := SemFor(k, t);
    && SemaOf(st, s).value > 0
    && Moves(st, st', t, PcAfter(k)) && Sets(st, st', s, Sema(SemaOf(st, s).value - 1, SemaOf(st, s).waiters))
    && SameConds(st, st') && Counts(st, st', t, CountAfter(CountOf(st, t), k))
    && st'.holder == if k.Acquire? then st.holder[k.l := t] else st.holder
  }

  lemma PassEffect(st: State, t: nat, k: Purpose)
    requires SemaOf(st, SemFor(k, t)).value > 0
    ensures Passes(st, Down(st, t, k), t, k)
  {
  }

  lemma PassKeepsLocks(st: State, st': State, t: nat, k: Purpose)
    requires LockInv(st) && HoldInv(st) && Entering(st, t, k) && Passes(st, st', t, k)
    ensures LockInv(st') && HoldInv(st')
  {
  }

  lemma PassKeepsParked(st: State, st': State, t: nat, k: Purpose)
    requires ParkInv(st) && Entering(st, t, k) && Passes(st, st', t, k)
    ensures ParkInv(st')
  {
  }

  lemma PassKeepsConds(st: State, st': State, t: nat, k: Purpose)
    requires CondInv(st) && CountInv(st) && Entering(st, t, k) && Passes(st, st', t, k)
    ensures CondInv(st')
  {
    if k.Await? {
      assert SemaOf(st, Private(t)).value > 0;
    }
  }

  lemma PassKeepsTallies(st: State, st': State, t: nat, k: Purpose)
    requires TallyInv(st) && Entering(st, t, k) && Passes(st, st', t, k)
    ensures TallyInv(st')
  {
  }

  lemma PassKeepsTakers(st: State, st': State, t: nat, k: Purpose)
    requires CountInv(st) && Entering(st, t, k) && Passes(st, st', t, k)
    ensures TakerInv(st')
  {
  }

  lemma PassKeeps(st: State, t: nat, k: Purpose)
    requires Inv(st) && Entering(st, t, k) && SemaOf(st, SemFor(k, t)).value > 0
    ensures Inv(Down(st, t, k))
  {
    var st' := Down(st, t, k);
    PassEffect(st, t, k);
    PassKeepsLocks(st, st', t, k);
    PassKeepsParked(st, st', t, k);
    PassKeepsConds(st, st', t, k);
    PassKeepsTallies(st, st', t, k);
    PassKeepsTakers(st, st', t, k);
  }

  // ----- upping

  ghost predicate Ups(st: State, st': State, s: SemId)
  {
    && (forall u: nat {:trigger PcOf(st', u)} :: PcOf(st', u)
          == if u in SemaOf(st, s).waiters && PcOf(st, u).Parked? then Retry(PcOf(st, u).k) else PcOf(st, u))
    && Sets(st, st', s, Sema(SemaOf(st, s).value + 1, []))
    && SameConds(st, st') && SameCounts(st, st') && st'.holder == st.holder
  }

  lemma UpEffect(st: State, s: SemId)
    ensures Ups(st, Up(st, s), s)
  {
  }

  lemma UpKeepsParked(st: State, st': State, s: SemId)
    requires ParkInv(st) && Ups(st, st', s)
    ensures ParkInv(st')
  {
  }

  lemma UpKeepsHolds(st: State, st': State, s: SemId)
    requires HoldInv(st) && Ups(st, st', s)
    ensures HoldInv(st')
  {
  }

  lemma UpKeepsConds(st: State, st': State, s: SemId)
    requires CondInv(st) && Ups(st, st', s)
    ensures CondInv(st')
  {
  }

  lemma UpKeepsCounts(st: State, st': State, s: SemId)
    requires CountInv(st) && Ups(st, st', s) && !s.Private?
    ensures CountInv(st')
  {
  }

  lemma SemaUpKeeps(st: State, n: nat)
    requires Inv(st)
    ensures Inv(Up(st, Named(n)))
  {
    var st' := Up(st, Named(n));
    UpEffect(st, Named(n));
    UpKeepsParked(st, st', Named(n));
    UpKeepsHolds(st, st', Named(n));
    UpKeepsConds(st, st', Named(n));
    UpKeepsCounts(st, st', Named(n));
    assert LockInv(st');
  }

  // ----- releasing a lock

  /** Thread t releases l, on its own account or inside cond_wait. */
  predicate Releasing(st: State, t: nat, l: nat, next: Pc)
  {
    Holds(st, t, l) && ((PcOf(st, t) == Idle && next == Idle)
                        || (PcOf(st, t).Pushed? && PcOf(st, t).l == l && next == Released(PcOf(st, t).c, l)))
  }

  ghost predicate Releases(st: State, st': State, t: nat, l: nat, next: Pc)
  {
    && (forall u: nat {:trigger PcOf(st', u)} :: PcOf(st', u)
          == if u == t then next
             else if u in SemaOf(st, LockSem(l)).waiters && PcOf(st, u).Parked? then Retry(PcOf(st, u).k) else PcOf(st, u))
    && Sets(st, st', LockSem(l), Sema(SemaOf(st, LockSem(l)).value + 1, []))
    && SameConds(st, st') && SameCounts(st, st') && st'.holder == st.holder - {l}
  }

  lemma ReleaseEffect(st: State, t: nat, l: nat, next: Pc)
    requires Releasing(st, t, l, next)
    ensures Releases(st, Release(At(st, t, next), l), t, l, next)
  {
    var st1 := At(st, t, next).(holder := st.holder - {l});
    UpEffect(st1, LockSem(l));
    assert Release(At(st, t, next), l) == Up(st1, LockSem(l));
  }

  lemma ReleaseKeepsLocks(st: State, st': State, t: nat, l: nat, next: Pc)
    requires LockInv(st) && HoldInv(st) && Releasing(st, t, l, next) && Releases(st, st', t, l, next)
    ensures LockInv(st') && HoldInv(st')
  {
  }

  lemma ReleaseKeepsParked(st: State, st': State, t: nat, l: nat, next: Pc)
    requires ParkInv(st) && Releasing(st, t, l, next) && Releases(st, st', t, l, next)
    ensures ParkInv(st')
  {
  }

  lemma ReleaseKeepsConds(st: State, st': State, t: nat, l: nat, next: Pc)
    requires CondInv(st) && Releasing(st, t, l, next) && Releases(st, st', t, l, next)
    ensures CondInv(st')
  {
  }

  lemma ReleaseKeepsTallies(st: State, st': State, t: nat, l: nat, next: Pc)
    requires TallyInv(st) && Releasing(st, t, l, next) && Releases(st, st', t, l, next)
    ensures TallyInv(st')
  {
  }

  lemma ReleaseKeepsTakers(st: State, st': State, t: nat, l: nat, next: Pc)
    requires CountInv(st) && Releasing(st, t, l, next) && Releases(st, st', t, l, next)
    ensures TakerInv(st')
  {
  }

  lemma ReleaseKeeps(st: State, t: nat, l: nat, next: Pc)
    requires Inv(st) && Releasing(st, t, l, next)
    ensures Inv(Release(At(st, t, next), l))
  {
    var st' := Release(At(st, t, next), l);
    ReleaseEffect(st, t, l, next);
    ReleaseKeepsLocks(st, st', t, l, next);
    ReleaseKeepsParked(st, st', t, l, next);
    ReleaseKeepsConds(st, st', t, l, next);
    ReleaseKeepsTallies(st, st', t, l, next);
    ReleaseKeepsTakers(st, st', t, l, next);
  }

  // ----- beginning to wait on a condition

  ghost predicate Begins(st: State, st': State, t: nat, c: nat, l: nat)
  {
    && Moves(st, st', t, Pushed(c, l)) && Sets(st, st', Private(t), Sema(0, []))
    && (forall d: nat {:trigger CondOf(st', d)} :: CondOf(st', d) == if d == c then CondOf(st, c) + [t] else CondOf(st, d))
    && Counts(st, st', t, CountOf(st, t).(began := CountOf(st, t).began + 1)) && st'.holder == st.holder
  }

  lemma BeginEffect(st: State, t: nat, c: nat, l: nat)
    ensures Begins(st, Begin(st, t, c, l), t, c, l)
  {
  }

  /** Only its own thread parks on a private semaphore. */
  lemma PrivateWaiter(st: State, t: nat)
    requires ParkInv(st)
    ensures !PcOf(st, t).Parked? ==> SemaOf(st, Private(t)).waiters == []
  {
    forall u: nat | u in SemaOf(st, Private(t)).waiters ensures PcOf(st, t).Parked? {
      assert PcOf(st, u).Parked? && SemFor(PcOf(st, u).k, u) == Private(t);
    }
    EmptyUnless(SemaOf(st, Private(t)).waiters, PcOf(st, t).Parked?);
  }

  lemma EmptyUnless(ws: seq<nat>, p: bool)
    requires forall u: nat | u in ws :: p
    ensures !p ==> ws == []
  {
    if ws != [] {
      assert ws[0] in ws;
    }
  }

  lemma BeginKeepsParked(st: State, st': State, t: nat, c: nat, l: nat)
    requires ParkInv(st) && PcOf(st, t) == Idle && Begins(st, st', t, c, l)
    ensures ParkInv(st')
  {
    PrivateWaiter(st, t);
    assert SemaOf(st, Private(t)).waiters == [];
  }

  lemma BeginKeepsConds(st: State, st': State, t: nat, c: nat, l: nat)
    requires CondInv(st) && CountInv(st) && PcOf(st, t) == Idle && Begins(st, st', t, c, l)
    ensures CondInv(st')
  {
    assert t !in CondOf(st, c);
  }

  lemma BeginKeepsTallies(st: State, st': State, t: nat, c: nat, l: nat)
    requires TallyInv(st) && PcOf(st, t) == Idle && Begins(st, st', t, c, l)
    ensures TallyInv(st')
  {
  }

  lemma BeginKeepsTakers(st: State, st': State, t: nat, c: nat, l: nat)
    requires CountInv(st) && PcOf(st, t) == Idle && Begins(st, st', t, c, l)
    ensures TakerInv(st')
  {
  }

  lemma BeginKeeps(st: State, t: nat, c: nat, l: nat)
    requires Inv(st) && PcOf(st, t) == Idle && Holds(st, t, l)
    ensures Inv(Begin(st, t, c, l))
  {
    var st' := Begin(st, t, c, l);
    BeginEffect(st, t, c, l);
    assert LockInv(st');
    assert HoldInv(st');
    BeginKeepsParked(st, st', t, c, l);
    BeginKeepsConds(st, st', t, c, l);
    BeginKeepsTallies(st, st', t, c, l);
    BeginKeepsTakers(st, st', t, c, l);
  }

  // ----- taking a waiter off a condition

  /** Thread t is at a point of cond_signal or cond_broadcast where it may take waiters off c. */
  predicate Taking(st: State, t: nat, c: nat) { PcOf(st, t) == Idle || PcOf(st, t) == Broadcasting(c) }

  ghost predicate Takes(st: State, st': State, t: nat, c: nat, i: nat, all: bool)
  {
    && i < |CondOf(st, c)|
    && var w := CondOf(st, c)[i];
    && Moves(st, st', t, Taken(w, all, c)) && st'.semas == st.semas && st'.holder == st.holder
    && (forall d: nat {:trigger CondOf(st', d)} :: CondOf(st', d) == if d == c then Without(CondOf(st, c), i) else CondOf(st, d))
    && Counts(st, st', w, CountOf(st, w).(took := CountOf(st, w).took + 1, taker := t))
  }

  lemma TakeEffect(st: State, t: nat, c: nat, i: nat, all: bool)
    requires i < |CondOf(st, c)|
    ensures Takes(st, Take(st, t, c, i, all), t, c, i, all)
  {
  }

  lemma WithoutMembers(ws: seq<nat>, i: nat)
    requires i < |ws| && Distinct(ws)
    ensures Distinct(Without(ws, i)) && forall x: nat :: x in Without(ws, i) <==> x in ws && x != ws[i]
  {
    var r := Without(ws, i);
    forall x: nat | x in ws && x != ws[i] ensures x in r {
      var j :| 0 <= j < |ws| && ws[j] == x;
      assert r[if j < i then j else j - 1] == x;
    }
  }

  lemma TakeKeepsConds(st: State, st': State, t: nat, c: nat, i: nat, all: bool)
    requires CondInv(st) && CountInv(st) && Taking(st, t, c) && Takes(st, st', t, c, i, all)
    ensures CondInv(st')
  {
    WithoutMembers(CondOf(st, c), i);
    var w := CondOf(st, c)[i];
    assert w in CondOf(st, c) && Awaits(PcOf(st, w)) == Some(c);
    forall d: nat, u: nat
      ensures u in CondOf(st', d) <==> Awaits(PcOf(st', u)) == Some(d) && CountOf(st', u).took < CountOf(st', u).began
    {
      assert u in CondOf(st, d) <==> Awaits(PcOf(st, u)) == Some(d) && CountOf(st, u).took < CountOf(st, u).began;
      if u == w { TookLast(st, w); }
    }
  }

  lemma TookLast(st: State, w: nat)
    requires CountInv(st) && CountOf(st, w).took < CountOf(st, w).began
    ensures CountOf(st, w).took + 1 == CountOf(st, w).began
  {
  }

  lemma TakeKeepsTallies(st: State, st': State, t: nat, c: nat, i: nat, all: bool)
    requires CondInv(st) && TallyInv(st) && Taking(st, t, c) && Takes(st, st', t, c, i, all)
    ensures TallyInv(st')
  {
    var w := CondOf(st, c)[i];
    assert w in CondOf(st, c) && Awaits(PcOf(st, w)) == Some(c);
    assert forall s: SemId :: SemaOf(st', s) == SemaOf(st, s);
  }

  lemma TakeKeepsTakers(st: State, st': State, t: nat, c: nat, i: nat, all: bool)
    requires CondInv(st) && CountInv(st) && Taking(st, t, c) && Takes(st, st', t, c, i, all)
    ensures TakerInv(st')
  {
    var w := CondOf(st, c)[i];
    assert w in CondOf(st, c) && Awaits(PcOf(st, w)) == Some(c);
    assert forall s: SemId :: SemaOf(st', s) == SemaOf(st, s);
  }

  /** A step that moves a thread that neither is nor becomes parked, and touches no semaphore. */
  lemma MoveKeepsSemas(st: State, st': State, t: nat, pc: Pc)
    requires LockInv(st) && ParkInv(st) && HoldInv(st) && Moves(st, st', t, pc)
    requires st'.semas == st.semas && st'.holder == st.holder
    requires !PcOf(st, t).Parked? && !pc.Parked? && !pc.Pushed? && Wants(pc).None?
    ensures LockInv(st') && ParkInv(st') && HoldInv(st')
  {
    assert forall s: SemId :: SemaOf(st', s) == SemaOf(st, s);
    MoveKeepsParked(st, st', t, pc);
  }

  lemma MoveKeepsParked(st: State, st': State, t: nat, pc: Pc)
    requires ParkInv(st) && Moves(st, st', t, pc) && !PcOf(st, t).Parked? && !pc.Parked?
    requires forall s: SemId :: SemaOf(st', s) == SemaOf(st, s)
    ensures ParkInv(st')
  {
  }

  lemma TakeKeeps(st: State, t: nat, c: nat, i: nat, all: bool)
    requires Inv(st) && Taking(st, t, c) && i < |CondOf(st, c)|
    ensures Inv(Take(st, t, c, i, all))
  {
    var st' := Take(st, t, c, i, all);
    TakeEffect(st, t, c, i, all);
    MoveKeepsSemas(st, st', t, PcOf(st', t));
    TakeKeepsConds(st, st', t, c, i, all);
    TakeKeepsTallies(st, st', t, c, i, all);
    TakeKeepsTakers(st, st', t, c, i, all);
  }

  // ----- upping the waiter that was taken

  predicate Upping(st: State, t: nat, w: nat, next: Pc)
  {
    PcOf(st, t).Taken? && PcOf(st, t).w == w && (next.Idle? || next.Broadcasting?)
  }

  ghost predicate UpsTaken(st: State, st': State, t: nat, w: nat, next: Pc)
  {
    && (forall u: nat {:trigger PcOf(st', u)} :: PcOf(st', u)
          == if u == t then next
             else if u in SemaOf(st, Private(w)).waiters && PcOf(st, u).Parked? then Retry(PcOf(st, u).k) else PcOf(st, u))
    && Sets(st, st', Private(w), Sema(SemaOf(st, Private(w)).value + 1, []))
    && SameConds(st, st') && st'.holder == st.holder
    && Counts(st, st', w, CountOf(st, w).(upped := CountOf(st, w).upped + 1))
  }

  lemma UpTakenEffect(st: State, t: nat, w: nat, next: Pc)
    requires Upping(st, t, w, next)
    ensures UpsTaken(st, UpTaken(st, t, w, next), t, w, next)
  {
    var st1 := At(st.(counts := st.counts[w := CountOf(st, w).(upped := CountOf(st, w).upped + 1)]), t, next);
    UpEffect(st1, Private(w));
    assert UpTaken(st, t, w, next) == Up(st1, Private(w));
  }

  lemma UpTakenKeepsParked(st: State, st': State, t: nat, w: nat, next: Pc)
    requires ParkInv(st) && Upping(st, t, w, next) && UpsTaken(st, st', t, w, next)
    ensures ParkInv(st')
  {
  }

  lemma UpTakenKeepsConds(st: State, st': State, t: nat, w: nat, next: Pc)
    requires CondInv(st) && Upping(st, t, w, next) && UpsTaken(st, st', t, w, next)
    ensures CondInv(st')
  {
  }

  lemma UpTakenKeepsTallies(st: State, st': State, t: nat, w: nat, next: Pc)
    requires CountInv(st) && Upping(st, t, w, next) && UpsTaken(st, st', t, w, next)
    ensures TallyInv(st')
  {
  }

  lemma UpTakenKeepsTakers(st: State, st': State, t: nat, w: nat, next: Pc)
    requires CountInv(st) && Upping(st, t, w, next) && UpsTaken(st, st', t, w, next)
    ensures TakerInv(st')
  {
  }

  lemma UpTakenKeepsLocks(st: State, st': State, t: nat, w: nat, next: Pc)
    requires LockInv(st) && HoldInv(st) && Upping(st, t, w, next) && UpsTaken(st, st', t, w, next)
    ensures LockInv(st') && HoldInv(st')
  {
  }

  lemma UpTakenKeeps(st: State, t: nat, w: nat, next: Pc)
    requires Inv(st) && Upping(st, t, w, next)
    ensures Inv(UpTaken(st, t, w, next))
  {
    var st' := UpTaken(st, t, w, next);
    UpTakenEffect(st, t, w, next);
    UpTakenKeepsLocks(st, st', t, w, next);
    UpTakenKeepsParked(st, st', t, w, next);
    UpTakenKeepsConds(st, st', t, w, next);
    UpTakenKeepsTallies(st, st', t, w, next);
    UpTakenKeepsTakers(st, st', t, w, next);
  }

  // ----- runs

  lemma DownKeeps(st: State, t: nat, k: Purpose)
    requires Inv(st) && Entering(st, t, k)
    ensures Inv(Down(st, t, k))
  {
    if SemaOf(st, SemFor(k, t)).value == 0 {
      ParkKeeps(st, t, k);
    } else {
      PassKeeps(st, t, k);
    }
  }

  lemma InitKeeps(st: State, n: nat, value: nat)
    requires Inv(st) && Named(n) !in st.semas
    ensures Inv(WithSema(st, Named(n), Sema(value, [])))
  {
    var st' := WithSema(st, Named(n), Sema(value, []));
    assert SemaOf(st, Named(n)) == Sema(0, []);
    assert Sets(st, st', Named(n), Sema(value, []));
    SameElsewhere(st, st');
    InitKeepsParked(st, st', n, value);
    assert LockInv(st');
    assert CountInv(st');
  }

  lemma InitKeepsParked(st: State, st': State, n: nat, value: nat)
    requires ParkInv(st) && SemaOf(st, Named(n)) == Sema(0, []) && Sets(st, st', Named(n), Sema(value, []))
    requires forall u: nat :: PcOf(st', u) == PcOf(st, u)
    ensures ParkInv(st')
  {
    forall s: SemId, t: nat ensures t in SemaOf(st', s).waiters <==> PcOf(st', t).Parked? && SemFor(PcOf(st', t).k, t) == s {
      assert t in SemaOf(st, s).waiters <==> PcOf(st, t).Parked? && SemFor(PcOf(st, t).k, t) == s;
    }
  }

  lemma SameElsewhere(st: State, st': State)
    requires st'.pc == st.pc && st'.conds == st.conds && st'.counts == st.counts && st'.holder == st.holder
    requires CondInv(st) && HoldInv(st)
    ensures CondInv(st') && HoldInv(st') && SameConds(st, st') && SameCounts(st, st')
    ensures forall u: nat :: PcOf(st', u) == PcOf(st, u)
  {
    assert SameConds(st, st') && SameCounts(st, st');
    assert forall u: nat :: PcOf(st', u) == PcOf(st, u);
  }

  /** A step of cond_broadcast that only moves its thread. */
  lemma MoveKeeps(st: State, t: nat, pc: Pc)
    requires Inv(st) && (PcOf(st, t).Idle? || PcOf(st, t).Broadcasting?) && (pc.Idle? || pc.Broadcasting?)
    ensures Inv(At(st, t, pc))
  {
    var st' := At(st, t, pc);
    assert Moves(st, st', t, pc) && SameConds(st, st') && SameCounts(st, st');
    assert forall s: SemId :: SemaOf(st', s) == SemaOf(st, s);
    MoveKeepsSemas(st, st', t, pc);
    MoveKeepsConds(st, st', t, pc);
    MoveKeepsTallies(st, st', t, pc);
    MoveKeepsTakers(st, st', t, pc);
  }

  lemma MoveKeepsConds(st: State, st': State, t: nat, pc: Pc)
    requires CondInv(st) && (PcOf(st, t).Idle? || PcOf(st, t).Broadcasting?) && (pc.Idle? || pc.Broadcasting?)
    requires Moves(st, st', t, pc) && SameConds(st, st') && SameCounts(st, st')
    ensures CondInv(st')
  {
  }

  lemma MoveKeepsTallies(st: State, st': State, t: nat, pc: Pc)
    requires TallyInv(st) && (PcOf(st, t).Idle? || PcOf(st, t).Broadcasting?) && (pc.Idle? || pc.Broadcasting?)
    requires Moves(st, st', t, pc) && SameCounts(st, st') && forall s: SemId :: SemaOf(st', s) == SemaOf(st, s)
    ensures TallyInv(st')
  {
  }

  lemma MoveKeepsTakers(st: State, st': State, t: nat, pc: Pc)
    requires CountInv(st) && (PcOf(st, t).Idle? || PcOf(st, t).Broadcasting?) && (pc.Idle? || pc.Broadcasting?)
    requires Moves(st, st', t, pc) && SameCounts(st, st') && forall s: SemId :: SemaOf(st', s) == SemaOf(st, s)
    ensures TakerInv(st')
  {
  }

  lemma PrioritiseKeeps(st: State, prior: map<nat, int>)
    requires Inv(st)
    ensures Inv(st.(prior := prior))
  {
    var st' := st.(prior := prior);
    assert forall u: nat :: PcOf(st', u) == PcOf(st, u) && CountOf(st', u) == CountOf(st, u);
    assert forall s: SemId :: SemaOf(st', s) == SemaOf(st, s);
    PriorityUnseen(st, st');
    PriorityUncounted(st, st');
  }

  lemma PriorityUnseen(st: State, st': State)
    requires LockInv(st) && ParkInv(st) && HoldInv(st) && st'.holder == st.holder
    requires (forall u: nat :: PcOf(st', u) == PcOf(st, u)) && forall s: SemId :: SemaOf(st', s) == SemaOf(st, s)
    ensures LockInv(st') && ParkInv(st') && HoldInv(st')
  {
    forall s: SemId, t: nat ensures t in SemaOf(st', s).waiters <==> PcOf(st', t).Parked? && SemFor(PcOf(st', t).k, t) == s {
      assert t in SemaOf(st, s).waiters <==> PcOf(st, t).Parked? && SemFor(PcOf(st, t).k, t) == s;
    }
  }

  lemma PriorityUncounted(st: State, st': State)
    requires CondInv(st) && CountInv(st) && st'.conds == st.conds
    requires forall u: nat :: PcOf(st', u) == PcOf(st, u) && CountOf(st', u) == CountOf(st, u)
    requires forall s: SemId :: SemaOf(st', s) == SemaOf(st, s)
    ensures CondInv(st') && CountInv(st')
  {
    assert forall c: nat :: CondOf(st', c) == CondOf(st, c);
  }

  lemma ResumeKeeps(st: State, t: nat)
    requires Inv(st) && PcOf(st, t) != Idle && !PcOf(st, t).Parked?
    ensures Inv(Resume(st, t))
  {
    match PcOf(st, t)
    case Retry(k) => DownKeeps(st, t, k);
    case Pushed(c, l) => ReleaseKeeps(st, t, l, Released(c, l));
    case Released(c, l) => DownKeeps(st, t, Await(c, l));
    case Reacquire(l) => DownKeeps(st, t, Acquire(l));
    case Taken(w, all, c) => UpTakenKeeps(st, t, w, if all then Broadcasting(c) else Idle);
    case Broadcasting(c) =>
      if CondOf(st, c) == [] { MoveKeeps(st, t, Idle); } else { TakeKeeps(st, t, c, 0, true); }
  }

  /** Releasing from Idle to Idle is the release itself. */
  lemma IdleRelease(st: State, t: nat, l: nat)
    requires Inv(st) && PcOf(st, t) == Idle && Holds(st, t, l)
    ensures Inv(Release(st, l))
  {
    if t in st.pc {
      assert st.pc[t := Idle] == st.pc;
      assert At(st, t, Idle) == st;
      ReleaseKeeps(st, t, l, Idle);
    } else {
      var st' := Release(st, l);
      var st1 := st.(holder := st.holder - {l});
      UpEffect(st1, LockSem(l));
      assert Releases(st, st', t, l, Idle);
      ReleaseKeepsLocks(st, st', t, l, Idle);
      ReleaseKeepsParked(st, st', t, l, Idle);
      ReleaseKeepsConds(st, st', t, l, Idle);
      ReleaseKeepsTallies(st, st', t, l, Idle);
      ReleaseKeepsTakers(st, st', t, l, Idle);
    }
  }

  lemma StepKeeps(st: State, t: nat, op: Op)
    requires Inv(st) && Legal(st, t, op)
    ensures Inv(Step(st, t, op))
  {
    match op
    case Init(n, value) => InitKeeps(st, n, value);
    case SemaDown(n) => DownKeeps(st, t, Plain(n));
    case SemaTryDown(n) => if SemaOf(st, Named(n)).value > 0 { DownKeeps(st, t, Plain(n)); }
    case SemaUp(n) => SemaUpKeeps(st, n);
    case LockAcquire(l) => DownKeeps(st, t, Acquire(l));
    case LockTryAcquire(l) => if SemaOf(st, LockSem(l)).value > 0 { DownKeeps(st, t, Acquire(l)); }
    case LockRelease(l) => IdleRelease(st, t, l);
    case CondWait(c, l) => BeginKeeps(st, t, c, l);
    case CondSignal(c, _, i) => if CondOf(st, c) != [] { TakeKeeps(st, t, c, i, false); }
    case CondBroadcast(c, _) => MoveKeeps(st, t, Broadcasting(c));
    case Prioritise(p) => PrioritiseKeeps(st, st.prior[t := p]);
    case Continue => ResumeKeeps(st, t);
  }

  const Boot := State(map[], map[], map[], map[], map[], map[])

  lemma BootInv()
    ensures Inv(Boot)
  {
  }

  /** A run: which thread takes which step, in any order the scheduler may choose. */
  ghost predicate LegalRun(st: State, run: seq<(nat, Op)>)
    decreases |run|
  {
    run == [] || (Legal(st, run[0].0, run[0].1) && LegalRun(Step(st, run[0].0, run[0].1), run[1..]))
  }

  ghost function Run(st: State, run: seq<(nat, Op)>): State
    requires LegalRun(st, run)
    decreases |run|
  {
    if run == [] then st else Run(Step(st, run[0].0, run[0].1), run[1..])
  }

  /** Every interleaving of the operations keeps the invariant at every switch point. */
  lemma {:induction false} RunKeeps(st: State, run: seq<(nat, Op)>)
    requires Inv(st) && LegalRun(st, run)
    ensures Inv(Run(st, run))
    decreases |run|
  {
    if run != [] {
      StepKeeps(st, run[0].0, run[0].1);
      RunKeeps(Step(st, run[0].0, run[0].1), run[1..]);
    }
  }

  // ----- what the invariant means for users

  /** At every switch point of every run: a lock has no holder exactly when its semaphore is 1, a
      thread parked on a semaphore finds it 0, and every waiter that was taken off a condition has
      been upped, but for those a signaller is just about to up. */
  lemma SwitchPoints(run: seq<(nat, Op)>)
    requires LegalRun(Boot, run)
    ensures var st := Run(Boot, run);
      && (forall l: nat :: l !in st.holder <==> SemaOf(st, LockSem(l)).value == 1)
      && (forall t: nat :: PcOf(st, t).Parked? ==> SemaOf(st, SemFor(PcOf(st, t).k, t)).value == 0)
      && (forall t: nat :: CountOf(st, t).took == CountOf(st, t).upped
            + if exists u: nat :: PcOf(st, u).Taken? && PcOf(st, u).w == t then 1 else 0)
  {
    BootInv();
    RunKeeps(Boot, run);
    var st := Run(Boot, run);
    forall t: nat ensures CountOf(st, t).took == CountOf(st, t).upped
            + if exists u: nat :: PcOf(st, u).Taken? && PcOf(st, u).w == t then 1 else 0
    {
      var n := CountOf(st, t);
      assert n.ended <= n.upped && n.began <= n.ended + 1;
      if n.upped < n.took {
        assert PcOf(st, n.taker).Taken? && PcOf(st, n.taker).w == t;
      }
    }
  }

  /** A waiter that is signalled after it released the lock but before it slept does not sleep. */
  lemma SignalBeforeSleep(st: State, t: nat)
    requires Inv(st) && PcOf(st, t).Released? && CountOf(st, t).upped == CountOf(st, t).began
    ensures PcOf(Step(st, t, Continue), t) == Reacquire(PcOf(st, t).l)
  {
    assert Awaits(PcOf(st, t)).Some?;
    PassEffect(st, t, Await(PcOf(st, t).c, PcOf(st, t).l));
  }

  /** cond_wait returns from its sleep only after its own signal: one up for each wait that ended. */
  lemma NoSpuriousReturn(st: State, t: nat)
    requires Inv(st) && PcOf(st, t).Retry? && PcOf(st, t).k.Await? && SemaOf(st, Private(t)).value > 0
    ensures CountOf(st, t).upped == CountOf(st, t).began && CountOf(st, t).took == CountOf(st, t).began
  {
    assert Awaits(PcOf(st, t)).Some?;
  }

  /** The signalled waiter is the first of those that no waiter after it beats: a parked thread of
      the highest priority, if one is parked. */
  lemma {:induction false} PickIsFirstMax(st: State, ws: seq<nat>)
    requires ws != []
    ensures var i := Pick(st, ws);
      && (forall j | 0 <= j < |ws| :: !Less(st, ws[i], ws[j]))
      && (forall j | 0 <= j < i :: Less(st, ws[j], ws[i]))
  {
    if |ws| > 1 {
      PickIsFirstMax(st, ws[..|ws| - 1]);
    }
  }
}
