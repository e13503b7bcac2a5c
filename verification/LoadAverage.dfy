/** The fixed-point recurrences of the multi-level feedback queue scheduler: how far the load
    average strays from the exact rational one, and how large recent_cpu can grow
    (Project2/src/threads/fixed_point.h, Project2/src/threads/thread.c). */
module LoadAverage {
  import opened Nonlinear

  /** 1.0 in 17.14 fixed point. */
  const F: int := 16384

  // ----- the macros

  /** The C operator "/" on integers: it truncates toward zero. */
  function Quot(a: int, b: int): (q: int)
    requires b > 0
    ensures a >= 0 ==> q == a / b
    ensures a < 0 ==> q == -((-a) / b)
  {
    if a >= 0 then a / b else -((-a) / b)
  }

  function FixedMul(a: int, b: int): int { Quot(a * b, F) }

  function FixedDiv(a: int, b: int): int
    requires b > 0
  {
    Quot(a * F, b)
  }

  function RoundToInt(f: int): int { Quot(f + (if f > 0 then F / 2 else -F / 2), F) }

  // ----- load average

  const FIFTY_NINE_SIXTIETHS: int := Quot(59 * F, 60)
  const ONE_SIXTIETH: int := Quot(F, 60)

  function NextLoad(load: int, cnt: int): (next: int)
    ensures load >= 0 && cnt >= 0 ==> next >= 0
  {
    FixedMul(FIFTY_NINE_SIXTIETHS, load) + ONE_SIXTIETH * cnt
  }

  /** The exact recurrence, in the same units of 2^-14. */
  function NextExact(exact: real, cnt: int): real
  {
    exact * 59.0 / 60.0 + (F * cnt) as real / 60.0
  }

  /** Close(load, exact, n): load is the value of load_avg, exact that of the exact recurrence. */
  predicate Close(load: int, exact: real, n: nat)
  {
    0 <= load <= F * n && 0.0 <= exact - load as real <= (60 * (n + 1)) as real
  }

  lemma LoadStepRange(load: int, cnt: int, n: nat)
    requires 0 <= load <= F * n && 0 <= cnt <= n
    ensures 0 <= NextLoad(load, cnt) <= F * n
    ensures 16384 * NextLoad(load, cnt) <= 16110 * load + 16384 * 273 * cnt < 16384 * NextLoad(load, cnt) + 16384
  {
    assert FIFTY_NINE_SIXTIETHS == 16110 && ONE_SIXTIETH == 273;
  }

  lemma LoadStepClose(load: int, exact: real, cnt: int, n: nat)
    requires Close(load, exact, n) && 0 <= cnt <= n
    ensures Close(NextLoad(load, cnt), NextExact(exact, cnt), n)
  {
    LoadStepRange(load, cnt, n);
    var next := NextLoad(load, cnt);
    var gap := exact - load as real;
    // sixty times the new gap, from the old one
    assert 60.0 * (NextExact(exact, cnt) - next as real) == 59.0 * gap + (59 * load + F * cnt - 60 * next) as real;
    assert 0 <= 59 * load + F * cnt - 60 * next <= 60 * (n + 1);
  }

  /** load_avg after updates that counted `counts` runnable threads. */
  function LoadAfter(counts: seq<int>): int
  {
    if counts == [] then 0 else NextLoad(LoadAfter(counts[..|counts| - 1]), counts[|counts| - 1])
  }

  function ExactAfter(counts: seq<int>): real
  {
    if counts == [] then 0.0 else NextExact(ExactAfter(counts[..|counts| - 1]), counts[|counts| - 1])
  }

  /** However long the system runs with at most n runnable threads, load_avg stays in [0, n] and
      trails the exact value by at most 60 (n + 1) units of 2^-14. */
  lemma {:induction false} LoadStaysClose(counts: seq<int>, n: nat)
    requires forall i | 0 <= i < |counts| :: 0 <= counts[i] <= n
    ensures Close(LoadAfter(counts), ExactAfter(counts), n)
  {
    if counts != [] {
      LoadStaysClose(counts[..|counts| - 1], n);
      LoadStepClose(LoadAfter(counts[..|counts| - 1]), ExactAfter(counts[..|counts| - 1]), counts[|counts| - 1], n);
    }
  }

  // ----- recent_cpu

  /** 2 load / (2 load + 1). */
  function Decay(load: int): int
    requires load >= 0
  {
    FixedDiv(load * 2, load * 2 + F)
  }

  function NextRecent(load: int, recent: int, nice: int): int
    requires load >= 0
  {
    FixedMul(Decay(load), recent) + nice * F
  }

  /** Bounds on recent_cpu `age` ticks after the last once-a-second update. */
  predicate RecentInRange(recent: int, n: nat, age: int)
  {
    -F * (40 * n + 20) <= recent <= F * (240 * n + 20 + age)
  }

  /** The decay factor is in [0, 1), and at most 2 n / (2 n + 1) when the load is at most n. */
  lemma DecayRange(load: int, n: nat)
    requires 0 <= load <= F * n
    ensures 0 <= Decay(load) < F && (2 * n + 1) * Decay(load) <= 2 * n * F
  {
    var c := Decay(load);
    DecayIsQuotient(load, c, load * 2 + F);
    Undecayed(load, c);
    MulLe(2 * load, F * (2 * n), F - c);
    assert (F - c) * (F * (2 * n)) == F * ((F - c) * (2 * n)) by { MulAssoc(F - c, F, 2 * n); }
    Rearranged(c, n);
  }

  lemma Undecayed(load: int, c: int)
    requires load >= 0 && 0 <= c && c * (load * 2 + F) <= 2 * load * F
    ensures c < F && (F - c) * (2 * load) >= c * F
  {
    MulAdd(c, load * 2, F);
    MulAdd(2 * load, F, -c);
    MulComm(c, 2 * load);
    MulLe(F, c, 2 * load);
  }

  lemma Rearranged(c: int, n: nat)
    ensures (F - c) * (2 * n) == 2 * n * F - c * (2 * n) && (2 * n + 1) * c == c * (2 * n) + c
  {
    MulAdd(2 * n, F, -c);
    MulAdd(c, 2 * n, 1);
  }

  lemma DecayIsQuotient(load: int, c: int, d: int)
    requires load >= 0 && c == Decay(load) && d == load * 2 + F
    ensures 0 <= c && c * d <= 2 * load * F
  {
    var a := load * 2 * F;
    assert c == a / d;
    assert a == d * (a / d) + a % d;
    MulComm(c, d);
  }

  /** The once-a-second update, made at most a hundred ticks after the last. */
  lemma RecentStep(load: int, recent: int, nice: int, n: nat)
    requires 0 <= load <= F * n && -20 <= nice <= 20 && RecentInRange(recent, n, 100)
    ensures RecentInRange(NextRecent(load, recent, nice), n, 0)
  {
    DecayRange(load, n);
    var c := Decay(load);
    if recent >= 0 {
      DecayedAbove(c, recent, n);
    } else {
      DecayedBelow(c, -recent, n);
      MulAdd(c, recent, -recent);
    }
  }

  /** F (240 n + 120) decays to at most 240 n. */
  lemma DecayedAbove(c: int, recent: nat, n: nat)
    requires 0 <= c && (2 * n + 1) * c <= 2 * n * F && recent <= F * (240 * n + 120)
    ensures 0 <= c * recent / F <= F * (240 * n)
  {
    MulLe(recent, F * (120 * (2 * n + 1)), c);
    assert c * (F * (120 * (2 * n + 1))) == F * (120 * ((2 * n + 1) * c)) by {
      MulAssoc(c, F * 120, 2 * n + 1);
      MulComm(c, 2 * n + 1);
    }
    assert F * (120 * ((2 * n + 1) * c)) <= F * (120 * (2 * n * F));
    assert 120 * (2 * n * F) == F * (240 * n);
    assert 0 <= c * recent by { MulLe(0, c, recent); }
    DivCompare(c * recent, F, F * (240 * n) + 1);
  }

  lemma DecayedBelow(c: int, recent: nat, n: nat)
    requires 0 <= c && (2 * n + 1) * c <= 2 * n * F && recent <= F * (40 * n + 20)
    ensures 0 <= c * recent / F <= F * (40 * n)
  {
    MulLe(recent, F * (20 * (2 * n + 1)), c);
    assert c * (F * (20 * (2 * n + 1))) == F * (20 * ((2 * n + 1) * c)) by {
      MulAssoc(c, F * 20, 2 * n + 1);
      MulComm(c, 2 * n + 1);
    }
    assert F * (20 * ((2 * n + 1) * c)) <= F * (20 * (2 * n * F));
    assert 20 * (2 * n * F) == F * (40 * n);
    assert 0 <= c * recent by { MulLe(0, c, recent); }
    DivCompare(c * recent, F, F * (40 * n) + 1);
  }

  // ----- the scheduler's numbers over a run

  const TIMER_FREQ: int := 100
  const INT_MAX: int := 0x7fff_ffff
  const INT_MIN: int := -0x8000_0000

  /** One timer interrupt as one thread sees it: how many threads are runnable, whether the thread
      is the one running, and its nice value. */
  datatype Interrupt = Interrupt(cnt: nat, running: bool, nice: int)

  /** Timer ticks, load_avg, the exact load average, and one thread's recent_cpu. */
  datatype Numbers = Numbers(ticks: nat, load: int, exact: real, recent: int)

  function Charged(recent: int, running: bool): int { if running then recent + F else recent }

  function AfterTick(s: Numbers, e: Interrupt): Numbers
    requires s.load >= 0
  {
    var ticks, recent := s.ticks + 1, Charged(s.recent, e.running);
    if ticks % TIMER_FREQ != 0 then Numbers(ticks, s.load, s.exact, recent)
    else
      var load := NextLoad(s.load, e.cnt);
      Numbers(ticks, load, NextExact(s.exact, e.cnt), NextRecent(load, recent, e.nice))
  }

  predicate Calm(e: Interrupt, n: nat) { e.cnt <= n && -20 <= e.nice <= 20 }

  /** What every run keeps, with at most n runnable threads and nice values in -20..20. */
  predicate InBounds(s: Numbers, n: nat)
  {
    Close(s.load, s.exact, n) && RecentInRange(s.recent, n, s.ticks % TIMER_FREQ)
  }

  lemma TickKeepsBounds(s: Numbers, e: Interrupt, n: nat)
    requires InBounds(s, n) && Calm(e, n)
    ensures InBounds(AfterTick(s, e), n)
    ensures (s.ticks + 1) % TIMER_FREQ == 0 ==> AfterTick(s, e).load == NextLoad(s.load, e.cnt)
  {
    var recent := Charged(s.recent, e.running);
    if (s.ticks + 1) % TIMER_FREQ == 0 {
      LoadStepClose(s.load, s.exact, e.cnt, n);
      RecentStep(NextLoad(s.load, e.cnt), recent, e.nice, n);
    }
  }

  function Run(s: Numbers, es: seq<Interrupt>, n: nat): Numbers
    requires InBounds(s, n) && forall i | 0 <= i < |es| :: Calm(es[i], n)
    decreases |es|
  {
    if es == [] then s else TickKeepsBounds(s, es[0], n); Run(AfterTick(s, es[0]), es[1..], n)
  }

  /** In every run from boot: load_avg in [0, n] and close to exact, recent_cpu at most 240 n + 120
      and at least -(40 n + 20). */
  lemma {:induction false} RunKeepsBounds(s: Numbers, es: seq<Interrupt>, n: nat)
    requires InBounds(s, n) && forall i | 0 <= i < |es| :: Calm(es[i], n)
    ensures InBounds(Run(s, es, n), n)
    ensures -F * (40 * n + 20) <= Run(s, es, n).recent <= F * (240 * n + 120)
    decreases |es|
  {
    if es != [] {
      TickKeepsBounds(s, es[0], n);
      RunKeepsBounds(AfterTick(s, es[0]), es[1..], n);
    }
  }

  predicate IsInt(x: int) { INT_MIN <= x <= INT_MAX }

  /** Every int that the update of recent_cpu computes: twice the load, that plus one, the decay
      factor, the product, nice, and the sum. */
  predicate RecentFits(load: int, recent: int, nice: int)
    requires load >= 0
  {
    && IsInt(load * 2) && IsInt(load * 2 + F) && IsInt(Decay(load)) && IsInt(FixedMul(Decay(load), recent))
    && IsInt(nice) && IsInt(nice * F) && IsInt(NextRecent(load, recent, nice))
  }

  /** Every int that the update of load_avg computes. */
  predicate LoadFits(load: int, cnt: int)
  {
    IsInt(FixedMul(FIFTY_NINE_SIXTIETHS, load)) && IsInt(ONE_SIXTIETH * cnt) && IsInt(NextLoad(load, cnt))
  }

  /** With at most 500 runnable threads no update overflows an int. */
  lemma NoOverflow(s: Numbers, e: Interrupt, n: nat)
    requires InBounds(s, n) && Calm(e, n) && n <= 500
    ensures IsInt(s.recent + F)
    ensures (s.ticks + 1) % TIMER_FREQ == 0 ==>
      LoadFits(s.load, e.cnt) && RecentFits(NextLoad(s.load, e.cnt), Charged(s.recent, e.running), e.nice)
  {
    if (s.ticks + 1) % TIMER_FREQ == 0 {
      LoadStepRange(s.load, e.cnt, n);
      DecayRange(NextLoad(s.load, e.cnt), n);
      RecentStep(NextLoad(s.load, e.cnt), Charged(s.recent, e.running), e.nice, n);
    }
  }
}
