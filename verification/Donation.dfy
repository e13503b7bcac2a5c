/** Priority donation along chains of blocked threads (Project2/src/threads/thread.c,
    Project2/src/threads/synch.c). */
module Donation {
  /** Where a thread waits: nowhere, for the holder of a lock, or for a lock that nobody holds. */
  datatype Edge = Free | HeldBy(holder: nat) | NoHolder

  /** Donated priorities, and the wait-for graph. */
  datatype Graph = Graph(prior: map<nat, int>, waits: map<nat, Edge>)

  ghost predicate WellFormed(g: Graph)
  {
    g.prior.Keys == g.waits.Keys && forall x | x in g.waits && g.waits[x].HeldBy? :: g.waits[x].holder in g.waits
  }

  /** Every holder is at least as urgent as each thread that waits for it. */
  ghost predicate Donated(g: Graph)
    requires WellFormed(g)
  {
    forall x | x in g.waits && g.waits[x].HeldBy? :: g.prior[g.waits[x].holder] >= g.prior[x]
  }

  /** The same, but for threads of at most priority p that wait for t. */
  ghost predicate DonatedBut(g: Graph, t: nat, p: int)
    requires WellFormed(g)
  {
    forall x | x in g.waits && g.waits[x].HeldBy? ::
      g.prior[g.waits[x].holder] >= g.prior[x] || (g.waits[x].holder == t && g.prior[x] <= p)
  }

  ghost function Below(g: Graph, p: int): set<nat>
  {
    set x | x in g.prior && g.prior[x] < p
  }

  datatype Outcome = Done(g: Graph) | Panic

  /** thread_donate: raise t to p and pass p on to whoever t waits for, unless t has it already.  It
      ends on every graph, cycles included: fewer threads are below p each time. */
  ghost function Donate(g: Graph, t: nat, p: int): (r: Outcome)
    requires WellFormed(g) && t in g.prior
    decreases |Below(g, p)|
  {
    if g.prior[t] >= p then Done(g)
    else
      var g' := g.(prior := g.prior[t := p]);
      assert Below(g', p) == Below(g, p) - {t};
      match g.waits[t]
      case Free => Done(g')
      case NoHolder => Panic
      case HeldBy(h) => Donate(g', h, p)
  }

  // ----- the donation invariant

  /** Although it stops early, a donation that does not panic leaves every holder donated to. */
  lemma {:induction false} DonateRestores(g: Graph, t: nat, p: int)
    requires WellFormed(g) && t in g.prior && DonatedBut(g, t, p)
    ensures var r := Donate(g, t, p);
      r.Done? ==> WellFormed(r.g) && r.g.waits == g.waits && Donated(r.g)
    decreases |Below(g, p)|
  {
    if g.prior[t] < p {
      var g' := g.(prior := g.prior[t := p]);
      assert Below(g', p) == Below(g, p) - {t};
      if g.waits[t].HeldBy? {
        DonateRestores(g', g.waits[t].holder, p);
      }
    }
  }

  // ----- which threads are raised, and when it panics

  /** A chain of threads below p, each waiting for the next. */
  ghost predicate Chain(g: Graph, path: seq<nat>, t: nat, p: int)
  {
    && path != [] && path[0] == t
    && (forall i | 0 <= i < |path| :: path[i] in g.prior && path[i] in g.waits && g.prior[path[i]] < p)
    && forall i | 0 <= i < |path| - 1 :: g.waits[path[i]] == HeldBy(path[i + 1])
  }

  ghost predicate Reaches(g: Graph, t: nat, p: int, x: nat)
  {
    exists path :: Chain(g, path, t, p) && path[|path| - 1] == x
  }

  /** Raising t cuts every chain through t: what is reachable is t, and what its holder reaches. */
  lemma ReachesStep(g: Graph, t: nat, p: int, x: nat)
    requires WellFormed(g) && t in g.prior && g.prior[t] < p
    ensures var g' := g.(prior := g.prior[t := p]);
      Reaches(g, t, p, x) <==> x == t || (g.waits[t].HeldBy? && Reaches(g', g.waits[t].holder, p, x))
  {
    var g' := g.(prior := g.prior[t := p]);
    if x == t {
      assert Chain(g, [t], t, p);
    } else {
      if Reaches(g, t, p, x) {
        var path :| Chain(g, path, t, p) && path[|path| - 1] == x;
        CutChain(g, path, t, p);
      }
      if g.waits[t].HeldBy? && Reaches(g', g.waits[t].holder, p, x) {
        var path :| Chain(g', path, g.waits[t].holder, p) && path[|path| - 1] == x;
        ExtendChain(g, path, t, p);
      }
    }
  }

  lemma ExtendChain(g: Graph, path: seq<nat>, t: nat, p: int)
    requires WellFormed(g) && t in g.prior && g.prior[t] < p && g.waits[t].HeldBy?
    requires Chain(g.(prior := g.prior[t := p]), path, g.waits[t].holder, p)
    ensures Reaches(g, t, p, path[|path| - 1])
  {
    var whole := [t] + path;
    forall i | 0 <= i < |whole| - 1 ensures g.waits[whole[i]] == HeldBy(whole[i + 1]) {
      if i > 0 {
        assert whole[i] == path[i - 1] && whole[i + 1] == path[i];
      }
    }
    assert Chain(g, whole, t, p);
  }

  /** From the last visit of t on, a chain that ends elsewhere is one of the graph with t raised. */
  lemma {:induction false} CutChain(g: Graph, path: seq<nat>, t: nat, p: int)
    requires WellFormed(g) && Chain(g, path, t, p) && path[|path| - 1] != t
    ensures g.waits[t].HeldBy? && Reaches(g.(prior := g.prior[t := p]), g.waits[t].holder, p, path[|path| - 1])
    decreases |path|
  {
    var rest := path[1..];
    assert g.waits[path[0]] == HeldBy(path[1]);
    if t in rest {
      var k :| 0 <= k < |rest| && rest[k] == t;
      CutChain(g, path[k + 1..], t, p);
    } else {
      assert Chain(g.(prior := g.prior[t := p]), rest, g.waits[t].holder, p);
    }
  }

  /** Donation raises exactly the threads on the chain to p, and panics exactly if the chain ends at
      a thread that waits for a lock without a holder. */
  lemma {:induction false} DonateIsExact(g: Graph, t: nat, p: int)
    requires WellFormed(g) && t in g.prior
    ensures Donate(g, t, p).Panic? <==> exists x :: x in g.waits && g.waits[x].NoHolder? && Reaches(g, t, p, x)
    ensures Donate(g, t, p).Done? ==>
      Donate(g, t, p).g == g.(prior := map x | x in g.prior :: if Reaches(g, t, p, x) then p else g.prior[x])
    decreases |Below(g, p)|
  {
    if g.prior[t] >= p {
      forall x ensures !Reaches(g, t, p, x) {
      }
      assert g.prior == map x | x in g.prior :: if Reaches(g, t, p, x) then p else g.prior[x];
    } else {
      var g' := g.(prior := g.prior[t := p]);
      assert Below(g', p) == Below(g, p) - {t};
      forall x ensures Reaches(g, t, p, x) <==> x == t || (g.waits[t].HeldBy? && Reaches(g', g.waits[t].holder, p, x)) {
        ReachesStep(g, t, p, x);
      }
      if g.waits[t].HeldBy? {
        DonateIsExact(g', g.waits[t].holder, p);
        assert g.waits == g'.waits;
      }
    }
  }

  /** Blocking on a held lock, for the first time or again after losing a race for it: when every
      other thread has donated to its holder and the chain of holders has no gap, every thread has
      donated to its holder afterwards. */
  lemma BlockingDonates(g: Graph, cur: nat, holder: nat)
    requires WellFormed(g) && cur in g.waits && holder in g.prior
    requires forall x | x in g.waits && x != cur && g.waits[x].HeldBy? :: g.prior[g.waits[x].holder] >= g.prior[x]
    ensures var g1 := g.(waits := g.waits[cur := HeldBy(holder)]);
      var r := Donate(g1, holder, g.prior[cur]);
      && (r.Done? ==> WellFormed(r.g) && Donated(r.g))
      && (r.Panic? <==> exists x :: x in g1.waits && g1.waits[x].NoHolder? && Reaches(g1, holder, g.prior[cur], x))
  {
    var g1 := g.(waits := g.waits[cur := HeldBy(holder)]);
    DonateRestores(g1, holder, g.prior[cur]);
    DonateIsExact(g1, holder, g.prior[cur]);
  }

  /** Thread 0 was woken but still names a lock that nobody holds yet; thread 1, more urgent, blocks
      on a lock of thread 0, and the kernel panics. */
  lemma DonationCanPanic()
    ensures var g := Graph(map[0 := 31, 1 := 32], map[0 := NoHolder, 1 := HeldBy(0)]);
      WellFormed(g) && Donate(g, 0, 32).Panic?
  {
    var g := Graph(map[0 := 31, 1 := 32], map[0 := NoHolder, 1 := HeldBy(0)]);
    assert g.prior[0] < 32;
  }

  // ----- the program

  class Lock {
    var holder: Thread?

    constructor ()
      ensures holder == null
    {
      holder := null;
    }
  }

  class Thread {
    const tid: nat
    var prior: int
    var lockedOn: Lock?

    constructor (tid: nat, prior: int)
      ensures this.tid == tid && this.prior == prior && lockedOn == null
    {
      this.tid, this.prior, lockedOn := tid, prior, null;
    }

    ghost function Waits(): Edge
      reads this, lockedOn
    {
      if lockedOn == null then Free else if lockedOn.holder == null then NoHolder else HeldBy(lockedOn.holder.tid)
    }
  }

  /** g is the wait-for graph of the threads ts. */
  ghost predicate Represents(ts: set<Thread>, g: Graph)
    reads ts, set t | t in ts && t.lockedOn != null :: t.lockedOn
  {
    && WellFormed(g)
    && (forall x, y | x in ts && y in ts && x.tid == y.tid :: x == y)
    && (forall x | x in ts :: x.tid in g.prior && g.prior[x.tid] == x.prior && g.waits[x.tid] == x.Waits())
    && forall x | x in ts && x.lockedOn != null && x.lockedOn.holder != null :: x.lockedOn.holder in ts
  }

  /** thread_donate; a null thread fails its assertion, which panics the kernel. */
  method ThreadDonate(ghost ts: set<Thread>, ghost g: Graph, t: Thread?, priority: int) returns (panic: bool)
    requires Represents(ts, g) && (t != null ==> t in ts)
    modifies ts`prior
    ensures if t == null then panic else panic == Donate(g, t.tid, priority).Panic?
    ensures t != null && !panic ==> Represents(ts, Donate(g, t.tid, priority).g)
    decreases |Below(g, priority)|, if t == null then 0 else 1
  {
    if t == null {
      return true;
    }
    panic := false;
    if t.prior < priority {
      t.prior := priority;
      ghost var g' := g.(prior := g.prior[t.tid := priority]);
      assert Below(g', priority) == Below(g, priority) - {t.tid};
      if t.lockedOn != null {
        panic := ThreadDonate(ts, g', t.lockedOn.holder, priority);
      }
    }
  }
}
