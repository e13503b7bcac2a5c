/** Runs of the allocator by any number of threads, realloc included: between its malloc, the bytes
    it copies and its free, other threads may do what they like with blocks of their own
    (Project2/src/threads/malloc.c). */
module HeapRuns {
  import opened Disk
  import opened Bitmap
  import opened Heap
  import opened HeapInvariants
  import opened HeapMain

  /** One step of one thread.  OpCopy is one byte of a memcpy from block b to block c. */
  datatype Op =
    | OpMalloc(size: nat)
    | OpFree(b: nat)
    | OpCopy(c: nat, b: nat, i: nat)
    | OpWrite(b: nat, i: nat, v: Byte)
    | OpGetPages(cnt: nat)
    | OpFreePages(q: nat, cnt: nat)

  /** What callers must respect: sizes are of type size_t, blocks passed in are live, accesses stay
      within them, and pages given back are the caller's own. */
  predicate Legal(st: State, op: Op)
  {
    match op
    case OpMalloc(size) => size <= SIZE_MAX
    case OpFree(b) => b in st.live
    case OpCopy(c, b, i) => c in st.live && b in st.live && i < Capacity(st, c) && i < Capacity(st, b)
    case OpWrite(b, i, _) => b in st.live && i < Capacity(st, b)
    case OpGetPages(_) => true
    case OpFreePages(q, cnt) => q + cnt <= |st.used| && forall x | q <= x < q + cnt :: x in st.other
  }

  function PageSet(q: nat, cnt: nat): (r: set<nat>)
    ensures forall x: nat :: x in r <==> q <= x < q + cnt
  {
    if cnt == 0 then {} else PageSet(q, cnt - 1) + {q + cnt - 1}
  }

  /** Pages that other users of the page allocator take and give back. */
  function GetPages(st: State, cnt: nat): State
  {
    var q := FirstClear(st.used, cnt);
    if cnt == 0 || q.None? then st
    else st.(used := SetRun(st.used, q.value, cnt, true), other := st.other + PageSet(q.value, cnt))
  }

  function FreePages(st: State, q: nat, cnt: nat): State
    requires q + cnt <= |st.used|
  {
    st.(used := SetRun(st.used, q, cnt, false), other := st.other - PageSet(q, cnt),
        mem := if (q + cnt) * PGSIZE <= |st.mem| then Fill(st.mem, q * PGSIZE, cnt * PGSIZE, 0xcc) else st.mem)
  }

  /** Address a gets value v. */
  function Poke(st: State, a: nat, v: Byte): State
  {
    if a < |st.mem| then st.(mem := st.mem[a := v]) else st
  }

  function WriteByte(st: State, b: nat, i: nat, v: Byte): State { Poke(st, b + i, v) }

  function CopyByte(st: State, c: nat, b: nat, i: nat): State { Poke(st, c + i, ByteAt(st, b + i)) }

  ghost function Apply(st: State, op: Op): State
    requires Inv(st) && Legal(st, op)
  {
    match op
    case OpMalloc(size) => Malloc(st, size).1
    case OpFree(b) => FreeKeeps(st, b); Free(st, b)
    case OpCopy(c, b, i) => CopyByte(st, c, b, i)
    case OpWrite(b, i, v) => WriteByte(st, b, i, v)
    case OpGetPages(cnt) => GetPages(st, cnt)
    case OpFreePages(q, cnt) => FreePages(st, q, cnt)
  }

  lemma OtherKeeps(st: State, st': State)
    requires Inv(st) && st' == st.(used := st'.used, other := st'.other) && PageInv(st')
    ensures Inv(st')
  {
    assert forall e: nat, a: nat | e < DESC_CNT :: InArena(st', e, a) <==> InArena(st, e, a);
    forall q | q in st'.arenas ensures Counted(st', q, false) {
      assert Counted(st, q, false);
      if st.arenas[q].Small? {
        assert FreeSlots(st', q) == FreeSlots(st, q);
      }
    }
  }

  lemma OtherPages(st: State, st': State)
    requires PageInv(st) && st' == st.(used := st'.used, other := st'.other) && |st'.used| == |st.used|
    requires forall x: nat | x in st'.other :: x < |st.used| && st'.used[x]
    requires forall x: nat | x < |st.used| && x !in st'.other :: st'.used[x] == (st.used[x] && x !in st.other)
    requires forall x: nat | x in st'.other :: x in st.other || !st.used[x]
    ensures PageInv(st')
  {
    forall q, x ensures Owns(st', q, x) <==> Owns(st, q, x) {
    }
    forall x: nat | x < |st'.used| && st'.used[x] && x !in st'.other ensures exists q :: Owns(st', q, x) {
      var q :| Owns(st, q, x);
      assert Owns(st', q, x);
    }
  }

  lemma GetPagesKeeps(st: State, cnt: nat)
    requires Inv(st)
    ensures Inv(GetPages(st, cnt))
  {
    OtherPages(st, GetPages(st, cnt));
    OtherKeeps(st, GetPages(st, cnt));
  }

  lemma FreePagesKeeps(st: State, q: nat, cnt: nat)
    requires Inv(st) && q + cnt <= |st.used| && forall x | q <= x < q + cnt :: x in st.other
    ensures Inv(FreePages(st, q, cnt))
  {
    var st1 := FreePages(st, q, cnt).(mem := st.mem);
    OtherPages(st, st1);
    OtherKeeps(st, st1);
    WriteKeeps(st1, FreePages(st, q, cnt).mem);
  }

  lemma BytesKeep(st: State, b: nat, c: nat, i: nat, v: Byte)
    requires Inv(st)
    ensures Inv(WriteByte(st, b, i, v)) && Inv(CopyByte(st, c, b, i))
  {
    WriteKeeps(st, WriteByte(st, b, i, v).mem);
    WriteKeeps(st, CopyByte(st, c, b, i).mem);
  }

  lemma StepKeeps(st: State, op: Op)
    requires Inv(st) && Legal(st, op)
    ensures Inv(Apply(st, op))
  {
    match op
    case OpMalloc(size) => MallocKeeps(st, size);
    case OpFree(b) => FreeKeeps(st, b);
    case OpCopy(c, b, i) => BytesKeep(st, b, c, i, 0);
    case OpWrite(b, i, v) => BytesKeep(st, b, b, i, v);
    case OpGetPages(cnt) => GetPagesKeeps(st, cnt);
    case OpFreePages(q, cnt) => FreePagesKeeps(st, q, cnt);
  }

  ghost predicate LegalRun(st: State, ops: seq<Op>)
    requires Inv(st)
    decreases |ops|
  {
    ops == [] || (Legal(st, ops[0]) && (StepKeeps(st, ops[0]); LegalRun(Apply(st, ops[0]), ops[1..])))
  }

  ghost function Run(st: State, ops: seq<Op>): State
    requires Inv(st) && LegalRun(st, ops)
    decreases |ops|
  {
    if ops == [] then st else StepKeeps(st, ops[0]); Run(Apply(st, ops[0]), ops[1..])
  }

  /** malloc_init over a pool of free pages. */
  function Boot(mem: seq<Byte>): State
  {
    State(seq(|mem| / PGSIZE, _ => false), map[], seq(DESC_CNT, _ => []), mem, map[], {})
  }

  lemma BootInv(mem: seq<Byte>)
    requires |mem| % PGSIZE == 0
    ensures Inv(Boot(mem))
  {
  }

  /** In every run: free lists are exactly the unused blocks, counts are exact, every arena has a
      used block, live blocks are disjoint, past the header and large enough. */
  lemma {:induction false} RunKeeps(st: State, ops: seq<Op>)
    requires Inv(st) && LegalRun(st, ops)
    ensures Inv(Run(st, ops))
    decreases |ops|
  {
    if ops != [] {
      StepKeeps(st, ops[0]);
      RunKeeps(Apply(st, ops[0]), ops[1..]);
    }
  }

  // ----- a block keeps its bytes until its owner changes them

  /** An operation that only the owner of block a may use. */
  predicate Touches(op: Op, a: nat)
  {
    (op.OpFree? && op.b == a) || (op.OpWrite? && op.b == a) || (op.OpCopy? && op.c == a)
  }

  predicate Avoids(ops: seq<Op>, a: nat) { forall op | op in ops :: !Touches(op, a) }

  /** Block a is still live, as large as before and with the same bytes. */
  ghost predicate Same(st: State, st': State, a: nat)
    requires a in st.live
  {
    a in st'.live && st'.live[a] == st.live[a] && Capacity(st', a) == Capacity(st, a) && BlockSame(st, st', a)
  }

  lemma WriteLeaves(st: State, b: nat, i: nat, v: Byte, a: nat)
    requires Inv(st) && a in st.live && b in st.live && a != b && i < Capacity(st, b)
    ensures Same(st, WriteByte(st, b, i, v), a)
  {
    LiveApart(st, a, b);
    assert Within(st, b, b + i);
  }

  lemma CopyLeaves(st: State, c: nat, b: nat, i: nat, a: nat)
    requires Inv(st) && a in st.live && c in st.live && a != c && i < Capacity(st, c)
    ensures Same(st, CopyByte(st, c, b, i), a)
  {
    WriteLeaves(st, c, i, ByteAt(st, b + i), a);
  }

  lemma FreeLeaves(st: State, b: nat, a: nat)
    requires Inv(st) && a in st.live && b in st.live && a != b
    ensures InHeap(st, b) && Same(st, Free(st, b), a)
  {
    FreeKeepsBytes(st, b);
    LiveBlock(st, a);
    if PageOf(a) == PageOf(b) {
      OnlyBlock(st, PageOf(b), a, b);
    }
  }

  lemma MallocLeaves(st: State, size: nat, a: nat)
    requires Inv(st) && a in st.live && size <= SIZE_MAX
    ensures Same(st, Malloc(st, size).1, a)
  {
    MallocGives(st, size);
    MallocKeepsCapacity(st, a, size);
  }

  lemma FreePagesLeaves(st: State, q: nat, cnt: nat, a: nat)
    requires Inv(st) && a in st.live && q + cnt <= |st.used| && forall x | q <= x < q + cnt :: x in st.other
    ensures Same(st, FreePages(st, q, cnt), a)
  {
    LiveBlock(st, a);
    forall x | Within(st, a, x) ensures !(q * PGSIZE <= x < q * PGSIZE + cnt * PGSIZE) {
      assert OnPages(st, PageOf(a), x);
      assert Owns(st, PageOf(a), x / PGSIZE);
    }
  }

  lemma StepLeaves(st: State, op: Op, a: nat)
    requires Inv(st) && Legal(st, op) && a in st.live && !Touches(op, a)
    ensures Same(st, Apply(st, op), a)
  {
    match op
    case OpMalloc(size) => MallocLeaves(st, size, a);
    case OpFree(b) => FreeLeaves(st, b, a);
    case OpCopy(c, b, i) => CopyLeaves(st, c, b, i, a);
    case OpWrite(b, i, v) => WriteLeaves(st, b, i, v, a);
    case OpGetPages(cnt) =>
    case OpFreePages(q, cnt) => FreePagesLeaves(st, q, cnt, a);
  }

  lemma SameTrans(st0: State, st1: State, st2: State, a: nat)
    requires a in st0.live && Same(st0, st1, a) && Same(st1, st2, a)
    ensures Same(st0, st2, a)
  {
    forall x | Within(st0, a, x) ensures ByteAt(st2, x) == ByteAt(st0, x) {
      assert Within(st1, a, x);
    }
  }

  /** In every run, a live block that is not freed or written stays live and keeps its bytes. */
  lemma {:induction false} RunLeaves(st: State, ops: seq<Op>, a: nat)
    requires Inv(st) && LegalRun(st, ops) && a in st.live && Avoids(ops, a)
    ensures Same(st, Run(st, ops), a)
    decreases |ops|
  {
    if ops != [] {
      assert ops[0] in ops;
      StepKeeps(st, ops[0]);
      StepLeaves(st, ops[0], a);
      RunLeaves(Apply(st, ops[0]), ops[1..], a);
      SameTrans(st, Apply(st, ops[0]), Run(st, ops), a);
    }
  }

  lemma {:induction false} RunConcat(st: State, a: seq<Op>, b: seq<Op>)
    requires Inv(st) && LegalRun(st, a)
    ensures Inv(Run(st, a)) && (LegalRun(st, a + b) <==> LegalRun(Run(st, a), b))
    ensures LegalRun(st, a + b) ==> Run(st, a + b) == Run(Run(st, a), b)
    decreases |a|
  {
    if a == [] {
      assert a + b == b;
    } else {
      StepKeeps(st, a[0]);
      RunConcat(Apply(st, a[0]), a[1..], b);
      assert (a + b)[1..] == a[1..] + b;
    }
  }

  // ----- realloc among other threads

  /** A thread's own steps, each followed by steps of other threads. */
  function Woven(own: seq<Op>, others: seq<seq<Op>>): seq<Op>
    requires |own| == |others|
  {
    if own == [] then [] else [own[0]] + others[0] + Woven(own[1..], others[1..])
  }

  /** The other threads respect the rules, as long as this one does. */
  ghost predicate OthersLegal(st: State, own: seq<Op>, others: seq<seq<Op>>)
    requires Inv(st) && |own| == |others|
    decreases |own|
  {
    own == [] || !Legal(st, own[0]) ||
      (StepKeeps(st, own[0]);
       var st1 := Apply(st, own[0]);
       LegalRun(st1, others[0]) && (RunKeeps(st1, others[0]); OthersLegal(Run(st1, others[0]), own[1..], others[1..])))
  }

  /** The steps of the memcpy from byte i on. */
  function Copies(c: nat, b: nat, i: nat, n: nat): (r: seq<Op>)
    requires i <= n
    ensures |r| == n - i && forall k | 0 <= k < n - i :: r[k] == OpCopy(c, b, i + k)
    decreases n - i
  {
    if i == n then [] else [OpCopy(c, b, i)] + Copies(c, b, i + 1, n)
  }

  /** Both blocks are there and large enough, b has its old bytes, and i of them have been copied. */
  ghost predicate Copying(st0: State, st: State, b: nat, c: nat, i: nat, n: nat)
    requires b in st0.live && c in st0.live
  {
    && Same(st0, st, b) && b != c && c in st.live && st.live[c] == st0.live[c]
    && n <= Capacity(st0, b) && n <= Capacity(st, c) && CopyKept(st0, st, b, c, i)
  }

  lemma CopyStep(st0: State, st: State, b: nat, c: nat, i: nat, n: nat, j: nat)
    requires Inv(st) && b in st0.live && c in st0.live && Copying(st0, st, b, c, i, n) && i < n && j == i + 1
    ensures Legal(st, OpCopy(c, b, i)) && Copying(st0, Apply(st, OpCopy(c, b, i)), b, c, j, n)
  {
    CopyLeaves(st, c, b, i, b);
    InMemory(st, c, i);
    OneMore(st0, st, CopyByte(st, c, b, i), b, c, i, n);
  }

  lemma InMemory(st: State, c: nat, i: nat)
    requires Inv(st) && c in st.live && i < Capacity(st, c)
    ensures c + i < |st.mem|
  {
    LiveBlock(st, c);
  }

  lemma OneMore(st0: State, st: State, st': State, b: nat, c: nat, i: nat, n: nat)
    requires b in st0.live && c in st0.live && Copying(st0, st, b, c, i, n) && i < n && c + i < |st.mem|
    requires st' == CopyByte(st, c, b, i) && Same(st, st', b)
    ensures Copying(st0, st', b, c, i + 1, n)
  {
    SameTrans(st0, st, st', b);
    assert Within(st0, b, b + i);
    forall x | b <= x < b + (i + 1) ensures ByteAt(st', x - b + c) == ByteAt(st0, x) {
      assert x < b + i ==> ByteAt(st, x - b + c) == ByteAt(st0, x);
    }
  }

  lemma OthersLeave(st0: State, st: State, ops: seq<Op>, b: nat, c: nat, i: nat, n: nat)
    requires Inv(st) && LegalRun(st, ops) && b in st0.live && c in st0.live && Copying(st0, st, b, c, i, n) && i <= n
    requires Avoids(ops, b) && Avoids(ops, c)
    ensures Copying(st0, Run(st, ops), b, c, i, n)
  {
    RunLeaves(st, ops, b);
    RunLeaves(st, ops, c);
    StillCopying(st0, st, Run(st, ops), b, c, i, n);
  }

  lemma StillCopying(st0: State, st: State, st': State, b: nat, c: nat, i: nat, n: nat)
    requires b in st0.live && c in st0.live && Copying(st0, st, b, c, i, n) && i <= n
    requires Same(st, st', b) && Same(st, st', c)
    ensures Copying(st0, st', b, c, i, n)
  {
    SameTrans(st0, st, st', b);
    forall x | b <= x < b + i ensures ByteAt(st', x - b + c) == ByteAt(st0, x) {
      assert Within(st, c, x - b + c) && ByteAt(st, x - b + c) == ByteAt(st0, x);
    }
  }

  lemma {:induction false} CopyLoop(st0: State, st: State, b: nat, c: nat, i: nat, n: nat, others: seq<seq<Op>>)
    requires Inv(st) && b in st0.live && c in st0.live && i <= n && Copying(st0, st, b, c, i, n) && |others| == n - i
    requires OthersLegal(st, Copies(c, b, i, n), others)
    requires forall ops | ops in others :: Avoids(ops, b) && Avoids(ops, c)
    ensures var ops := Woven(Copies(c, b, i, n), others);
      LegalRun(st, ops) && Inv(Run(st, ops)) && Copying(st0, Run(st, ops), b, c, n, n)
    decreases n - i, 0
  {
    if i < n {
      var own, op, j := Copies(c, b, i, n), OpCopy(c, b, i), i + 1;
      CopyStep(st0, st, b, c, i, n, j);
      OthersNext(st, own, others);
      RestCopies(c, b, i, n, j);
      CopyRest(st0, st, op, b, c, j, n, others, own[1..]);
    }
  }

  lemma RestCopies(c: nat, b: nat, i: nat, n: nat, j: nat)
    requires i < n && j == i + 1
    ensures Copies(c, b, i, n) == [OpCopy(c, b, i)] + Copies(c, b, j, n) && Copies(c, b, i, n)[1..] == Copies(c, b, j, n)
  {
  }

  lemma OthersNext(st: State, own: seq<Op>, others: seq<seq<Op>>)
    requires Inv(st) && |own| == |others| && own != [] && Legal(st, own[0]) && OthersLegal(st, own, others)
    ensures Inv(Apply(st, own[0])) && LegalRun(Apply(st, own[0]), others[0]) && Inv(Run(Apply(st, own[0]), others[0]))
    ensures OthersLegal(Run(Apply(st, own[0]), others[0]), own[1..], others[1..])
  {
    StepKeeps(st, own[0]);
    RunKeeps(Apply(st, own[0]), others[0]);
  }

  /** The rest of the loop, after the thread's step `op`. */
  lemma {:induction false} CopyRest(st0: State, st: State, op: Op, b: nat, c: nat, j: nat, n: nat, others: seq<seq<Op>>, own: seq<Op>)
    requires Inv(st) && b in st0.live && c in st0.live && j <= n && others != [] && |others| == n - j + 1 && own == Copies(c, b, j, n)
    requires Legal(st, op) && Inv(Apply(st, op)) && LegalRun(Apply(st, op), others[0])
    requires Copying(st0, Apply(st, op), b, c, j, n) && Inv(Run(Apply(st, op), others[0]))
    requires OthersLegal(Run(Apply(st, op), others[0]), own, others[1..])
    requires forall ops | ops in others :: Avoids(ops, b) && Avoids(ops, c)
    ensures var ops := [op] + others[0] + Woven(own, others[1..]);
      LegalRun(st, ops) && Inv(Run(st, ops)) && Copying(st0, Run(st, ops), b, c, n, n)
    decreases n - j, 1
  {
    var st2 := Run(Apply(st, op), others[0]);
    assert others[0] in others;
    OthersLeave(st0, Apply(st, op), others[0], b, c, j, n);
    CopyLoop(st0, st2, b, c, j, n, others[1..]);
    OneRound(st, op, others[0], Woven(own, others[1..]));
  }

  lemma OneRound(st: State, op: Op, ops: seq<Op>, rest: seq<Op>)
    requires Inv(st) && Legal(st, op) && Inv(Apply(st, op)) && LegalRun(Apply(st, op), ops)
    requires Inv(Run(Apply(st, op), ops)) && LegalRun(Run(Apply(st, op), ops), rest)
    ensures LegalRun(st, [op] + ops + rest) && Run(st, [op] + ops + rest) == Run(Run(Apply(st, op), ops), rest)
  {
    RunConcat(Apply(st, op), ops, rest);
    RunFrom(st, op, ops + rest);
    assert [op] + ops + rest == [op] + (ops + rest);
  }

  lemma RunFrom(st: State, op: Op, rest: seq<Op>)
    requires Inv(st) && Legal(st, op) && Inv(Apply(st, op)) && LegalRun(Apply(st, op), rest)
    ensures LegalRun(st, [op] + rest) && Run(st, [op] + rest) == Run(Apply(st, op), rest)
  {
    assert ([op] + rest)[1..] == rest;
  }

  /** realloc up to its free: malloc, then a memcpy. */
  function ReallocSteps(st: State, b: nat, size: nat): seq<Op>
    requires |st.free| == DESC_CNT && Malloc(st, size).0.Some?
  {
    [OpMalloc(size)] + Copies(Malloc(st, size).0.value, b, 0, Carried(st, b, size))
  }

  /** How many bytes realloc copies. */
  function Carried(st: State, b: nat, size: nat): nat
  {
    var n := Least(size, Capacity(st, b));
    if n < 0 then 0 else n
  }

  /** Whatever other threads do in between, as long as they keep off its two blocks, realloc's
      accesses are legal, and at its end the new block starts with the first
      min(new size, old capacity) bytes of the old one. */
  lemma ReallocAmongOthers(st: State, b: nat, size: nat, others: seq<seq<Op>>)
    requires Inv(st) && b in st.live && size > 0 && Fitting(st, b, size) && Malloc(st, size).0.Some?
    requires |others| == |ReallocSteps(st, b, size)| && OthersLegal(st, ReallocSteps(st, b, size), others)
    requires forall ops | ops in others :: Avoids(ops, b) && Avoids(ops, Malloc(st, size).0.value)
    ensures var c, ops := Malloc(st, size).0.value, Woven(ReallocSteps(st, b, size), others) + [OpFree(b)];
      && LegalRun(st, ops) && Inv(Run(st, ops))
      && b !in Run(st, ops).live && c in Run(st, ops).live && Run(st, ops).live[c] == size
      && CopyKept(st, Run(st, ops), b, c, Least(size, Capacity(st, b)))
  {
    LiveBlock(st, b);
    var c := Malloc(st, size).0.value;
    var n := Carried(st, b, size);
    var own := ReallocSteps(st, b, size);
    MallocStarts(st, b, size, c, n);
    OthersNext(st, own, others);
    assert own[1..] == Copies(c, b, 0, n);
    CopyRest(Malloc(st, size).1, st, OpMalloc(size), b, c, 0, n, others, own[1..]);
    RunConcat(st, Woven(own, others), [OpFree(b)]);
    FreeEnds(Malloc(st, size).1, Run(st, Woven(own, others)), b, c, n);
  }

  lemma MallocStarts(st: State, b: nat, size: nat, c: nat, n: nat)
    requires Inv(st) && b in st.live && size > 0 && Fitting(st, b, size) && Malloc(st, size).0 == Some(c)
    requires n == Least(size, Capacity(st, b))
    ensures var st1 := Malloc(st, size).1;
      && Inv(st1) && Same(st, st1, b) && c in st1.live && st1.live[c] == size && Copying(st1, st1, b, c, 0, n)
      && st1.mem == st.mem
  {
    ReallocFits(st, b, c, Malloc(st, size).1, size);
    MallocLeaves(st, size, b);
  }

  lemma FreeEnds(st1: State, st: State, b: nat, c: nat, n: nat)
    requires Inv(st) && b in st1.live && c in st1.live && Copying(st1, st, b, c, n, n)
    ensures LegalRun(st, [OpFree(b)]) && Inv(Run(st, [OpFree(b)]))
    ensures var st' := Run(st, [OpFree(b)]);
      b !in st'.live && c in st'.live && st'.live[c] == st1.live[c] && CopyKept(st1, st', b, c, n)
  {
    OneStep(st, OpFree(b));
    FreeKeepsBytes(st, b);
    FreeLeaves(st, b, c);
    FreedCopy(st1, st, Free(st, b), b, c, n);
  }

  lemma OneStep(st: State, op: Op)
    requires Inv(st) && Legal(st, op)
    ensures LegalRun(st, [op]) && Run(st, [op]) == Apply(st, op) && Inv(Apply(st, op))
  {
    StepKeeps(st, op);
    assert [op][1..] == [];
    assert LegalRun(Apply(st, op), []) && Run(Apply(st, op), []) == Apply(st, op);
  }

  lemma FreedCopy(st1: State, st: State, st': State, b: nat, c: nat, n: nat)
    requires c in st.live && CopyKept(st1, st, b, c, n) && n <= Capacity(st, c) && Same(st, st', c)
    ensures CopyKept(st1, st', b, c, n)
  {
    forall x | b <= x < b + n ensures ByteAt(st', x - b + c) == ByteAt(st1, x) {
      assert Within(st, c, x - b + c) && ByteAt(st, x - b + c) == ByteAt(st1, x);
    }
  }

  // ----- nothing leaks

  /** Once every block is freed, the allocator has given back every page it ever took. */
  lemma NoLeak(st: State)
    requires Inv(st)
    ensures st.live == map[] ==> st.arenas == map[] && forall x: nat | x < |st.used| :: st.used[x] <==> x in st.other
  {
    forall q | q in st.arenas ensures st.live != map[] {
      ArenaHasLive(st, q);
    }
    assert st.live == map[] ==> forall q :: q !in st.arenas;
  }

  lemma ArenaHasLive(st: State, q: nat)
    requires Inv(st) && q in st.arenas
    ensures st.live != map[]
  {
    assert Counted(st, q, false);
    if st.arenas[q].Small? {
      AllFree(st, q);
    }
  }

  lemma AllFree(st: State, q: nat)
    requires q in st.arenas && st.arenas[q].Small? && st.arenas[q].desc < DESC_CNT
    ensures st.live == map[] ==> FreeSlots(st, q) == UpTo(Per(st.arenas[q].desc))
  {
  }
}
