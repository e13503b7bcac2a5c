/** Single calls of malloc, free and realloc, and the live blocks they leave
    (Project2/src/threads/malloc.c). */
module HeapMain {
  import opened Disk
  import opened Bitmap
  import opened Heap
  import opened HeapInvariants

  // ----- single calls

  lemma FreshBlocks(st: State, d: nat, q: nat)
    requires d < DESC_CNT == |st.free| && q < |st.used| && st.free[d] == []
    ensures AddArena(st, d, q).free[d] == Blocks(q, d) && Blocks(q, d)[0] == Block(q, d, 0) && PageOf(Block(q, d, 0)) == q
  {
    assert AddArena(st, d, q).free[d] == Blocks(q, d);
    BlockInverse(q, d, 0);
  }

  lemma MallocKeeps(st: State, size: nat)
    requires Inv(st) && size <= SIZE_MAX
    ensures Inv(Malloc(st, size).1)
  {
    var d := DescFor(size);
    if size > 0 {
      if d == DESC_CNT {
        MallocBigKeeps(st, size);
      } else if st.free[d] != [] {
        PopFreeKeeps(st, d, size, {});
      } else {
        var q := FirstClear(st.used, 1);
        if q.Some? {
          AddArenaKeeps(st, d, q.value);
          FreshBlocks(st, d, q.value);
          PopFreeKeeps(AddArena(st, d, q.value), d, size, {q.value});
        }
      }
    }
  }

  /** malloc hands out a block that was not live, registers it, and changes no byte. */
  lemma MallocGives(st: State, size: nat)
    requires Inv(st) && size <= SIZE_MAX
    ensures var (b, st') := Malloc(st, size);
      && st'.mem == st.mem && st'.other == st.other
      && (b.None? ==> st' == st)
      && (b.Some? ==> b.value !in st.live && st'.live == st.live[b.value := size])
  {
    var d := DescFor(size);
    if size > 0 {
      if d == DESC_CNT {
        var q := FirstClear(st.used, RequestPages(size));
        if RequestPages(size) != 0 && q.Some? {
          ClearPageIsFree(st, q.value);
          assert PageOf(q.value * PGSIZE + HEADER) == q.value;
        }
      } else if st.free[d] != [] {
        PopUnfolds(st, d, size, {});
      } else {
        var q := FirstClear(st.used, 1);
        if q.Some? {
          AddArenaKeeps(st, d, q.value);
          FreshBlocks(st, d, q.value);
          PopUnfolds(AddArena(st, d, q.value), d, size, {q.value});
        }
      }
    }
  }

  lemma FreeKeeps(st: State, b: nat)
    requires Inv(st) && b in st.live
    ensures InHeap(st, b) && Inv(Free(st, b))
  {
    LiveInHeap(st, b);
    var q := PageOf(b);
    if st.arenas[q].Big? {
      FreeBigKeeps(st, b);
    } else {
      PushFreeKeeps(st, b);
      var st1 := PushFree(st, b);
      if st1.arenas[q].freeCnt >= Per(st1.arenas[q].desc) {
        DropArenaKeeps(st1, q);
      } else {
        NotSpare(st1, q);
      }
    }
  }

  lemma NotSpare(st: State, q: nat)
    requires InvBut(st, {q}) && q in st.arenas && st.arenas[q].Small? && st.arenas[q].freeCnt < Per(st.arenas[q].desc)
    ensures Inv(st)
  {
    forall r | r in st.arenas ensures Counted(st, r, false) {
      assert Counted(st, r, r in {q});
    }
  }

  // ----- live blocks and their bytes

  /** block_size: the bytes a caller may use. */
  function Capacity(st: State, b: nat): int
  {
    if PageOf(b) !in st.arenas then 0
    else
      var a := st.arenas[PageOf(b)];
      if a.Big? then PGSIZE * a.pages - b % PGSIZE else if a.desc < DESC_CNT then Size(a.desc) else 0
  }

  /** Address x is one of the bytes of block b. */
  predicate Within(st: State, b: nat, x: int) { b <= x < b + Capacity(st, b) }

  /** Address x is on the pages of the arena at q. */
  predicate OnPages(st: State, q: nat, x: int)
  {
    q in st.arenas && q * PGSIZE <= x < (q + Cnt(st.arenas[q])) * PGSIZE
  }

  /** A live block lies past the header, on the pages of its arena, and is large enough exactly if its
      request did not wrap around. */
  lemma LiveBlock(st: State, b: nat)
    requires Inv(st) && b in st.live
    ensures PageOf(b) in st.arenas && b % PGSIZE >= HEADER && (st.live[b] <= Capacity(st, b) <==> Bounded(st.live[b]))
    ensures !Bounded(st.live[b]) ==> Capacity(st, b) == PGSIZE - HEADER
    ensures b + Capacity(st, b) <= (PageOf(b) + Cnt(st.arenas[PageOf(b)])) * PGSIZE <= |st.mem|
    ensures forall x | Within(st, b, x) :: OnPages(st, PageOf(b), x)
  {
    var q := PageOf(b);
    assert Sits(st.arenas[q], b, st.live[b]);
    if st.arenas[q].Small? {
      var d := st.arenas[q].desc;
      BlockAgain(d, b);
      BlockFits(d, IndexOf(d, b % PGSIZE));
    }
  }

  /** Two live blocks of one arena: it is small, and they are two of its blocks. */
  lemma SamePage(st: State, a: nat, b: nat)
    requires Inv(st) && a in st.live && b in st.live && a < b && PageOf(a) == PageOf(b)
    ensures var q := PageOf(a);
      q in st.arenas && st.arenas[q].Small? && st.arenas[q].desc < DESC_CNT
    ensures var d := st.arenas[PageOf(a)].desc;
      IsBlock(d, a % PGSIZE) && IsBlock(d, b % PGSIZE) && a % PGSIZE < b % PGSIZE
  {
    var q := PageOf(a);
    SameOffsets(a, b);
    assert Sits(st.arenas[q], a, st.live[a]) && Sits(st.arenas[q], b, st.live[b]);
  }

  lemma SameOffsets(a: nat, b: nat)
    requires a < b && PageOf(a) == PageOf(b)
    ensures a % PGSIZE < b % PGSIZE
  {
  }

  lemma SameArenaApart(st: State, a: nat, b: nat)
    requires Inv(st) && a in st.live && b in st.live && a < b && PageOf(a) == PageOf(b)
    ensures a + Capacity(st, a) <= b
  {
    SamePage(st, a, b);
    var d := st.arenas[PageOf(a)].desc;
    OffsetsApart(d, a, b);
  }

  lemma OffsetsApart(d: nat, a: nat, b: nat)
    requires d < DESC_CNT && PageOf(a) == PageOf(b) && a % PGSIZE < b % PGSIZE
    requires IsBlock(d, a % PGSIZE) && IsBlock(d, b % PGSIZE)
    ensures a + Size(d) <= b && IndexOf(d, a % PGSIZE) < IndexOf(d, b % PGSIZE)
  {
    BlockAgain(d, a);
    BlockAgain(d, b);
    IndexGrows(d, a % PGSIZE, b % PGSIZE);
    BlocksApart(PageOf(a), d, IndexOf(d, a % PGSIZE), IndexOf(d, b % PGSIZE));
  }

  lemma IndexGrows(d: nat, x: int, y: int)
    requires d < DESC_CNT && x < y && (x - HEADER) % Size(d) == 0 && (y - HEADER) % Size(d) == 0
    ensures IndexOf(d, x) < IndexOf(d, y)
  {
    if d == 0 {} else if d == 1 {} else if d == 2 {} else if d == 3 {} else if d == 4 {} else if d == 5 {} else {}
  }

  /** A byte lies on the pages of one arena only. */
  lemma PagesApart(st: State, q: nat, r: nat, x: int)
    requires PageInv(st) && q != r
    ensures !(OnPages(st, q, x) && OnPages(st, r, x))
  {
    assert !(Owns(st, q, x / PGSIZE) && Owns(st, r, x / PGSIZE));
  }

  /** Live blocks do not overlap. */
  lemma LiveApart(st: State, a: nat, b: nat)
    requires Inv(st) && a in st.live && b in st.live && a != b
    ensures forall x | Within(st, a, x) :: !Within(st, b, x)
  {
    LiveBlock(st, a);
    LiveBlock(st, b);
    if PageOf(a) == PageOf(b) {
      if a < b { SameArenaApart(st, a, b); } else { SameArenaApart(st, b, a); }
    } else {
      forall x | Within(st, a, x) ensures !Within(st, b, x) {
        PagesApart(st, PageOf(a), PageOf(b), x);
      }
    }
  }

  function ByteAt(st: State, x: int): Byte { if 0 <= x < |st.mem| then st.mem[x] else 0 }

  /** The bytes of block a are the same in both states. */
  ghost predicate BlockSame(st: State, st': State, a: nat)
  {
    forall x | Within(st, a, x) :: ByteAt(st', x) == ByteAt(st, x)
  }

  /** Which bytes free may write: those of its block, or all of the pages it gives back. */
  predicate Cleared(st: State, b: nat, x: int)
    requires PageOf(b) in st.arenas
  {
    var q := PageOf(b);
    if st.arenas[q].Small? && st.arenas[q].desc < DESC_CNT && st.arenas[q].freeCnt + 1 < Per(st.arenas[q].desc)
    then Within(st, b, x) else OnPages(st, q, x)
  }

  lemma FreeUnfolds(st: State, b: nat)
    requires Inv(st) && b in st.live && InHeap(st, b)
    ensures var st' := Free(st, b);
      && |st'.mem| == |st.mem| && st'.live == st.live - {b} && st'.other == st.other
      && forall x | !Cleared(st, b, x) :: ByteAt(st', x) == ByteAt(st, x)
  {
    LiveBlock(st, b);
    if st.arenas[PageOf(b)].Small? {
      PushUnfolds(st, b);
    }
  }

  lemma FreeMissesBlock(st: State, b: nat, a: nat)
    requires Inv(st) && b in st.live && InHeap(st, b) && a in st.live && a != b
    ensures forall x | Within(st, a, x) :: !Cleared(st, b, x)
  {
    LiveBlock(st, a);
    LiveBlock(st, b);
    LiveApart(st, a, b);
    var q := PageOf(b);
    if PageOf(a) == q {
      OnlyBlock(st, q, a, b);
    } else {
      forall x | Within(st, a, x) ensures !OnPages(st, q, x) {
        PagesApart(st, PageOf(a), q, x);
      }
    }
  }

  /** An arena with two live blocks keeps its page when one is freed. */
  lemma OnlyBlock(st: State, q: nat, a: nat, b: nat)
    requires Inv(st) && a in st.live && b in st.live && a != b && PageOf(a) == q && PageOf(b) == q
    ensures q in st.arenas && st.arenas[q].Small? && st.arenas[q].desc < DESC_CNT
    ensures st.arenas[q].freeCnt + 1 < Per(st.arenas[q].desc)
  {
    if a < b { SamePage(st, a, b); } else { SamePage(st, b, a); }
    var d := st.arenas[q].desc;
    var i, j := IndexOf(d, a % PGSIZE), IndexOf(d, b % PGSIZE);
    if a < b { OffsetsApart(d, a, b); } else { OffsetsApart(d, b, a); }
    assert Counted(st, q, false);
    BlockAgain(d, a);
    BlockAgain(d, b);
    TwoMore(FreeSlots(st, q), i, j, Per(d));
  }

  lemma TwoMore(s: set<nat>, i: nat, j: nat, n: nat)
    requires s <= UpTo(n) && i < n && j < n && i != j && i !in s && j !in s
    ensures |s| + 2 <= n
  {
    assert |s + {i}| == |s| + 1;
    assert |s + {i} + {j}| == |s + {i}| + 1;
    SubsetSize(s + {i} + {j}, UpTo(n));
  }

  /** free clears its block, or its pages, and no byte of any other live block. */
  lemma FreeKeepsBytes(st: State, b: nat)
    requires Inv(st) && b in st.live
    ensures InHeap(st, b)
    ensures Free(st, b).live == st.live - {b} && Free(st, b).other == st.other
    ensures forall a | a in st.live && a != b :: BlockSame(st, Free(st, b), a)
  {
    FreeKeeps(st, b);
    FreeUnfolds(st, b);
    forall a | a in st.live && a != b ensures BlockSame(st, Free(st, b), a) {
      FreeMissesBlock(st, b, a);
    }
  }

  // ----- realloc

  function Copied(mem: seq<Byte>, dst: nat, src: nat, n: nat): (r: seq<Byte>)
    requires dst + n <= |mem| && src + n <= |mem|
    ensures |r| == |mem| && forall x | 0 <= x < |mem| :: r[x] == if dst <= x < dst + n then mem[src + (x - dst)] else mem[x]
  {
    mem[..dst] + mem[src..src + n] + mem[dst + n..]
  }

  function Least(a: int, b: int): int { if a < b then a else b }

  /** A request that does not wrap around, or a block that fits in the single page it gets if it does. */
  predicate Fitting(st: State, b: nat, size: nat)
  {
    size <= SIZE_MAX && (Bounded(size) || Capacity(st, b) <= PGSIZE - HEADER)
  }

  /** realloc of a live block to size > 0, with no other call in between. */
  ghost function Realloc(st: State, b: nat, size: nat): (Option<nat>, State)
    requires Inv(st) && b in st.live && size > 0 && Fitting(st, b, size)
  {
    var (c, st1) := Malloc(st, size);
    if c.None? then (None, st)
    else
      ReallocFits(st, b, c.value, st1, size);
      (c, Free(AfterCopy(st1, c.value, b, Least(size, Capacity(st1, b))), b))
  }

  function AfterCopy(st: State, c: nat, b: nat, n: nat): State
    requires c + n <= |st.mem| && b + n <= |st.mem|
  {
    st.(mem := Copied(st.mem, c, b, n))
  }

  lemma ReallocFits(st: State, b: nat, c: nat, st1: State, size: nat)
    requires Inv(st) && b in st.live && size > 0 && Fitting(st, b, size) && Malloc(st, size) == (Some(c), st1)
    ensures Inv(st1) && b in st1.live && c in st1.live && b != c && st1.mem == st.mem && st1.live[c] == size
    ensures var n := Least(size, Capacity(st1, b));
      && 0 <= n <= Capacity(st1, c) && c + n <= |st1.mem| && b + n <= |st1.mem| && InHeap(AfterCopy(st1, c, b, n), b)
  {
    MallocKeeps(st, size);
    MallocGives(st, size);
    LiveBlock(st, b);
    MallocArenas(st, size, PageOf(b));
    LiveBlock(st1, b);
    LiveBlock(st1, c);
    LiveInHeap(st1, b);
  }

  /** The bytes to copy fit into the new block exactly if the request does not wrap around or the old
      block fits into a page. */
  lemma CopyFitsIff(st: State, b: nat, size: nat)
    requires Inv(st) && b in st.live && 0 < size <= SIZE_MAX && Malloc(st, size).0.Some?
    ensures var (c, st1) := Malloc(st, size);
      Least(size, Capacity(st1, b)) <= Capacity(st1, c.value) <==> Fitting(st, b, size)
  {
    MallocKeeps(st, size);
    MallocGives(st, size);
    MallocKeepsCapacity(st, b, size);
    NewCapacity(Malloc(st, size).1, Malloc(st, size).0.value, size);
  }

  lemma NewCapacity(st: State, c: nat, size: nat)
    requires Inv(st) && c in st.live && st.live[c] == size
    ensures Bounded(size) ==> size <= Capacity(st, c)
    ensures !Bounded(size) ==> Capacity(st, c) == PGSIZE - HEADER
  {
    LiveBlock(st, c);
  }

  lemma WriteKeeps(st: State, mem: seq<Byte>)
    requires Inv(st) && |mem| == |st.mem|
    ensures Inv(st.(mem := mem))
  {
    var st' := st.(mem := mem);
    assert SameShape(st, st');
    ShapeKeepsPages(st, st');
    assert FreeInv(st') by {
      assert forall e: nat, a: nat | e < DESC_CNT :: InArena(st', e, a) <==> InArena(st, e, a);
    }
    forall q | q in st'.arenas ensures Counted(st', q, false) {
      assert Counted(st, q, false);
      if st.arenas[q].Small? {
        assert FreeSlots(st', q) == FreeSlots(st, q);
      }
    }
  }

  /** malloc changes no arena but for its free count. */
  lemma MallocArenas(st: State, size: nat, q: nat)
    requires Inv(st) && size <= SIZE_MAX && q in st.arenas
    ensures var st1 := Malloc(st, size).1;
      && q in st1.arenas && Cnt(st1.arenas[q]) == Cnt(st.arenas[q]) && st1.arenas[q].Small? == st.arenas[q].Small?
      && (st.arenas[q].Small? ==> st1.arenas[q].desc == st.arenas[q].desc)
  {
    var d := DescFor(size);
    if size > 0 {
      if d == DESC_CNT {
        var r := FirstClear(st.used, RequestPages(size));
        if RequestPages(size) != 0 && r.Some? {
          ClearPageIsFree(st, r.value);
        }
      } else if st.free[d] != [] {
        PopUnfolds(st, d, size, {});
      } else {
        var r := FirstClear(st.used, 1);
        if r.Some? {
          ClearPageIsFree(st, r.value);
          AddArenaKeeps(st, d, r.value);
          PopUnfolds(AddArena(st, d, r.value), d, size, {r.value});
        }
      }
    }
  }

  /** Capacities do not change while a block is live. */
  lemma MallocKeepsCapacity(st: State, b: nat, size: nat)
    requires Inv(st) && b in st.live && size <= SIZE_MAX
    ensures Capacity(Malloc(st, size).1, b) == Capacity(st, b)
  {
    LiveBlock(st, b);
    MallocArenas(st, size, PageOf(b));
  }

  /** A copy into live block c leaves the other live blocks alone. */
  lemma CopyMisses(st: State, a: nat, c: nat, b: nat, n: nat)
    requires Inv(st) && a in st.live && c in st.live && a != c && b + n <= |st.mem|
    requires n <= Capacity(st, c) && c + n <= |st.mem|
    ensures BlockSame(st, AfterCopy(st, c, b, n), a)
  {
    LiveApart(st, a, c);
    CopiedElsewhere(st, c, b, n);
    forall x | Within(st, a, x) ensures ByteAt(AfterCopy(st, c, b, n), x) == ByteAt(st, x) {
      assert !Within(st, c, x);
    }
  }

  lemma CopiedElsewhere(st: State, c: nat, b: nat, n: nat)
    requires c + n <= |st.mem| && b + n <= |st.mem|
    ensures forall x | !(c <= x < c + n) :: ByteAt(AfterCopy(st, c, b, n), x) == ByteAt(st, x)
  {
  }

  /** The bytes that realloc must carry over from b to c have arrived. */
  ghost predicate CopyKept(st: State, st': State, b: nat, c: nat, n: int)
  {
    forall x | b <= x < b + n :: ByteAt(st', x - b + c) == ByteAt(st, x)
  }

  lemma CopyThenFree(st: State, c: nat, b: nat, n: nat, a: nat)
    requires Inv(st) && b in st.live && c in st.live && b != c && n <= Capacity(st, c) && a in st.live && a != b && a != c
    requires c + n <= |st.mem| && b + n <= |st.mem| && InHeap(AfterCopy(st, c, b, n), b)
    ensures BlockSame(st, Free(AfterCopy(st, c, b, n), b), a)
  {
    var st2 := AfterCopy(st, c, b, n);
    CopyMisses(st, a, c, b, n);
    WriteKeeps(st, st2.mem);
    FreeKeepsBytes(st2, b);
    assert BlockSame(st2, Free(st2, b), a);
  }

  lemma CopyArrives(st: State, c: nat, b: nat, n: nat)
    requires Inv(st) && b in st.live && c in st.live && b != c && n <= Capacity(st, c)
    requires c + n <= |st.mem| && b + n <= |st.mem| && InHeap(AfterCopy(st, c, b, n), b)
    ensures CopyKept(st, Free(AfterCopy(st, c, b, n), b), b, c, n)
  {
    var st2 := AfterCopy(st, c, b, n);
    WriteKeeps(st, st2.mem);
    FreeKeepsBytes(st2, b);
    assert BlockSame(st2, Free(st2, b), c);
    CopiedBytes(st, c, b, n);
    forall x | b <= x < b + n ensures ByteAt(Free(st2, b), x - b + c) == ByteAt(st, x) {
      var y := x - b + c;
      assert Within(st2, c, y);
    }
  }

  lemma CopiedBytes(st: State, c: nat, b: nat, n: nat)
    requires c + n <= |st.mem| && b + n <= |st.mem|
    ensures CopyKept(st, AfterCopy(st, c, b, n), b, c, n)
  {
  }

  /** What the copy and the free do, once the new block c is there. */
  ghost predicate Moved(st: State, st': State, c: nat, b: nat, n: int)
  {
    && Inv(st') && st'.live == st.live - {b} && st'.other == st.other && CopyKept(st, st', b, c, n)
    && forall a | a in st.live && a != b && a != c :: BlockSame(st, st', a)
  }

  lemma CopyAndFree(st: State, c: nat, b: nat, n: nat)
    requires Inv(st) && b in st.live && c in st.live && b != c && n <= Capacity(st, c)
    requires c + n <= |st.mem| && b + n <= |st.mem| && InHeap(AfterCopy(st, c, b, n), b)
    ensures Moved(st, Free(AfterCopy(st, c, b, n), b), c, b, n)
  {
    var st2 := AfterCopy(st, c, b, n);
    WriteKeeps(st, st2.mem);
    FreeKeeps(st2, b);
    FreeKeepsBytes(st2, b);
    CopyArrives(st, c, b, n);
    forall a | a in st.live && a != b && a != c ensures BlockSame(st, Free(st2, b), a) {
      CopyThenFree(st, c, b, n, a);
    }
  }

  lemma ReallocMoves(st: State, b: nat, size: nat)
    requires Inv(st) && b in st.live && size > 0 && Fitting(st, b, size) && Malloc(st, size).0.Some?
    ensures var (c, st1) := Malloc(st, size);
      Realloc(st, b, size).0 == c && Moved(st1, Realloc(st, b, size).1, c.value, b, Least(size, Capacity(st, b)))
  {
    var (c, st1) := Malloc(st, size);
    ReallocFits(st, b, c.value, st1, size);
    MallocKeepsCapacity(st, b, size);
    CopyAndFree(st1, c.value, b, Least(size, Capacity(st1, b)));
  }

  lemma MallocKeepsCapacities(st: State, size: nat)
    requires Inv(st) && size <= SIZE_MAX
    ensures SameCapacities(st, Malloc(st, size).1)
  {
    forall a | a in st.live ensures Capacity(Malloc(st, size).1, a) == Capacity(st, a) {
      MallocKeepsCapacity(st, a, size);
    }
  }

  ghost predicate SameCapacities(st: State, st': State)
  {
    forall a | a in st.live :: Capacity(st', a) == Capacity(st, a)
  }

  lemma MovedSince(st: State, st1: State, st': State, c: nat, b: nat, n: int, size: nat)
    requires SameCapacities(st, st1) && c !in st.live && st1.live == st.live[c := size] && st1.mem == st.mem
    requires CopyKept(st1, st', b, c, n) && forall a | a in st1.live && a != b && a != c :: BlockSame(st1, st', a)
    ensures CopyKept(st, st', b, c, n) && forall a | a in st.live && a != b :: BlockSame(st, st', a)
  {
    forall x ensures ByteAt(st1, x) == ByteAt(st, x) {
    }
    forall x | b <= x < b + n ensures ByteAt(st', x - b + c) == ByteAt(st, x) {
      assert ByteAt(st1, x) == ByteAt(st, x);
    }
    forall a | a in st.live && a != b ensures BlockSame(st, st', a) {
      assert BlockSame(st1, st', a);
    }
  }

  /** realloc keeps the first min(new size, old capacity) bytes and every other live block; when it
      fails it changes nothing. */
  lemma ReallocKeepsBytes(st: State, b: nat, size: nat)
    requires Inv(st) && b in st.live && size > 0 && Fitting(st, b, size)
    ensures var (c, st') := Realloc(st, b, size);
      && Inv(st') && st'.other == st.other
      && (c.None? ==> st' == st)
      && (c.Some? ==>
            && c.value !in st.live && st'.live == st.live[c.value := size] - {b}
            && (forall a | a in st.live && a != b :: BlockSame(st, st', a))
            && CopyKept(st, st', b, c.value, Least(size, Capacity(st, b))))
  {
    MallocGives(st, size);
    if Malloc(st, size).0.Some? {
      ReallocMoves(st, b, size);
      MallocKeepsCapacities(st, size);
      MovedSince(st, Malloc(st, size).1, Realloc(st, b, size).1, Malloc(st, size).0.value, b, Least(size, Capacity(st, b)), size);
    }
  }
}
