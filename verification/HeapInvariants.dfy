/** What every call of malloc, free and realloc keeps: free lists that are exactly the unused blocks
    of the live arenas, exact free counts, live blocks that are disjoint and large enough, and pages
    that belong to one arena or direct user each (Project2/src/threads/malloc.c). */
module HeapInvariants {
  import opened Disk
  import opened Bitmap
  import opened Sequences
  import opened Heap

  function UpTo(n: nat): (r: set<nat>)
    ensures forall i: nat :: i in r <==> i < n
    ensures |r| == n
  {
    if n == 0 then {} else UpTo(n - 1) + {n - 1}
  }

  lemma {:induction false} SubsetSize(a: set<nat>, b: set<nat>)
    requires a <= b
    ensures |a| <= |b| && (|a| == |b| ==> a == b)
  {
    if a != {} {
      var x :| x in a;
      SubsetSize(a - {x}, b - {x});
    }
  }

  lemma ClearPageIsFree(st: State, q: nat)
    requires PageInv(st) && LiveInv(st) && q < |st.used| && !st.used[q]
    ensures q !in st.arenas && forall a | a in st.live :: PageOf(a) != q
  {
    assert q in st.arenas ==> Owns(st, q, q);
  }

  // ----- a new arena

  lemma AddArenaPages(st: State, d: nat, q: nat)
    requires PageInv(st) && d < DESC_CNT == |st.free| && q < |st.used| && !st.used[q] && q !in st.arenas
    ensures PageInv(AddArena(st, d, q))
  {
    var st' := AddArena(st, d, q);
    forall r, x | Owns(st', r, x) ensures if r == q then x == q else Owns(st, r, x) {
    }
    forall x: nat | x < |st'.used| && st'.used[x] && x !in st'.other ensures exists r :: Owns(st', r, x) {
      if x == q {
        assert Owns(st', q, x);
      } else {
        var r :| Owns(st, r, x);
        assert Owns(st', r, x);
      }
    }
  }

  lemma BlocksAre(q: nat, d: nat)
    requires d < DESC_CNT
    ensures Distinct(Blocks(q, d))
    ensures forall a: nat :: a in Blocks(q, d) <==> PageOf(a) == q && IsBlock(d, a % PGSIZE)
  {
    var bs := Blocks(q, d);
    forall i, j | 0 <= i < j < |bs| ensures bs[i] != bs[j] {
      BlocksApart(q, d, i, j);
    }
    forall a: nat ensures a in bs <==> PageOf(a) == q && IsBlock(d, a % PGSIZE) {
      if PageOf(a) == q && IsBlock(d, a % PGSIZE) {
        BlockAgain(d, a);
        assert bs[IndexOf(d, a % PGSIZE)] == a;
      }
      if a in bs {
        var i :| 0 <= i < |bs| && bs[i] == a;
        BlockInverse(q, d, i);
      }
    }
  }

  lemma AddArenaFree(st: State, d: nat, q: nat)
    requires FreeInv(st) && d < DESC_CNT && q < |st.used| && q !in st.arenas && forall a | a in st.live :: PageOf(a) != q
    ensures FreeInv(AddArena(st, d, q))
  {
    BlocksAre(q, d);
    forall a | a in st.free[d] ensures a !in Blocks(q, d) {
      assert InArena(st, d, a);
    }
    DistinctConcat(st.free[d], Blocks(q, d));
    var st' := AddArena(st, d, q);
    forall e: nat, a: nat | e < DESC_CNT ensures a in st'.free[e] <==> InArena(st', e, a) && a !in st'.live {
      assert a in st.free[e] <==> InArena(st, e, a) && a !in st.live;
      assert e == d ==> (a in st'.free[d] <==> a in st.free[d] || a in Blocks(q, d));
    }
  }

  lemma AddArenaCounts(st: State, d: nat, q: nat)
    requires CountInv(st, {}) && d < DESC_CNT == |st.free| && q < |st.used| && q !in st.arenas
    requires forall a | a in st.live :: PageOf(a) != q
    ensures CountInv(AddArena(st, d, q), {q})
  {
    var st' := AddArena(st, d, q);
    forall r | r in st'.arenas ensures Counted(st', r, r in {q}) {
      if r == q {
        forall i | 0 <= i < Per(d) ensures Block(q, d, i) !in st.live {
          BlockInverse(q, d, i);
        }
        assert FreeSlots(st', q) == UpTo(Per(d));
      } else {
        assert Counted(st, r, false);
        if st.arenas[r].Small? {
          assert FreeSlots(st', r) == FreeSlots(st, r);
        }
      }
    }
  }

  lemma AddArenaKeeps(st: State, d: nat, q: nat)
    requires Inv(st) && d < DESC_CNT && q < |st.used| && !st.used[q]
    ensures InvBut(AddArena(st, d, q), {q})
  {
    ClearPageIsFree(st, q);
    AddArenaPages(st, d, q);
    AddArenaFree(st, d, q);
    AddArenaCounts(st, d, q);
    assert LiveInv(AddArena(st, d, q));
  }

  // ----- taking a block

  lemma SlotOf(st: State, d: nat, b: nat)
    requires d < DESC_CNT && InArena(st, d, b) && b !in st.live
    ensures IndexOf(d, b % PGSIZE) in FreeSlots(st, PageOf(b)) && Block(PageOf(b), d, IndexOf(d, b % PGSIZE)) == b
  {
    BlockAgain(d, b);
  }

  /** What PopFree does when its block is indeed a free one. */
  lemma PopUnfolds(st: State, d: nat, size: nat, spare: set<nat>)
    requires FreeInv(st) && CountInv(st, spare) && d < DESC_CNT && st.free[d] != []
    ensures var b := st.free[d][0];
      var q := PageOf(b);
      && InArena(st, d, b) && b !in st.live && st.arenas[q].freeCnt > 0
      && PopFree(st, d, size) == st.(free := st.free[d := st.free[d][1..]], live := st.live[b := size],
                                     arenas := st.arenas[q := Small(d, st.arenas[q].freeCnt - 1)])
  {
    var b := st.free[d][0];
    assert b in st.free[d];
    SlotOf(st, d, b);
    assert Counted(st, PageOf(b), PageOf(b) in spare);
  }

  /** The same arenas, but for the free count of one. */
  ghost predicate SameShape(st: State, st': State)
  {
    && st'.arenas.Keys == st.arenas.Keys && st'.used == st.used && st'.other == st.other && |st'.mem| == |st.mem|
    && forall q | q in st.arenas ::
         if st.arenas[q].Small? then st'.arenas[q].Small? && st'.arenas[q].desc == st.arenas[q].desc
         else st'.arenas[q] == st.arenas[q]
  }

  lemma ShapeKeepsPages(st: State, st': State)
    requires PageInv(st) && SameShape(st, st')
    ensures PageInv(st')
  {
    forall q, x ensures Owns(st', q, x) <==> Owns(st, q, x) {
    }
    forall x: nat | x < |st'.used| && st'.used[x] && x !in st'.other ensures exists q :: Owns(st', q, x) {
      var q :| Owns(st, q, x);
      assert Owns(st', q, x);
    }
  }

  lemma PopFreeLists(st: State, st': State, d: nat, b: nat)
    requires FreeInv(st) && SameShape(st, st') && d < DESC_CNT && st.free[d] != [] && b == st.free[d][0]
    requires st'.free == st.free[d := st.free[d][1..]] && st'.live.Keys == st.live.Keys + {b} && InArena(st, d, b)
    ensures FreeInv(st')
  {
    assert st.free[d] == [b] + st.free[d][1..];
    assert forall e: nat, a: nat | e < DESC_CNT :: InArena(st', e, a) <==> InArena(st, e, a);
  }

  lemma PopFreeCounts(st: State, st': State, d: nat, b: nat, spare: set<nat>)
    requires CountInv(st, spare) && d < DESC_CNT && InArena(st, d, b) && b !in st.live && spare <= {PageOf(b)}
    requires st'.live.Keys == st.live.Keys + {b} && st.arenas[PageOf(b)].freeCnt > 0
    requires st'.arenas == st.arenas[PageOf(b) := Small(d, st.arenas[PageOf(b)].freeCnt - 1)]
    ensures CountInv(st', {})
  {
    var q := PageOf(b);
    SlotOf(st, d, b);
    forall r | r in st'.arenas ensures Counted(st', r, false) {
      assert Counted(st, r, r in spare);
      if r == q {
        var i := IndexOf(d, b % PGSIZE);
        SlotsApart(st, q, b, i);
        assert FreeSlots(st', q) == FreeSlots(st, q) - {i};
        SubsetSize(FreeSlots(st, q), UpTo(Per(d)));
      } else if st.arenas[r].Small? {
        OtherSlots(st, r, b);
        assert FreeSlots(st', r) == FreeSlots(st, r);
      }
    }
  }

  /** Block i of arena q is b, and no other block of it is. */
  lemma SlotsApart(st: State, q: nat, b: nat, i: int)
    requires q in st.arenas && st.arenas[q].Small? && st.arenas[q].desc < DESC_CNT
    requires 0 <= i < Per(st.arenas[q].desc) && Block(q, st.arenas[q].desc, i) == b
    ensures forall j | 0 <= j < Per(st.arenas[q].desc) && Block(q, st.arenas[q].desc, j) == b :: j == i
  {
    forall j | 0 <= j < Per(st.arenas[q].desc) && Block(q, st.arenas[q].desc, j) == b ensures j == i {
      BlockInverse(q, st.arenas[q].desc, i);
      BlockInverse(q, st.arenas[q].desc, j);
    }
  }

  lemma OtherSlots(st: State, r: nat, b: nat)
    requires r in st.arenas && st.arenas[r].Small? && st.arenas[r].desc < DESC_CNT && r != PageOf(b)
    ensures forall j | 0 <= j < Per(st.arenas[r].desc) :: Block(r, st.arenas[r].desc, j) != b
  {
    forall j | 0 <= j < Per(st.arenas[r].desc) ensures Block(r, st.arenas[r].desc, j) != b {
      BlockInverse(r, st.arenas[r].desc, j);
    }
  }

  lemma PopFreeKeeps(st: State, d: nat, size: nat, spare: set<nat>)
    requires InvBut(st, spare) && d < DESC_CNT && st.free[d] != [] && spare <= {PageOf(st.free[d][0])} && size <= Size(d)
    ensures Inv(PopFree(st, d, size))
  {
    var st', b := PopFree(st, d, size), st.free[d][0];
    PopUnfolds(st, d, size, spare);
    ShapeKeepsPages(st, st');
    PopFreeLists(st, st', d, b);
    PopFreeCounts(st, st', d, b, spare);
    assert LiveInv(st');
  }

  // ----- giving a block back

  lemma LiveInHeap(st: State, b: nat)
    requires PageInv(st) && FreeInv(st) && LiveInv(st) && b in st.live
    ensures InHeap(st, b)
    ensures st.arenas[PageOf(b)].Small? ==> InArena(st, st.arenas[PageOf(b)].desc, b)
  {
    var q := PageOf(b);
    assert Sits(st.arenas[q], b, st.live[b]);
    if st.arenas[q].Small? {
      var d := st.arenas[q].desc;
      BlockAgain(d, b);
      BlockFits(d, IndexOf(d, b % PGSIZE));
      assert q * PGSIZE + PGSIZE <= |st.mem|;
    }
  }

  lemma PushFreeLists(st: State, st': State, d: nat, b: nat)
    requires FreeInv(st) && SameShape(st, st') && d < DESC_CNT && b in st.live
    requires st'.free == st.free[d := [b] + st.free[d]] && st'.live.Keys == st.live.Keys - {b} && InArena(st, d, b)
    ensures FreeInv(st')
  {
    assert b !in st.free[d];
    assert forall e: nat, a: nat | e < DESC_CNT :: InArena(st', e, a) <==> InArena(st, e, a);
  }

  lemma PushFreeCounts(st: State, st': State, d: nat, b: nat)
    requires CountInv(st, {}) && d < DESC_CNT && InArena(st, d, b) && b in st.live
    requires st'.live.Keys == st.live.Keys - {b}
    requires st'.arenas == st.arenas[PageOf(b) := Small(d, st.arenas[PageOf(b)].freeCnt + 1)]
    ensures CountInv(st', {PageOf(b)})
  {
    var q, i := PageOf(b), IndexOf(d, b % PGSIZE);
    BlockAgain(d, b);
    forall r | r in st'.arenas ensures Counted(st', r, r in {q}) {
      assert Counted(st, r, false);
      if r == q {
        SlotsApart(st, q, b, i);
        assert FreeSlots(st', q) == FreeSlots(st, q) + {i};
        assert i !in FreeSlots(st, q);
      } else if st.arenas[r].Small? {
        OtherSlots(st, r, b);
        assert FreeSlots(st', r) == FreeSlots(st, r);
      } else {
        assert r * PGSIZE + HEADER != b by { assert PageOf(r * PGSIZE + HEADER) == r; }
      }
    }
  }

  lemma PushFreeKeeps(st: State, b: nat)
    requires Inv(st) && b in st.live && st.arenas[PageOf(b)].Small?
    ensures InHeap(st, b) && InvBut(PushFree(st, b), {PageOf(b)}) && SameShape(st, PushFree(st, b))
  {
    LiveInHeap(st, b);
    PushUnfolds(st, b);
    ShapeKeepsPages(st, PushFree(st, b));
    PushFreeLists(st, PushFree(st, b), st.arenas[PageOf(b)].desc, b);
    PushFreeCounts(st, PushFree(st, b), st.arenas[PageOf(b)].desc, b);
    PushFreeLive(st, PushFree(st, b), b);
  }

  lemma PushUnfolds(st: State, b: nat)
    requires InHeap(st, b) && st.arenas[PageOf(b)].Small?
    ensures var d, st' := st.arenas[PageOf(b)].desc, PushFree(st, b);
      && SameShape(st, st') && st'.free == st.free[d := [b] + st.free[d]] && st'.live == st.live - {b}
      && st'.arenas == st.arenas[PageOf(b) := Small(d, st.arenas[PageOf(b)].freeCnt + 1)]
  {
  }

  lemma PushFreeLive(st: State, st': State, b: nat)
    requires LiveInv(st) && SameShape(st, st') && st'.live == st.live - {b}
    ensures LiveInv(st')
  {
  }

  // ----- dropping an arena

  lemma {:induction false} ElsewhereHas(s: seq<nat>, q: nat)
    ensures forall a: nat :: a in Elsewhere(s, q) <==> a in s && PageOf(a) != q
    ensures Distinct(s) ==> Distinct(Elsewhere(s, q))
  {
    if s != [] {
      ElsewhereHas(s[1..], q);
      var first := if PageOf(s[0]) == q then [] else [s[0]];
      assert s == [s[0]] + s[1..];
      assert Elsewhere(s, q) == first + Elsewhere(s[1..], q);
      if Distinct(s) {
        FirstIsNew(s);
        DistinctConcat(first, Elsewhere(s[1..], q));
      }
    }
  }

  lemma FirstIsNew(s: seq<nat>)
    requires Distinct(s) && s != []
    ensures s[0] !in s[1..] && Distinct(s[1..])
  {
  }

  /** All blocks of an arena whose count says so are unused. */
  lemma AllUnused(st: State, q: nat)
    requires CountInv(st, {q}) && LiveInv(st) && q in st.arenas && st.arenas[q].Small?
    requires st.arenas[q].freeCnt >= Per(st.arenas[q].desc)
    ensures st.arenas[q].freeCnt == Per(st.arenas[q].desc)
    ensures forall a | a in st.live :: PageOf(a) != q
  {
    var d := st.arenas[q].desc;
    assert Counted(st, q, true);
    SubsetSize(FreeSlots(st, q), UpTo(Per(d)));
    LiveSlot(st, q);
  }

  /** An arena with a live block has a slot that is not free. */
  lemma LiveSlot(st: State, q: nat)
    requires LiveInv(st) && q in st.arenas && st.arenas[q].Small? && st.arenas[q].desc < DESC_CNT
    ensures FreeSlots(st, q) == UpTo(Per(st.arenas[q].desc)) ==> forall a | a in st.live :: PageOf(a) != q
  {
    var d := st.arenas[q].desc;
    forall a | a in st.live && PageOf(a) == q ensures FreeSlots(st, q) != UpTo(Per(d)) {
      assert Sits(st.arenas[q], a, st.live[a]);
      BlockAgain(d, a);
      assert IndexOf(d, a % PGSIZE) !in FreeSlots(st, q) && IndexOf(d, a % PGSIZE) in UpTo(Per(d));
    }
  }

  lemma DropPages(st: State, st': State, q: nat)
    requires PageInv(st) && q in st.arenas && st'.arenas == st.arenas - {q} && st'.other == st.other && |st'.mem| == |st.mem|
    requires |st'.used| == |st.used|
    requires forall x | 0 <= x < |st.used| :: st'.used[x] == (st.used[x] && !Owns(st, q, x))
    ensures PageInv(st')
  {
    forall r, x | Owns(st', r, x) ensures r != q && Owns(st, r, x) {
    }
    forall x: nat | x < |st'.used| && st'.used[x] && x !in st'.other ensures exists r :: Owns(st', r, x) {
      var r :| Owns(st, r, x);
      assert Owns(st', r, x);
    }
  }

  lemma DropCounts(st: State, st': State, q: nat)
    requires CountInv(st, {q}) && st'.arenas == st.arenas - {q} && st'.live == st.live
    ensures CountInv(st', {})
  {
    forall r | r in st'.arenas ensures Counted(st', r, false) {
      assert Counted(st, r, r in {q});
      if st.arenas[r].Small? {
        assert FreeSlots(st', r) == FreeSlots(st, r);
      }
    }
  }

  lemma DropFree(st: State, st': State, d: nat, q: nat)
    requires FreeInv(st) && q in st.arenas && st.arenas[q].Small? && st.arenas[q].desc == d < DESC_CNT
    requires st'.arenas == st.arenas - {q} && st'.live == st.live && st'.free == st.free[d := Elsewhere(st.free[d], q)]
    ensures FreeInv(st')
  {
    ElsewhereHas(st.free[d], q);
    forall e: nat, a: nat | e < DESC_CNT ensures a in st'.free[e] <==> InArena(st', e, a) && a !in st'.live {
      assert a in st.free[e] <==> InArena(st, e, a) && a !in st.live;
    }
  }

  lemma DropArenaKeeps(st: State, q: nat)
    requires InvBut(st, {q}) && q in st.arenas && st.arenas[q].Small? && st.arenas[q].freeCnt >= Per(st.arenas[q].desc)
    ensures q < |st.used| && Inv(DropArena(st, q))
    ensures DropArena(st, q).used == SetRun(st.used, q, 1, false)
  {
    assert Owns(st, q, q);
    var st' := DropArena(st, q);
    AllUnused(st, q);
    DropPages(st, st', q);
    DropCounts(st, st', q);
    DropFree(st, st', st.arenas[q].desc, q);
    assert LiveInv(st');
  }

  // ----- big blocks

  ghost predicate AddsBig(st: State, st': State, q: nat, pages: nat, size: nat)
    requires q + pages <= |st.used|
  {
    st' == st.(used := SetRun(st.used, q, pages, true), arenas := st.arenas[q := Big(pages)],
               live := st.live[q * PGSIZE + HEADER := size])
  }

  lemma BigPages(st: State, st': State, q: nat, pages: nat, size: nat)
    requires PageInv(st) && 0 < pages && Run(st.used, q, pages, false) && q !in st.arenas && AddsBig(st, st', q, pages, size)
    ensures PageInv(st')
  {
    forall r, x ensures Owns(st', r, x) <==> if r == q then q <= x < q + pages else Owns(st, r, x) {
    }
    forall x: nat | x < |st'.used| && st'.used[x] && x !in st'.other ensures exists r :: Owns(st', r, x) {
      if q <= x < q + pages {
        assert Owns(st', q, x);
      } else {
        var r :| Owns(st, r, x);
        assert Owns(st', r, x);
      }
    }
  }

  lemma BigCounts(st: State, st': State, q: nat, pages: nat, size: nat)
    requires CountInv(st, {}) && q + pages <= |st.used| && q !in st.arenas && AddsBig(st, st', q, pages, size)
    ensures CountInv(st', {})
  {
    var b := q * PGSIZE + HEADER;
    assert PageOf(b) == q;
    forall r | r in st'.arenas ensures Counted(st', r, false) {
      if r != q {
        assert Counted(st, r, false);
        if st.arenas[r].Small? {
          OtherSlots(st, r, b);
          assert FreeSlots(st', r) == FreeSlots(st, r);
        }
      }
    }
  }

  lemma BigFree(st: State, st': State, q: nat, pages: nat, size: nat)
    requires FreeInv(st) && q + pages <= |st.used| && q !in st.arenas && AddsBig(st, st', q, pages, size)
    ensures FreeInv(st')
  {
    assert PageOf(q * PGSIZE + HEADER) == q;
    forall e: nat, a: nat | e < DESC_CNT ensures a in st'.free[e] <==> InArena(st', e, a) && a !in st'.live {
      assert a in st.free[e] <==> InArena(st, e, a) && a !in st.live;
    }
  }

  lemma BigLive(st: State, st': State, q: nat, pages: nat, size: nat)
    requires LiveInv(st) && q + pages <= |st.used| && q !in st.arenas && AddsBig(st, st', q, pages, size)
    requires if Bounded(size) then size + HEADER <= pages * PGSIZE else pages == 1
    ensures LiveInv(st')
  {
    assert PageOf(q * PGSIZE + HEADER) == q;
  }

  lemma MallocBigKeeps(st: State, size: nat)
    requires Inv(st) && size <= SIZE_MAX
    ensures Inv(MallocBig(st, size).1)
  {
    var pages := RequestPages(size);
    var q := FirstClear(st.used, pages);
    EnoughPagesIff(size);
    if pages != 0 && q.Some? {
      ClearPageIsFree(st, q.value);
      var st' := MallocBig(st, size).1;
      BigPages(st, st', q.value, pages, size);
      BigCounts(st, st', q.value, pages, size);
      BigFree(st, st', q.value, pages, size);
      BigLive(st, st', q.value, pages, size);
    }
  }

  lemma FreeBigKeeps(st: State, b: nat)
    requires Inv(st) && b in st.live && InHeap(st, b) && st.arenas[PageOf(b)].Big?
    ensures Inv(FreeBig(st, b))
  {
    var q, st' := PageOf(b), FreeBig(st, b);
    assert b == q * PGSIZE + HEADER;
    forall a | a in st.live && PageOf(a) == q ensures a == b {
      assert Sits(st.arenas[q], a, st.live[a]);
    }
    DropPages(st, st', q);
    FreeBigCounts(st, st', b);
    FreeBigFree(st, st', b);
    assert LiveInv(st');
  }

  lemma FreeBigCounts(st: State, st': State, b: nat)
    requires CountInv(st, {}) && PageOf(b) in st.arenas && b == PageOf(b) * PGSIZE + HEADER
    requires st'.arenas == st.arenas - {PageOf(b)} && st'.live == st.live - {b}
    ensures CountInv(st', {})
  {
    forall r | r in st'.arenas ensures Counted(st', r, false) {
      assert Counted(st, r, false);
      if st.arenas[r].Small? {
        OtherSlots(st, r, b);
        assert FreeSlots(st', r) == FreeSlots(st, r);
      } else {
        assert PageOf(r * PGSIZE + HEADER) == r;
      }
    }
  }

  lemma FreeBigFree(st: State, st': State, b: nat)
    requires FreeInv(st) && PageOf(b) in st.arenas && st.arenas[PageOf(b)].Big?
    requires st'.arenas == st.arenas - {PageOf(b)} && st'.live == st.live - {b} && st'.free == st.free
    ensures FreeInv(st')
  {
    forall e: nat, a: nat | e < DESC_CNT ensures a in st'.free[e] <==> InArena(st', e, a) && a !in st'.live {
      assert a in st.free[e] <==> InArena(st, e, a) && a !in st.live;
    }
  }
}
