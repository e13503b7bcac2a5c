/** malloc, free and realloc as they update descriptors, arenas and memory in place.  Every method is
    proved to have exactly the effect of its function in Heap (Project2/src/threads/malloc.c,
    Project2/src/threads/palloc.c). */
module HeapCode {
  import opened Disk
  import opened Bitmap
  import opened Sequences
  import opened Heap
  import opened HeapInvariants
  import opened HeapMain
  import opened HeapRuns

  class Allocator {
    /** used_map of the kernel pool and its memory. */
    var used: seq<bool>
    const mem: array<Byte>
    /** Arena headers by page, and the free lists of the descriptors. */
    var arenas: map<nat, Arena>
    var free: seq<seq<nat>>
    /** What the callers hold. */
    ghost var live: map<nat, nat>
    ghost var other: set<nat>

    ghost function Abs(): State
      reads this, mem
    {
      State(used, arenas, free, mem[..], live, other)
    }

    constructor (pages: nat)
      ensures |used| == pages && mem.Length == PGSIZE * pages && fresh(mem)
      ensures Abs() == Boot(mem[..])
    {
      mem := new Byte[PGSIZE * pages](_ => 0);
      used, arenas, free, live, other := seq(pages, _ => false), map[], seq(DESC_CNT, _ => []), map[], {};
      new;
      assert |mem[..]| / PGSIZE == pages;
    }

    // ----- palloc.c

    method PallocGetMultiple(cnt: nat) returns (q: Option<nat>)
      modifies this`used
      ensures q == if cnt == 0 then None else FirstClear(old(used), cnt)
      ensures used == if q.Some? then SetRun(old(used), q.value, cnt, true) else old(used)
    {
      if cnt == 0 {
        return None;
      }
      q, used := ScanAndFlip(used, cnt);
    }

    method Memset(a: nat, v: Byte, n: nat)
      requires a + n <= mem.Length
      modifies mem
      ensures mem[..] == Fill(old(mem[..]), a, n, v)
    {
      for i := 0 to n
        invariant forall x | 0 <= x < mem.Length :: mem[x] == if a <= x < a + i then v else old(mem[x])
      {
        mem[a + i] := v;
      }
    }

    method Memcpy(dst: nat, src: nat, n: nat)
      requires dst + n <= mem.Length && src + n <= mem.Length && (dst + n <= src || src + n <= dst)
      modifies mem
      ensures mem[..] == Copied(old(mem[..]), dst, src, n)
    {
      for i := 0 to n
        invariant forall x | 0 <= x < mem.Length :: mem[x] == if dst <= x < dst + i then old(mem[src + (x - dst)]) else old(mem[x])
      {
        mem[dst + i] := mem[src + i];
      }
    }

    /** The precondition is the assertion bitmap_all. */
    method PallocFreeMultiple(q: nat, cnt: nat)
      requires Bitmap.Run(used, q, cnt, true) && mem.Length == PGSIZE * |used|
      modifies this`used, mem
      ensures used == SetRun(old(used), q, cnt, false) && mem[..] == Fill(old(mem[..]), q * PGSIZE, cnt * PGSIZE, 0xcc)
    {
      Memset(q * PGSIZE, 0xcc, cnt * PGSIZE);
      used := SetRun(used, q, cnt, false);
    }

    // ----- malloc.c

    method FindDesc(size: nat) returns (d: nat)
      ensures d == DescFor(size)
    {
      d := 0;
      while d < DESC_CNT && !(Size(d) >= size)
        invariant 0 <= d <= DESC_CNT && forall e | 0 <= e < d :: Size(e) < size
      {
        d := d + 1;
      }
    }

    /** A new arena at page q: its blocks go to the end of the free list one by one. */
    method InitArena(d: nat, q: nat)
      requires d < DESC_CNT == |free|
      modifies this`arenas, this`free
      ensures arenas == old(arenas)[q := Small(d, Per(d))]
      ensures free == old(free)[d := old(free)[d] + Blocks(q, d)]
    {
      arenas := arenas[q := Small(d, Per(d))];
      ghost var list, bs := free[d], Blocks(q, d);
      assert list + bs[..0] == list;
      for i := 0 to Per(d)
        invariant arenas == old(arenas)[q := Small(d, Per(d))]
        invariant free == old(free)[d := list + bs[..i]]
      {
        assert list + bs[..i] + [Block(q, d, i)] == list + bs[..i + 1];
        free := free[d := free[d] + [Block(q, d, i)]];
      }
      assert bs[..Per(d)] == bs;
    }

    /** The first block of the free list, with its arena's count lowered. */
    method TakeFirst(d: nat, size: nat, ghost spare: set<nat>) returns (b: nat)
      requires d < DESC_CNT && FreeInv(Abs()) && CountInv(Abs(), spare) && free[d] != []
      modifies this`arenas, this`free, this`live
      ensures b == old(free)[d][0] && Abs() == PopFree(old(Abs()), d, size)
    {
      PopUnfolds(Abs(), d, size, spare);
      b := free[d][0];
      free := free[d := free[d][1..]];
      var q := PageOf(b);
      arenas := arenas[q := Small(d, arenas[q].freeCnt - 1)];
      live := live[b := size];
    }

    method Malloc(size: nat) returns (b: Option<nat>)
      requires Inv(Abs()) && size <= SIZE_MAX
      modifies this`used, this`arenas, this`free, this`live
      ensures Inv(Abs()) && Abs() == Heap.Malloc(old(Abs()), size).1 && b == Heap.Malloc(old(Abs()), size).0
    {
      MallocKeeps(Abs(), size);
      if size == 0 {
        return None;
      }
      var d := FindDesc(size);
      if d == DESC_CNT {
        b := MallocPages(size);
      } else {
        b := MallocBlock(d, size);
      }
    }

    method MallocPages(size: nat) returns (b: Option<nat>)
      modifies this`used, this`arenas, this`live
      ensures Abs() == MallocBig(old(Abs()), size).1 && b == MallocBig(old(Abs()), size).0
    {
      var page_cnt := RequestPages(size);
      var a := PallocGetMultiple(page_cnt);
      if a.None? {
        return None;
      }
      arenas := arenas[a.value := Big(page_cnt)];
      b := Some(a.value * PGSIZE + HEADER);
      live := live[b.value := size];
    }

    method MallocBlock(d: nat, size: nat) returns (b: Option<nat>)
      requires Inv(Abs()) && 0 < size && d == DescFor(size) < DESC_CNT
      modifies this`used, this`arenas, this`free, this`live
      ensures Abs() == Heap.Malloc(old(Abs()), size).1 && b == Heap.Malloc(old(Abs()), size).0
    {
      ghost var st := Abs();
      if free[d] == [] {
        var a := PallocGetMultiple(1);
        if a.None? {
          return None;
        }
        AddArenaKeeps(st, d, a.value);
        FreshBlocks(st, d, a.value);
        InitArena(d, a.value);
        assert Abs() == AddArena(st, d, a.value);
        var first := TakeFirst(d, size, {a.value});
        return Some(first);
      }
      var first := TakeFirst(d, size, {});
      b := Some(first);
    }

    /** A block is cleared and goes to the front of its free list. */
    method PushBlock(b: nat)
      requires InHeap(Abs(), b) && arenas[PageOf(b)].Small?
      modifies this`arenas, this`free, this`live, mem
      ensures Abs() == PushFree(old(Abs()), b)
    {
      var q := PageOf(b);
      var d := arenas[q].desc;
      Memset(b, 0xcc, Size(d));
      free := free[d := [b] + free[d]];
      arenas := arenas[q := Small(d, arenas[q].freeCnt + 1)];
      live := live - {b};
    }

    /** list_remove of every block of an arena. */
    method DelistBlocks(q: nat, d: nat)
      requires d < DESC_CNT == |free| && Listed(free[d], q, d)
      modifies this`free
      ensures free == old(free)[d := Elsewhere(old(free)[d], q)]
    {
      ghost var list := free[d];
      DropsNothing(list, q, d);
      for i := 0 to Per(d)
        invariant free == old(free)[d := Dropping(list, q, d, i)]
      {
        DropsOne(list, q, d, i);
        free := free[d := RemoveElem(free[d], Block(q, d, i))];
      }
      DropsAll(list, q, d);
    }

    /** An entirely unused arena goes back to the page allocator. */
    method GiveBackArena(q: nat)
      requires q in arenas && arenas[q].Small? && arenas[q].desc < DESC_CNT == |free| && Listed(free[arenas[q].desc], q, arenas[q].desc)
      requires q < |used| && used[q] && mem.Length == PGSIZE * |used|
      modifies this`used, this`arenas, this`free, mem
      ensures Abs() == DropArena(old(Abs()), q)
    {
      DelistBlocks(q, arenas[q].desc);
      PallocFreeMultiple(q, 1);
      arenas := arenas - {q};
    }

    method FreePagesOf(b: nat)
      requires InHeap(Abs(), b) && arenas[PageOf(b)].Big? && Bitmap.Run(used, PageOf(b), arenas[PageOf(b)].pages, true)
      modifies this`used, this`arenas, this`live, mem
      ensures Abs() == FreeBig(old(Abs()), b)
    {
      var q := PageOf(b);
      PallocFreeMultiple(q, arenas[q].pages);
      arenas := arenas - {q};
      live := live - {b};
    }

    method FreeBlock(b: nat)
      requires Inv(Abs()) && b in live && PageOf(b) in arenas && arenas[PageOf(b)].Small?
      modifies this`used, this`arenas, this`free, this`live, mem
      ensures InHeap(old(Abs()), b) && Abs() == Heap.Free(old(Abs()), b)
    {
      PushFreeKeeps(Abs(), b);
      var q := PageOf(b);
      PushBlock(b);
      if arenas[q].freeCnt >= Per(arenas[q].desc) {
        DropIsReady(Abs(), q);
        GiveBackArena(q);
      }
    }

    /** free of a live block; a null pointer is ignored by the source. */
    method Free(b: nat)
      requires Inv(Abs()) && b in live
      modifies this`used, this`arenas, this`free, this`live, mem
      ensures InHeap(old(Abs()), b) && Abs() == Heap.Free(old(Abs()), b) && Inv(Abs())
    {
      FreeKeeps(Abs(), b);
      var a := PageOf(b);
      if arenas[a].Small? {
        FreeBlock(b);
      } else {
        PagesUsed(Abs(), a);
        FreePagesOf(b);
      }
    }

    /** realloc, without other threads: see HeapRuns.ReallocAmongOthers.  A null pointer is None. */
    method Realloc(b: Option<nat>, size: nat) returns (c: Option<nat>)
      requires Inv(Abs()) && size <= SIZE_MAX
      requires b.Some? ==> b.value in live && (size > 0 ==> Fitting(Abs(), b.value, size))
      modifies this`used, this`arenas, this`free, this`live, mem
      ensures Inv(Abs()) && (size == 0 ==> c == None)
      ensures size == 0 && b.None? ==> Abs() == old(Abs())
      ensures size == 0 && b.Some? ==> InHeap(old(Abs()), b.value) && Abs() == Heap.Free(old(Abs()), b.value)
      ensures size > 0 && b.None? ==> (c, Abs()) == Heap.Malloc(old(Abs()), size)
      ensures size > 0 && b.Some? ==> (c, Abs()) == HeapMain.Realloc(old(Abs()), b.value, size)
    {
      if size == 0 {
        if b.Some? {
          Free(b.value);
        }
        c := None;
      } else if b.None? {
        c := Malloc(size);
      } else {
        c := MoveBlock(b.value, size);
      }
    }

    method MoveBlock(b: nat, size: nat) returns (c: Option<nat>)
      requires Inv(Abs()) && b in live && size > 0 && Fitting(Abs(), b, size)
      modifies this`used, this`arenas, this`free, this`live, mem
      ensures Inv(Abs()) && (c, Abs()) == HeapMain.Realloc(old(Abs()), b, size)
    {
      ghost var st := Abs();
      ReallocKeepsBytes(st, b, size);
      c := Malloc(size);
      if c.Some? {
        ReallocFits(st, b, c.value, Abs(), size);
        CopyBlock(b, c.value, size);
        Free(b);
      }
    }

    /** The memcpy of realloc. */
    method CopyBlock(b: nat, c: nat, size: nat)
      requires Inv(Abs()) && b in live && c in live && b != c
      requires var n := Least(size, Capacity(Abs(), b)); 0 <= n <= Capacity(Abs(), c) && c + n <= mem.Length && b + n <= mem.Length
      modifies mem
      ensures Inv(Abs()) && Abs() == AfterCopy(old(Abs()), c, b, Least(size, Capacity(old(Abs()), b)))
    {
      ghost var st := Abs();
      LiveApart(st, b, c);
      var min_size := Least(size, BlockSize(b));
      NoOverlap(st, b, c, min_size);
      Memcpy(c, b, min_size);
      WriteKeeps(st, mem[..]);
    }

    function BlockSize(b: nat): (n: int)
      reads this, mem
      ensures n == Capacity(Abs(), b)
    {
      var q := PageOf(b);
      if q !in arenas then 0
      else if arenas[q].Big? then PGSIZE * arenas[q].pages - b % PGSIZE
      else if arenas[q].desc < DESC_CNT then Size(arenas[q].desc) else 0
    }
  }

  lemma NoOverlap(st: State, b: nat, c: nat, n: nat)
    requires n <= Capacity(st, b) && n <= Capacity(st, c) && forall x | Within(st, b, x) :: !Within(st, c, x)
    ensures c + n <= b || b + n <= c
  {
    if n > 0 {
      assert Within(st, b, b) && Within(st, c, c);
      assert b <= c ==> Within(st, b, c) || b + n <= c;
      assert c <= b ==> Within(st, c, b) || c + n <= b;
    }
  }

  // ----- list_remove of all blocks of an arena

  function RemoveElem(s: seq<nat>, x: nat): seq<nat>
  {
    if s == [] then [] else if s[0] == x then s[1..] else [s[0]] + RemoveElem(s[1..], x)
  }

  /** a is one of the first n blocks of the arena at q. */
  predicate Among(a: nat, q: nat, d: nat, n: nat)
    requires d < DESC_CNT
  {
    exists j :: 0 <= j < n && a == Block(q, d, j)
  }

  /** What is left of a list without the first n blocks of the arena at q. */
  function Dropping(s: seq<nat>, q: nat, d: nat, n: nat): seq<nat>
    requires d < DESC_CNT
  {
    if s == [] then [] else (if Among(s[0], q, d, n) then [] else [s[0]]) + Dropping(s[1..], q, d, n)
  }

  lemma {:induction false} DropsNothing(s: seq<nat>, q: nat, d: nat)
    requires d < DESC_CNT
    ensures Dropping(s, q, d, 0) == s
  {
    if s != [] {
      DropsNothing(s[1..], q, d);
    }
  }

  lemma AmongNext(a: nat, q: nat, d: nat, i: nat)
    requires d < DESC_CNT
    ensures Among(a, q, d, i + 1) <==> Among(a, q, d, i) || a == Block(q, d, i)
  {
    if Among(a, q, d, i + 1) {
      var j :| 0 <= j < i + 1 && a == Block(q, d, j);
    }
    if a == Block(q, d, i) {
      assert 0 <= i < i + 1;
    }
    if Among(a, q, d, i) {
      var j :| 0 <= j < i && a == Block(q, d, j);
      assert 0 <= j < i + 1;
    }
  }

  lemma {:induction false} DropsSame(s: seq<nat>, q: nat, d: nat, i: nat)
    requires d < DESC_CNT && Block(q, d, i) !in s
    ensures Dropping(s, q, d, i + 1) == Dropping(s, q, d, i)
  {
    if s != [] {
      assert s[0] in s;
      AmongNext(s[0], q, d, i);
      DropsSame(s[1..], q, d, i);
    }
  }

  lemma FirstBlocksDiffer(q: nat, d: nat, i: nat)
    requires d < DESC_CNT
    ensures !Among(Block(q, d, i), q, d, i)
  {
    forall j | 0 <= j < i ensures Block(q, d, i) != Block(q, d, j) {
      BlocksApart(q, d, j, i);
    }
  }

  lemma {:induction false} DropsOne(s: seq<nat>, q: nat, d: nat, i: nat)
    requires d < DESC_CNT && Distinct(s) && Block(q, d, i) in s
    ensures Dropping(s, q, d, i + 1) == RemoveElem(Dropping(s, q, d, i), Block(q, d, i))
  {
    var x := Block(q, d, i);
    AmongNext(s[0], q, d, i);
    FirstIsNew(s);
    FirstBlocksDiffer(q, d, i);
    if s[0] == x {
      DropsSame(s[1..], q, d, i);
      assert Dropping(s, q, d, i) == [x] + Dropping(s[1..], q, d, i);
    } else {
      assert x in s[1..];
      DropsOne(s[1..], q, d, i);
      var rest := Dropping(s[1..], q, d, i);
      if Among(s[0], q, d, i) {
        assert Dropping(s, q, d, i) == rest;
        assert Dropping(s, q, d, i + 1) == Dropping(s[1..], q, d, i + 1);
      } else {
        assert Dropping(s, q, d, i) == [s[0]] + rest;
        assert ([s[0]] + rest)[1..] == rest;
      }
    }
  }

  /** Among a descriptor's free blocks, those on page q are the blocks of the arena there. */
  lemma {:induction false} DropsAllOf(s: seq<nat>, q: nat, d: nat)
    requires d < DESC_CNT && forall a | a in s :: IsBlock(d, a % PGSIZE)
    ensures Dropping(s, q, d, Per(d)) == Elsewhere(s, q)
  {
    if s != [] {
      assert s[0] in s;
      BlockAgain(d, s[0]);
      forall j | 0 <= j < Per(d) && s[0] == Block(q, d, j) ensures PageOf(s[0]) == q {
        BlockInverse(q, d, j);
      }
      assert Among(s[0], q, d, Per(d)) <==> PageOf(s[0]) == q;
      DropsAllOf(s[1..], q, d);
    }
  }

  lemma DropsAll(s: seq<nat>, q: nat, d: nat)
    requires d < DESC_CNT && forall a | a in s :: IsBlock(d, a % PGSIZE)
    ensures Dropping(s, q, d, Per(d)) == Elsewhere(s, q)
  {
    DropsAllOf(s, q, d);
  }

  /** A free list that has every block of the arena at q, once. */
  ghost predicate Listed(s: seq<nat>, q: nat, d: nat)
    requires d < DESC_CNT
  {
    && Distinct(s) && (forall a | a in s :: IsBlock(d, a % PGSIZE))
    && forall i | 0 <= i < Per(d) :: Block(q, d, i) in s
  }

  /** When an arena's count is full, all its blocks are on the free list and its page is used. */
  lemma DropIsReady(st: State, q: nat)
    requires InvBut(st, {q}) && q in st.arenas && st.arenas[q].Small? && st.arenas[q].desc < DESC_CNT
    requires st.arenas[q].freeCnt >= Per(st.arenas[q].desc)
    ensures Listed(st.free[st.arenas[q].desc], q, st.arenas[q].desc) && q < |st.used| && st.used[q]
  {
    var d := st.arenas[q].desc;
    AllUnused(st, q);
    assert Owns(st, q, q);
    forall a | a in st.free[d] ensures IsBlock(d, a % PGSIZE) {
      assert InArena(st, d, a);
    }
    forall i | 0 <= i < Per(d) ensures Block(q, d, i) in st.free[d] {
      BlockInverse(q, d, i);
      assert InArena(st, d, Block(q, d, i));
    }
  }

  lemma PagesUsed(st: State, q: nat)
    requires PageInv(st) && q in st.arenas
    ensures Bitmap.Run(st.used, q, Cnt(st.arenas[q]), true)
  {
    forall x | q <= x < q + Cnt(st.arenas[q]) ensures st.used[x] {
      assert Owns(st, q, x);
    }
  }
}
