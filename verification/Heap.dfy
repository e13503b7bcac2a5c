/** The size-class allocator as a state machine: descriptors with free lists, one-page arenas
    divided into blocks, and big blocks of whole pages (Project2/src/threads/malloc.c, over the page
    allocator of Project2/src/threads/palloc.c).  An address is an offset into the kernel pool. */
module Heap {
  import opened Disk
  import opened Bitmap
  import opened Sequences
  import opened Nonlinear

  const PGSIZE: int := 4096
  /** sizeof (struct arena). */
  const HEADER: int := 12
  const DESC_CNT: int := 7
  const SIZE_MAX: int := 0xffff_ffff

  /** block_size of descriptor d. */
  function Size(d: nat): (s: nat)
    requires d < DESC_CNT
    ensures 16 <= s <= 1024
  {
    if d == 0 then 16 else if d == 1 then 32 else if d == 2 then 64 else if d == 3 then 128
    else if d == 4 then 256 else if d == 5 then 512 else 1024
  }

  /** blocks_per_arena of descriptor d. */
  function Per(d: nat): (n: nat)
    requires d < DESC_CNT
    ensures 3 <= n <= 255
  {
    if d == 0 then 255 else if d == 1 then 127 else if d == 2 then 63 else if d == 3 then 31
    else if d == 4 then 15 else if d == 5 then 7 else 3
  }

  /** The header of an arena: its descriptor and free blocks, or its pages if it is a big block. */
  datatype Arena = Small(desc: nat, freeCnt: nat) | Big(pages: nat)

  /** Used pages of the pool, arenas by page, free lists by descriptor, bytes; and, known only to the
      callers, the live blocks with the sizes asked for and the pages taken directly. */
  datatype State = State(used: seq<bool>, arenas: map<nat, Arena>, free: seq<seq<nat>>, mem: seq<Byte>,
                         live: map<nat, nat>, other: set<nat>)

  // ----- addresses

  function Block(q: nat, d: nat, i: nat): nat
    requires d < DESC_CNT
  {
    q * PGSIZE + HEADER + i * Size(d)
  }

  function PageOf(a: nat): nat { a / PGSIZE }

  /** The index of the block at offset `ofs` of an arena of descriptor d. */
  function IndexOf(d: nat, ofs: int): (i: int)
    requires d < DESC_CNT
    ensures ofs >= HEADER ==> i >= 0
  {
    (ofs - HEADER) / Size(d)
  }

  predicate IsBlock(d: nat, ofs: int)
    requires d < DESC_CNT
  {
    ofs >= HEADER && (ofs - HEADER) % Size(d) == 0 && IndexOf(d, ofs) < Per(d)
  }

  lemma BlockFits(d: nat, i: nat)
    requires d < DESC_CNT && i < Per(d)
    ensures HEADER <= HEADER + i * Size(d) && HEADER + i * Size(d) + Size(d) <= PGSIZE
    ensures Per(d) == (PGSIZE - HEADER) / Size(d)
  {
    assert i * Size(d) == if d == 0 then i * 16 else if d == 1 then i * 32 else if d == 2 then i * 64
      else if d == 3 then i * 128 else if d == 4 then i * 256 else if d == 5 then i * 512 else i * 1024;
  }

  /** block_to_arena undoes arena_to_block. */
  lemma BlockInverse(q: nat, d: nat, i: nat)
    requires d < DESC_CNT && i < Per(d)
    ensures PageOf(Block(q, d, i)) == q && Block(q, d, i) % PGSIZE == HEADER + i * Size(d)
    ensures IsBlock(d, Block(q, d, i) % PGSIZE) && IndexOf(d, Block(q, d, i) % PGSIZE) == i
  {
    BlockFits(d, i);
    InPage(q, HEADER + i * Size(d));
    IndexInverse(d, i);
  }

  lemma InPage(q: nat, ofs: nat)
    requires ofs < PGSIZE
    ensures (q * PGSIZE + ofs) / PGSIZE == q && (q * PGSIZE + ofs) % PGSIZE == ofs
  {
  }

  lemma IndexInverse(d: nat, i: nat)
    requires d < DESC_CNT
    ensures i * Size(d) % Size(d) == 0 && i * Size(d) / Size(d) == i
  {
    var s := Size(d);
    MulComm(i, s);
    DivIs(i * s, s, i);
    assert i * s == s * (i * s / s) + i * s % s;
  }

  lemma BlockAgain(d: nat, a: nat)
    requires d < DESC_CNT && IsBlock(d, a % PGSIZE)
    ensures Block(PageOf(a), d, IndexOf(d, a % PGSIZE)) == a
  {
    var x := a % PGSIZE - HEADER;
    assert x / Size(d) * Size(d) == x by {
      if d == 0 {} else if d == 1 {} else if d == 2 {} else if d == 3 {} else if d == 4 {} else if d == 5 {} else {}
    }
  }

  /** Two different blocks of one arena do not overlap. */
  lemma BlocksApart(q: nat, d: nat, i: nat, j: nat)
    requires d < DESC_CNT && i < j
    ensures Block(q, d, i) + Size(d) <= Block(q, d, j)
  {
    if d == 0 {} else if d == 1 {} else if d == 2 {} else if d == 3 {} else if d == 4 {} else if d == 5 {} else {}
  }

  // ----- requests

  /** The smallest descriptor whose blocks hold `size` bytes. */
  function DescFor(size: nat): (d: nat)
    ensures d <= DESC_CNT && (d < DESC_CNT ==> size <= Size(d)) && forall e | 0 <= e < d :: Size(e) < size
    ensures d == DESC_CNT <==> size > 1024
  {
    if size <= 16 then 0 else if size <= 32 then 1 else if size <= 64 then 2 else if size <= 128 then 3
    else if size <= 256 then 4 else if size <= 512 then 5 else if size <= 1024 then 6 else 7
  }

  /** DIV_ROUND_UP (size + sizeof (struct arena), PGSIZE) in 32-bit arithmetic. */
  function RequestPages(size: nat): nat
  {
    (size + HEADER + PGSIZE - 1) % 0x1_0000_0000 / PGSIZE
  }

  /** Requests that the 32-bit sum with the arena header does not spoil. */
  predicate Bounded(size: nat) { size <= SIZE_MAX - 11 }

  /** A big block is large enough, or refused, exactly for requests whose sum with the header does
      not wrap around to a positive number of pages; the others get a single page. */
  lemma EnoughPagesIff(size: nat)
    requires size <= SIZE_MAX
    ensures RequestPages(size) == 0 || size + HEADER <= RequestPages(size) * PGSIZE <==> Bounded(size)
    ensures !Bounded(size) ==> RequestPages(size) == 1
  {
  }

  // ----- the invariant

  function Cnt(a: Arena): nat { if a.Small? then 1 else a.pages }

  predicate Owns(st: State, q: nat, x: int)
  {
    q in st.arenas && q <= x < q + Cnt(st.arenas[q])
  }

  /** Arenas and direct page users own the used pages, each page once. */
  ghost predicate PageInv(st: State)
  {
    && |st.mem| == PGSIZE * |st.used|
    && (forall q | q in st.arenas :: 0 < Cnt(st.arenas[q]) && q + Cnt(st.arenas[q]) <= |st.used|
                                     && (st.arenas[q].Small? ==> st.arenas[q].desc < DESC_CNT))
    && (forall q, x {:trigger Owns(st, q, x)} | Owns(st, q, x) :: st.used[x] && x !in st.other)
    && (forall q, r, x {:trigger Owns(st, q, x), Owns(st, r, x)} | Owns(st, q, x) && Owns(st, r, x) :: q == r)
    && (forall x | x in st.other :: x < |st.used| && st.used[x])
    && forall x: nat | x < |st.used| && st.used[x] && x !in st.other :: exists q :: Owns(st, q, x)
  }

  /** Address a is a block of a live arena of descriptor d. */
  predicate InArena(st: State, d: nat, a: nat)
    requires d < DESC_CNT
  {
    var q := PageOf(a);
    q in st.arenas && st.arenas[q].Small? && st.arenas[q].desc == d && IsBlock(d, a % PGSIZE)
  }

  /** Each free list holds exactly the unused blocks of its descriptor's arenas, each once. */
  ghost predicate FreeInv(st: State)
  {
    && |st.free| == DESC_CNT
    && (forall d | 0 <= d < DESC_CNT :: Distinct(st.free[d]))
    && forall d: nat, a: nat | d < DESC_CNT :: a in st.free[d] <==> InArena(st, d, a) && a !in st.live
  }

  /** Block a, requested with `size` bytes, lies in its arena, past the header, and is large enough
      unless the request wrapped around. */
  predicate Sits(arena: Arena, a: nat, size: nat)
  {
    if arena.Small? then arena.desc < DESC_CNT && IsBlock(arena.desc, a % PGSIZE) && size <= Size(arena.desc)
    else a % PGSIZE == HEADER && if Bounded(size) then size + HEADER <= arena.pages * PGSIZE else arena.pages == 1
  }

  ghost predicate LiveInv(st: State)
  {
    forall a | a in st.live :: PageOf(a) in st.arenas && Sits(st.arenas[PageOf(a)], a, st.live[a])
  }

  /** The indexes of the unused blocks of an arena. */
  ghost function FreeSlots(st: State, q: nat): set<nat>
    requires q in st.arenas && st.arenas[q].Small? && st.arenas[q].desc < DESC_CNT
  {
    set i: nat | i < Per(st.arenas[q].desc) && Block(q, st.arenas[q].desc, i) !in st.live
  }

  /** free_cnt counts the unused blocks, and there is a used one unless the arena is spare. */
  ghost predicate Counted(st: State, q: nat, spare: bool)
    requires q in st.arenas
  {
    if st.arenas[q].Small? then
      && st.arenas[q].desc < DESC_CNT && st.arenas[q].freeCnt == |FreeSlots(st, q)|
      && (spare || st.arenas[q].freeCnt < Per(st.arenas[q].desc))
    else q * PGSIZE + HEADER in st.live
  }

  ghost predicate CountInv(st: State, spare: set<nat>)
  {
    forall q | q in st.arenas :: Counted(st, q, q in spare)
  }

  ghost predicate InvBut(st: State, spare: set<nat>)
  {
    PageInv(st) && FreeInv(st) && LiveInv(st) && CountInv(st, spare)
  }

  ghost predicate Inv(st: State) { InvBut(st, {}) }

  // ----- operations

  function Fill(mem: seq<Byte>, a: nat, n: nat, v: Byte): (r: seq<Byte>)
    requires a + n <= |mem|
    ensures |r| == |mem| && forall x | 0 <= x < |mem| :: r[x] == if a <= x < a + n then v else mem[x]
  {
    mem[..a] + seq(n, _ => v) + mem[a + n..]
  }

  function Blocks(q: nat, d: nat): (bs: seq<nat>)
    requires d < DESC_CNT
    ensures |bs| == Per(d) && forall i | 0 <= i < Per(d) :: bs[i] == Block(q, d, i)
  {
    seq(Per(d), i requires 0 <= i < Per(d) => Block(q, d, i))
  }

  /** A new arena at page q, all its blocks free. */
  function AddArena(st: State, d: nat, q: nat): State
    requires d < DESC_CNT == |st.free| && q < |st.used|
  {
    st.(used := SetRun(st.used, q, 1, true), arenas := st.arenas[q := Small(d, Per(d))],
        free := st.free[d := st.free[d] + Blocks(q, d)])
  }

  /** The first free block of descriptor d becomes live. */
  function PopFree(st: State, d: nat, size: nat): State
    requires d < DESC_CNT == |st.free| && st.free[d] != []
  {
    var b := st.free[d][0];
    var q := PageOf(b);
    if q in st.arenas && st.arenas[q].Small? && st.arenas[q].freeCnt > 0 then
      st.(free := st.free[d := st.free[d][1..]], arenas := st.arenas[q := Small(d, st.arenas[q].freeCnt - 1)],
          live := st.live[b := size])
    else st
  }

  /** malloc of `size` bytes: the block, or nothing, and the new state. */
  function Malloc(st: State, size: nat): (Option<nat>, State)
    requires |st.free| == DESC_CNT
  {
    if size == 0 then (None, st)
    else if DescFor(size) == DESC_CNT then MallocBig(st, size)
    else
      var d := DescFor(size);
      if st.free[d] != [] then (Some(st.free[d][0]), PopFree(st, d, size))
      else
        var q := FirstClear(st.used, 1);
        if q.None? then (None, st)
        else (Some(Block(q.value, d, 0)), PopFree(AddArena(st, d, q.value), d, size))
  }

  function MallocBig(st: State, size: nat): (Option<nat>, State)
  {
    var pages := RequestPages(size);
    var q := FirstClear(st.used, pages);
    if pages == 0 || q.None? then (None, st)
    else
      (Some(q.value * PGSIZE + HEADER),
       st.(used := SetRun(st.used, q.value, pages, true), arenas := st.arenas[q.value := Big(pages)],
           live := st.live[q.value * PGSIZE + HEADER := size]))
  }

  /** The blocks of s that are not in page q, in order. */
  function Elsewhere(s: seq<nat>, q: nat): (r: seq<nat>)
  {
    if s == [] then [] else (if PageOf(s[0]) == q then [] else [s[0]]) + Elsewhere(s[1..], q)
  }

  /** A block that goes back on the free list. */
  function PushFree(st: State, b: nat): State
    requires InHeap(st, b) && st.arenas[PageOf(b)].Small?
  {
    var q := PageOf(b);
    var d := st.arenas[q].desc;
    st.(mem := Fill(st.mem, b, Size(d), 0xcc), free := st.free[d := [b] + st.free[d]],
        arenas := st.arenas[q := Small(d, st.arenas[q].freeCnt + 1)], live := st.live - {b})
  }

  /** An arena without used blocks goes back to the page allocator. */
  function DropArena(st: State, q: nat): State
    requires q in st.arenas && st.arenas[q].Small? && st.arenas[q].desc < DESC_CNT == |st.free|
    requires q < |st.used| && |st.mem| == PGSIZE * |st.used|
  {
    var d := st.arenas[q].desc;
    st.(free := st.free[d := Elsewhere(st.free[d], q)], arenas := st.arenas - {q},
        mem := Fill(st.mem, q * PGSIZE, PGSIZE, 0xcc), used := SetRun(st.used, q, 1, false))
  }

  function FreeBig(st: State, b: nat): State
    requires InHeap(st, b) && st.arenas[PageOf(b)].Big?
  {
    var q := PageOf(b);
    var n := st.arenas[q].pages;
    st.(arenas := st.arenas - {q}, mem := Fill(st.mem, q * PGSIZE, n * PGSIZE, 0xcc), used := SetRun(st.used, q, n, false),
        live := st.live - {b})
  }

  /** What block_to_arena and the bounds of memory need to hold of a block. */
  predicate InHeap(st: State, b: nat)
  {
    var q := PageOf(b);
    && q in st.arenas && |st.free| == DESC_CNT && |st.mem| == PGSIZE * |st.used|
    && q + Cnt(st.arenas[q]) <= |st.used|
    && (st.arenas[q].Small? ==> st.arenas[q].desc < DESC_CNT && IsBlock(st.arenas[q].desc, b % PGSIZE)
                                && b + Size(st.arenas[q].desc) <= |st.mem|)
    && (st.arenas[q].Big? ==> b % PGSIZE == HEADER)
  }

  function Free(st: State, b: nat): State
    requires InHeap(st, b)
  {
    var q := PageOf(b);
    if st.arenas[q].Big? then FreeBig(st, b)
    else
      var st1 := PushFree(st, b);
      if st1.arenas[q].freeCnt >= Per(st1.arenas[q].desc) then DropArena(st1, q) else st1
  }
}
