/** x86 page table entries and the map from user pages to frames that a page directory stands for
    (Project2/src/threads/pte.h, Project2/src/threads/vaddr.h). */
module PageTable {
  import opened Bitmap
  import opened Bits
  import opened Nonlinear

  type Word = x: int | 0 <= x < 0x1_0000_0000

  const PTE_P: int := 1
  const PTE_W: int := 2
  const PTE_U: int := 4
  const ENTRIES: int := 1024
  /** pd_no (PHYS_BASE): directory entries below it are the user's. */
  const USER_ENTRIES: int := 768
  const USER_PAGES: int := 768 * 1024
  /** Physical addresses end where ptov would leave the 32-bit address space. */
  const MAX_FRAMES: int := 0x4_0000

  function Present(e: Word): bool { e % 2 == 1 }

  function Writable(e: Word): bool { e / PTE_W % 2 == 1 }

  function FrameOf(e: Word): nat { e / 4096 }

  function PdeCreate(pt: nat): Word
    requires pt < MAX_FRAMES
  {
    pt * 4096 + PTE_U + PTE_P + PTE_W
  }

  function PteCreateUser(frame: nat, writable: bool): Word
    requires frame < MAX_FRAMES
  {
    frame * 4096 + PTE_P + (if writable then PTE_W else 0) + PTE_U
  }

  function PdNo(va: nat): nat { va / 0x40_0000 }

  function PtNo(va: nat): nat { va / 4096 % ENTRIES }

  function PgNo(va: nat): nat { va / 4096 }

  // ----- the same as the bit operations of C

  const PTE_ADDR: int := 0xffff_f000
  const PTMASK: int := 0x003f_f000
  const PGMASK: int := 0xfff

  /** pd_no, pt_no, pg_no and pg_ofs: shifts and masks. */
  lemma AddressBits(va: Word)
    ensures PdNo(va) == va / Pow2(22) && PgNo(va) == va / Pow2(12)
    ensures PtNo(va) == And(va, PTMASK) / Pow2(12) && And(va, PGMASK) == va % 4096
  {
    Pow2Is();
    PageMask(va, 0x3ff);
    AndOnes(va / 4096, 10);
    AndOnes(va, 12);
  }

  /** pde_create and pte_create_user: the page-aligned address or-ed with one flag after the other. */
  lemma EntryBits(frame: nat, writable: bool)
    requires frame < MAX_FRAMES
    ensures PdeCreate(frame) == Or(Or(Or(frame * 4096, PTE_U), PTE_P), PTE_W)
    ensures PteCreateUser(frame, writable) == Or(Or(Or(frame * 4096, PTE_P), if writable then PTE_W else 0), PTE_U)
  {
    OrFlag(frame, 0, 4, 4);
    OrFlag(frame, 4, 1, 5);
    OrFlag(frame, 5, 2, 7);
    OrFlag(frame, 0, 1, 1);
    OrFlag(frame, 1, 2, 3);
    OrFlag(frame, 1, 0, 1);
    OrFlag(frame, 3, 4, 7);
    OrFlag(frame, 1, 4, 5);
  }

  lemma OrFlag(frame: nat, flags: nat, flag: nat, both: nat)
    requires flags < 8 && flag < 8 && Or(flags, flag) == both
    ensures Or(frame * 4096 + flags, flag) == frame * 4096 + both
  {
    Pow2Is();
    JoinIs(frame, flags);
    JoinIs(frame, both);
    OrLow(frame, 12, flags, flag);
  }

  /** A mask from bit 12 on. */
  lemma PageMask(x: nat, mask: nat)
    ensures And(x, mask * 4096) == And(x / 4096, mask) * 4096
  {
    Pow2Is();
    JoinIs(x / 4096, x % 4096);
    JoinIs(mask, 0);
    JoinIs(And(x / 4096, mask), 0);
    MaskAbove(x / 4096, 12, x % 4096, mask);
  }

  /** A mask from bit 1 on. */
  lemma EvenMask(x: nat, mask: nat)
    ensures And(x, mask * 2) == And(x / 2, mask) * 2
  {
    Pow2Is();
    JoinIs(x / 2, x % 2);
    JoinIs(mask, 0);
    JoinIs(And(x / 2, mask), 0);
    MaskAbove(x / 2, 1, x % 2, mask);
  }

  /** The tests and masks on an entry: present, writable, address, and clearing the present bit. */
  lemma FieldBits(e: Word)
    ensures Present(e) == (And(e, PTE_P) != 0) && Writable(e) == (And(e, PTE_W) != 0)
    ensures And(e, PTE_ADDR) == FrameOf(e) * 4096
    ensures And(e, 0xffff_fffe) == if Present(e) then e - PTE_P else e
  {
    FlagBits(e);
    AddressMask(e);
    PresentMask(e);
  }

  lemma FlagBits(e: Word)
    ensures And(e, PTE_P) == e % 2 && And(e, PTE_W) == e / 2 % 2 * 2
  {
    Pow2Is();
    AndOnes(e, 1);
    EvenMask(e, 1);
    AndOnes(e / 2, 1);
  }

  lemma AddressMask(e: Word)
    ensures And(e, PTE_ADDR) == e / 4096 * 4096
  {
    Pow2Is();
    PageMask(e, 0xf_ffff);
    AndOnes(e / 4096, 20);
  }

  lemma PresentMask(e: Word)
    ensures And(e, 0xffff_fffe) == e / 2 * 2
  {
    Pow2Is();
    EvenMask(e, 0x7fff_ffff);
    AndOnes(e / 2, 31);
  }

  lemma PteRoundTrip(frame: nat, writable: bool)
    requires frame < MAX_FRAMES
    ensures var e := PteCreateUser(frame, writable);
      Present(e) && FrameOf(e) == frame && Writable(e) == writable
    ensures Present(PdeCreate(frame)) && FrameOf(PdeCreate(frame)) == frame && PdeCreate(frame) != 0
  {
    var flags := PteCreateUser(frame, writable) - frame * 4096;
    assert flags == 5 || flags == 7;
  }

  // ----- memory as words

  /** Word i of frame f. */
  function E(ram: seq<Word>, f: nat, i: nat): Word
  {
    if f * ENTRIES + i < |ram| then ram[f * ENTRIES + i] else 0
  }

  datatype Mapping = Mapping(frame: nat, writable: bool)

  /** The page table of directory entry i. */
  function TableOf(ram: seq<Word>, pd: nat, i: nat): Option<nat>
  {
    if E(ram, pd, i) == 0 then None else Some(FrameOf(E(ram, pd, i)))
  }

  /** The entry of user page vp, if it has a page table. */
  function EntryOf(ram: seq<Word>, pd: nat, vp: nat): Option<Word>
  {
    var pt := TableOf(ram, pd, vp / ENTRIES);
    if pt.None? then None else Some(E(ram, pt.value, vp % ENTRIES))
  }

  function MappingOf(ram: seq<Word>, pd: nat, vp: nat): Option<Mapping>
  {
    var e := EntryOf(ram, pd, vp);
    if e.None? || !Present(e.value) then None else Some(Mapping(FrameOf(e.value), Writable(e.value)))
  }

  /** The partial map from user pages to frames. */
  ghost function View(ram: seq<Word>, pd: nat): (m: map<nat, Mapping>)
    ensures forall vp: nat :: vp in m <==> vp < USER_PAGES && MappingOf(ram, pd, vp).Some?
    ensures forall vp: nat | vp in m :: m[vp] == MappingOf(ram, pd, vp).value
  {
    map vp: nat | vp < USER_PAGES && MappingOf(ram, pd, vp).Some? :: MappingOf(ram, pd, vp).value
  }

  /** User page tables are in memory, apart from each other, from the directory and from the kernel's
      page tables. */
  ghost predicate Valid(ram: seq<Word>, pd: nat)
  {
    && (pd + 1) * ENTRIES <= |ram| <= MAX_FRAMES * ENTRIES
    && (forall i: nat | i < USER_ENTRIES && TableOf(ram, pd, i).Some? ::
          var pt := TableOf(ram, pd, i).value; (pt + 1) * ENTRIES <= |ram| && pt != pd && Present(E(ram, pd, i)))
    && forall i: nat, j: nat | i < USER_ENTRIES && i < j < ENTRIES && TableOf(ram, pd, i).Some? && TableOf(ram, pd, j).Some? ::
         TableOf(ram, pd, i) != TableOf(ram, pd, j)
  }

  /** Frame f is none of the directory's tables, nor the directory. */
  ghost predicate Unused(ram: seq<Word>, pd: nat, f: nat)
  {
    (f + 1) * ENTRIES <= |ram| && f != pd && forall i: nat | i < ENTRIES :: TableOf(ram, pd, i) != Some(f)
  }

  // ----- no frame is shared

  ghost predicate IsMapped(ram: seq<Word>, pd: nat, u: nat)
  {
    u < USER_PAGES && MappingOf(ram, pd, u).Some?
  }

  ghost function FrameAt(ram: seq<Word>, pd: nat, u: nat): nat
    requires IsMapped(ram, pd, u)
  {
    MappingOf(ram, pd, u).value.frame
  }

  /** No frame is mapped twice, and none is a page table or the directory. */
  ghost predicate Unaliased(ram: seq<Word>, pd: nat)
  {
    && (forall u: nat, v: nat | IsMapped(ram, pd, u) && IsMapped(ram, pd, v) && u != v :: FrameAt(ram, pd, u) != FrameAt(ram, pd, v))
    && forall u: nat | IsMapped(ram, pd, u) :: Unused(ram, pd, FrameAt(ram, pd, u))
  }

  // ----- what single writes do to the map

  /** ram' is ram with word i of frame f replaced by w. */
  ghost predicate Puts(ram: seq<Word>, ram': seq<Word>, f: nat, i: nat, w: Word)
  {
    && |ram'| == |ram|
    && forall g: nat, j: nat {:trigger E(ram', g, j)} | j < ENTRIES ::
         E(ram', g, j) == if g == f && j == i then w else E(ram, g, j)
  }

  lemma PutWord(ram: seq<Word>, f: nat, i: nat, w: Word, k: nat)
    requires i < ENTRIES && k == f * ENTRIES + i < |ram|
    ensures Puts(ram, ram[k := w], f, i, w)
  {
    var ram' := ram[k := w];
    forall g: nat, j: nat | j < ENTRIES ensures E(ram', g, j) == if g == f && j == i then w else E(ram, g, j) {
      OneIndex(f, i, g, j);
    }
  }

  lemma OneIndex(f: nat, i: nat, g: nat, j: nat)
    requires i < ENTRIES && j < ENTRIES
    ensures f * ENTRIES + i == g * ENTRIES + j <==> f == g && i == j
  {
  }

  /** Rewriting the entry of page vp, where it has a table. */
  lemma PutEntry(ram: seq<Word>, ram': seq<Word>, pd: nat, vp: nat, w: Word)
    requires Valid(ram, pd) && vp < USER_PAGES && TableOf(ram, pd, vp / ENTRIES).Some?
    requires Puts(ram, ram', TableOf(ram, pd, vp / ENTRIES).value, vp % ENTRIES, w)
    ensures Valid(ram', pd) && EntryOf(ram', pd, vp) == Some(w)
    ensures forall u: nat | u < USER_PAGES && u != vp :: EntryOf(ram', pd, u) == EntryOf(ram, pd, u)
    ensures forall i: nat | i < ENTRIES :: E(ram', pd, i) == E(ram, pd, i)
  {
    assert forall i: nat | i < ENTRIES :: E(ram', pd, i) == E(ram, pd, i) && TableOf(ram', pd, i) == TableOf(ram, pd, i);
    forall u: nat | u < USER_PAGES && u != vp ensures EntryOf(ram', pd, u) == EntryOf(ram, pd, u) {
      SamePlace(u, vp);
      TablesApart(ram, pd, u / ENTRIES, vp / ENTRIES);
    }
  }

  lemma SamePlace(u: nat, vp: nat)
    requires u != vp
    ensures u / ENTRIES != vp / ENTRIES || u % ENTRIES != vp % ENTRIES
  {
  }

  lemma TablesApart(ram: seq<Word>, pd: nat, i: nat, j: nat)
    requires Valid(ram, pd) && i < USER_ENTRIES && j < USER_ENTRIES
    ensures i != j && TableOf(ram, pd, i).Some? && TableOf(ram, pd, j).Some? ==> TableOf(ram, pd, i) != TableOf(ram, pd, j)
  {
    if i < j {
      assert TableOf(ram, pd, i).Some? && TableOf(ram, pd, j).Some? ==> TableOf(ram, pd, i) != TableOf(ram, pd, j);
    } else if j < i {
      assert TableOf(ram, pd, j).Some? && TableOf(ram, pd, i).Some? ==> TableOf(ram, pd, j) != TableOf(ram, pd, i);
    }
  }
}
