/** pagedir.c on a memory of words: page directories and page tables rewritten in place, proved to
    maintain a partial map from user pages to frames (Project2/src/userprog/pagedir.c). */
module PageDirectory {
  import opened Bitmap
  import opened PageTable

  const PHYS_BASE: int := 0xc000_0000
  const PGSIZE: int := 4096

  predicate IsUserVaddr(va: int) { 0 <= va < PHYS_BASE }

  lemma AddressSplit(va: nat)
    requires IsUserVaddr(va)
    ensures PdNo(va) == PgNo(va) / ENTRIES < USER_ENTRIES && PtNo(va) == PgNo(va) % ENTRIES && PgNo(va) < USER_PAGES
  {
  }

  // ----- page tables come and go

  lemma SameView(ram: seq<Word>, ram': seq<Word>, pd: nat)
    requires forall u: nat | u < USER_PAGES :: MappingOf(ram', pd, u) == MappingOf(ram, pd, u)
    ensures View(ram', pd) == View(ram, pd)
  {
  }

  /** Frame f was filled with zeros. */
  ghost predicate Zeroed(ram: seq<Word>, ram': seq<Word>, f: nat)
  {
    && |ram'| == |ram|
    && forall g: nat, j: nat {:trigger E(ram', g, j)} | j < ENTRIES :: E(ram', g, j) == if g == f then 0 else E(ram, g, j)
  }

  lemma ZeroUnused(ram: seq<Word>, ram': seq<Word>, pd: nat, f: nat)
    requires Valid(ram, pd) && Unused(ram, pd, f) && Zeroed(ram, ram', f)
    ensures Valid(ram', pd) && Unused(ram', pd, f)
    ensures forall u: nat | u < USER_PAGES :: EntryOf(ram', pd, u) == EntryOf(ram, pd, u)
    ensures forall i: nat | i < ENTRIES :: E(ram', pd, i) == E(ram, pd, i)
  {
    assert forall i: nat | i < ENTRIES :: TableOf(ram', pd, i) == TableOf(ram, pd, i);
    forall u: nat | u < USER_PAGES ensures EntryOf(ram', pd, u) == EntryOf(ram, pd, u) {
      assert TableOf(ram, pd, u / ENTRIES) != Some(f);
    }
  }

  /** A zeroed frame becomes the page table of directory entry i: no page becomes mapped. */
  lemma InstallTable(ram: seq<Word>, ram': seq<Word>, pd: nat, i: nat, f: nat)
    requires Valid(ram, pd) && Unused(ram, pd, f) && i < USER_ENTRIES && TableOf(ram, pd, i).None?
    requires (forall j: nat | j < ENTRIES :: E(ram, f, j) == 0) && f < MAX_FRAMES && Puts(ram, ram', pd, i, PdeCreate(f))
    ensures Valid(ram', pd) && TableOf(ram', pd, i) == Some(f)
    ensures forall j: nat | j < ENTRIES && j != i :: TableOf(ram', pd, j) == TableOf(ram, pd, j)
    ensures forall u: nat | u < USER_PAGES :: MappingOf(ram', pd, u) == MappingOf(ram, pd, u)
  {
    PteRoundTrip(f, true);
    assert forall j: nat | j < ENTRIES && j != i :: E(ram', pd, j) == E(ram, pd, j) && TableOf(ram', pd, j) == TableOf(ram, pd, j);
    forall u: nat | u < USER_PAGES ensures MappingOf(ram', pd, u) == MappingOf(ram, pd, u) {
      if u / ENTRIES == i {
        assert EntryOf(ram', pd, u) == Some(0);
      }
    }
  }

  /** A present entry put where the page was not mapped adds one binding and changes no other, even
      of pages that share the table. */
  lemma BindOne(ram: seq<Word>, ram': seq<Word>, pd: nat, vp: nat, frame: nat, writable: bool)
    requires Valid(ram, pd) && vp < USER_PAGES && frame < MAX_FRAMES && TableOf(ram, pd, vp / ENTRIES).Some?
    requires Puts(ram, ram', TableOf(ram, pd, vp / ENTRIES).value, vp % ENTRIES, PteCreateUser(frame, writable))
    ensures Valid(ram', pd) && View(ram', pd) == View(ram, pd)[vp := Mapping(frame, writable)]
    ensures forall i: nat | i < ENTRIES :: TableOf(ram', pd, i) == TableOf(ram, pd, i)
  {
    PutEntry(ram, ram', pd, vp, PteCreateUser(frame, writable));
    PteRoundTrip(frame, writable);
  }

  /** Clearing the present bit removes one binding. */
  lemma UnbindOne(ram: seq<Word>, ram': seq<Word>, pd: nat, vp: nat, e: Word)
    requires Valid(ram, pd) && vp < USER_PAGES && EntryOf(ram, pd, vp) == Some(e) && Present(e)
    requires Puts(ram, ram', TableOf(ram, pd, vp / ENTRIES).value, vp % ENTRIES, e - PTE_P)
    ensures Valid(ram', pd) && View(ram', pd) == View(ram, pd) - {vp}
    ensures forall i: nat | i < ENTRIES :: TableOf(ram', pd, i) == TableOf(ram, pd, i)
  {
    PutEntry(ram, ram', pd, vp, e - PTE_P);
    NotPresent(e);
    assert MappingOf(ram', pd, vp).None?;
    ViewMinus(ram, ram', pd, vp);
  }

  lemma ViewMinus(ram: seq<Word>, ram': seq<Word>, pd: nat, vp: nat)
    requires vp < USER_PAGES && MappingOf(ram', pd, vp).None?
    requires forall u: nat | u < USER_PAGES && u != vp :: EntryOf(ram', pd, u) == EntryOf(ram, pd, u)
    ensures View(ram', pd) == View(ram, pd) - {vp}
  {
    forall u: nat | u < USER_PAGES && u != vp ensures MappingOf(ram', pd, u) == MappingOf(ram, pd, u) {
      assert EntryOf(ram', pd, u) == EntryOf(ram, pd, u);
    }
  }

  lemma NotPresent(e: Word)
    requires Present(e)
    ensures e >= 1 && !Present(e - PTE_P)
  {
  }

  // ----- no frame becomes shared

  /** At most one page table is new, that of page vp, and it is on the frame on offer. */
  ghost predicate TablesGrow(ram: seq<Word>, ram': seq<Word>, pd: nat, vp: nat, offer: Option<nat>)
  {
    && |ram'| == |ram|
    && forall i: nat | i < ENTRIES ::
         TableOf(ram', pd, i) == TableOf(ram, pd, i) || (i == vp / ENTRIES && TableOf(ram', pd, i) == offer)
  }

  ghost predicate InUse(ram: seq<Word>, pd: nat, f: nat)
  {
    !Unused(ram, pd, f) || exists u: nat :: IsMapped(ram, pd, u) && FrameAt(ram, pd, u) == f
  }

  /** The frame to be mapped and the one on offer are different, and neither is in use. */
  ghost predicate Spare(ram: seq<Word>, pd: nat, frame: nat, offer: Option<nat>)
  {
    !InUse(ram, pd, frame) && (offer.Some? ==> offer.value != frame && !InUse(ram, pd, offer.value))
  }

  lemma MappedIn(ram: seq<Word>, pd: nat, u: nat)
    ensures IsMapped(ram, pd, u) <==> u in View(ram, pd)
    ensures IsMapped(ram, pd, u) ==> FrameAt(ram, pd, u) == View(ram, pd)[u].frame
  {
  }

  lemma BindKeepsUnaliased(ram: seq<Word>, ram': seq<Word>, pd: nat, vp: nat, frame: nat, writable: bool, offer: Option<nat>)
    requires Unaliased(ram, pd) && Spare(ram, pd, frame, offer) && TablesGrow(ram, ram', pd, vp, offer)
    requires View(ram', pd) == View(ram, pd)[vp := Mapping(frame, writable)]
    ensures Unaliased(ram', pd)
  {
    forall u: nat ensures IsMapped(ram', pd, u) <==> u == vp || IsMapped(ram, pd, u)
                  ensures IsMapped(ram', pd, u) ==> FrameAt(ram', pd, u) == if u == vp then frame else FrameAt(ram, pd, u) {
      MappedIn(ram, pd, u);
      MappedIn(ram', pd, u);
    }
    forall u: nat | IsMapped(ram', pd, u) ensures Unused(ram', pd, FrameAt(ram', pd, u)) {
      assert u != vp ==> offer != Some(FrameAt(ram, pd, u));
    }
  }

  lemma FewerKeepUnaliased(ram: seq<Word>, ram': seq<Word>, pd: nat, vp: nat)
    requires Unaliased(ram, pd) && TablesGrow(ram, ram', pd, vp, None)
    requires View(ram', pd) == View(ram, pd) - {vp}
    ensures Unaliased(ram', pd)
  {
    forall u: nat ensures IsMapped(ram', pd, u) ==> IsMapped(ram, pd, u) && FrameAt(ram', pd, u) == FrameAt(ram, pd, u) {
      MappedIn(ram, pd, u);
      MappedIn(ram', pd, u);
    }
  }

  // ----- the program

  class Mmu {
    const ram: array<Word>

    constructor (frames: nat)
      requires frames <= MAX_FRAMES
      ensures ram.Length == frames * ENTRIES && fresh(ram)
    {
      ram := new Word[frames * ENTRIES](_ => 0);
    }

    method Put(f: nat, i: nat, w: Word)
      requires (f + 1) * ENTRIES <= ram.Length && i < ENTRIES
      modifies ram
      ensures Puts(old(ram[..]), ram[..], f, i, w)
    {
      PutWord(ram[..], f, i, w, f * ENTRIES + i);
      ram[f * ENTRIES + i] := w;
    }

    /** palloc_get_page (PAL_ZERO) when the allocator hands out frame f. */
    method ZeroPage(f: nat)
      requires (f + 1) * ENTRIES <= ram.Length
      modifies ram
      ensures Zeroed(old(ram[..]), ram[..], f)
    {
      for i := 0 to ENTRIES
        invariant forall g: nat, j: nat {:trigger E(ram[..], g, j)} | j < ENTRIES ::
          E(ram[..], g, j) == if g == f && j < i then 0 else E(old(ram[..]), g, j)
      {
        Put(f, i, 0);
      }
    }

    /** pagedir_create: a copy of the kernel's directory, which maps no user page. */
    method Create(initPageDir: nat, offer: Option<nat>) returns (pd: Option<nat>)
      requires (initPageDir + 1) * ENTRIES <= ram.Length <= MAX_FRAMES * ENTRIES
      requires forall i: nat | i < USER_ENTRIES :: E(ram[..], initPageDir, i) == 0
      requires offer.Some? ==> offer.value != initPageDir && (offer.value + 1) * ENTRIES <= ram.Length
      modifies ram
      ensures pd == offer
      ensures pd.Some? ==> Valid(ram[..], pd.value) && View(ram[..], pd.value) == map[] && Unaliased(ram[..], pd.value)
      ensures pd.Some? ==> forall j: nat | j < ENTRIES :: E(ram[..], pd.value, j) == E(old(ram[..]), initPageDir, j)
    {
      pd := offer;
      if pd.Some? {
        ghost var before := ram[..];
        for i := 0 to ENTRIES
          invariant forall g: nat, j: nat {:trigger E(ram[..], g, j)} | j < ENTRIES ::
            E(ram[..], g, j) == if g == pd.value && j < i then E(before, initPageDir, j) else E(before, g, j)
        {
          assert ram[initPageDir * ENTRIES + i] == E(ram[..], initPageDir, i);
          Put(pd.value, i, ram[initPageDir * ENTRIES + i]);
        }
        assert forall i: nat | i < USER_ENTRIES :: TableOf(ram[..], pd.value, i).None?;
        assert forall u: nat :: !IsMapped(ram[..], pd.value, u);
      }
    }

    /** lookup_page: the table that has the entry for va; `offer` is what the page allocator would
        give for a new table. */
    method LookupPage(pd: nat, va: nat, create: bool, offer: Option<nat>) returns (pt: Option<nat>)
      requires Valid(ram[..], pd) && IsUserVaddr(va)
      requires offer.Some? ==> Unused(ram[..], pd, offer.value)
      modifies ram
      ensures Valid(ram[..], pd) && pt == TableOf(ram[..], pd, PgNo(va) / ENTRIES)
      ensures forall u: nat | u < USER_PAGES :: MappingOf(ram[..], pd, u) == MappingOf(old(ram[..]), pd, u)
      ensures !create || old(TableOf(ram[..], pd, PgNo(va) / ENTRIES)).Some? ==> ram[..] == old(ram[..])
      ensures TablesGrow(old(ram[..]), ram[..], pd, PgNo(va), offer)
      ensures create ==> (pt.Some? <==> offer.Some? || old(TableOf(ram[..], pd, PgNo(va) / ENTRIES)).Some?)
    {
      AddressSplit(va);
      ghost var before := ram[..];
      var i := PdNo(va);
      assert pd * ENTRIES + i < ram.Length && ram[pd * ENTRIES + i] == E(before, pd, i);
      if ram[pd * ENTRIES + i] == 0 {
        if !create {
          return None;
        }
        if offer.None? {
          return None;
        }
        ZeroPage(offer.value);
        ZeroUnused(before, ram[..], pd, offer.value);
        ghost var zeroed := ram[..];
        Put(pd, i, PdeCreate(offer.value));
        InstallTable(zeroed, ram[..], pd, i, offer.value);
      }
      pt := Some(FrameOf(ram[pd * ENTRIES + i]));
      assert ram[pd * ENTRIES + i] == E(ram[..], pd, i);
    }

    /** pagedir_set_page: one new binding, or nothing if there is no memory for a page table.  Frames
        stay unaliased if the new ones are spare. */
    method SetPage(pd: nat, upage: nat, kframe: nat, writable: bool, offer: Option<nat>) returns (ok: bool)
      requires Valid(ram[..], pd) && IsUserVaddr(upage) && upage % PGSIZE == 0 && kframe < MAX_FRAMES
      requires offer.Some? ==> Unused(ram[..], pd, offer.value)
      requires PgNo(upage) !in View(ram[..], pd)
      modifies ram
      ensures Valid(ram[..], pd)
      ensures View(ram[..], pd) == if ok then View(old(ram[..]), pd)[PgNo(upage) := Mapping(kframe, writable)] else View(old(ram[..]), pd)
      ensures ok <==> offer.Some? || old(TableOf(ram[..], pd, PgNo(upage) / ENTRIES)).Some?
      ensures old(Unaliased(ram[..], pd) && Spare(ram[..], pd, kframe, offer)) ==> Unaliased(ram[..], pd)
    {
      AddressSplit(upage);
      ghost var before := ram[..];
      var pt := LookupPage(pd, upage, true, offer);
      SameView(before, ram[..], pd);
      ok := pt.Some?;
      if ok {
        ghost var looked := ram[..];
        Put(pt.value, PtNo(upage), PteCreateUser(kframe, writable));
        BindOne(looked, ram[..], pd, PgNo(upage), kframe, writable);
        if Unaliased(before, pd) && Spare(before, pd, kframe, offer) {
          BindKeepsUnaliased(before, ram[..], pd, PgNo(upage), kframe, writable, offer);
        }
      } else if Unaliased(before, pd) {
        FewerKeepUnaliased(before, ram[..], pd, PgNo(upage));
      }
    }

    /** pagedir_get_page: the kernel address of the byte that uaddr is mapped to; the offset within
        the page is kept. */
    method GetPage(pd: nat, uaddr: nat) returns (kaddr: Option<nat>)
      requires Valid(ram[..], pd) && IsUserVaddr(uaddr)
      modifies ram
      ensures ram[..] == old(ram[..])
      ensures var m := View(ram[..], pd);
        kaddr == if PgNo(uaddr) in m then Some(PHYS_BASE + m[PgNo(uaddr)].frame * PGSIZE + uaddr % PGSIZE) else None
    {
      AddressSplit(uaddr);
      var pt := LookupPage(pd, uaddr, false, None);
      kaddr := None;
      if pt.Some? {
        var pte := Read(pd, uaddr, pt.value);
        if Present(pte) {
          kaddr := Some(PHYS_BASE + FrameOf(pte) * PGSIZE + uaddr % PGSIZE);
        }
      }
    }

    /** The entry for va in its page table. */
    function Read(pd: nat, va: nat, pt: nat): (pte: Word)
      reads ram
      requires Valid(ram[..], pd) && IsUserVaddr(va) && TableOf(ram[..], pd, PgNo(va) / ENTRIES) == Some(pt)
      ensures Some(pte) == EntryOf(ram[..], pd, PgNo(va))
    {
      AddressSplit(va);
      assert ram[pt * ENTRIES + PtNo(va)] == E(ram[..], pt, PtNo(va));
      ram[pt * ENTRIES + PtNo(va)]
    }

    /** pagedir_clear_page: one binding less, if there was one. */
    method ClearPage(pd: nat, upage: nat)
      requires Valid(ram[..], pd) && IsUserVaddr(upage) && upage % PGSIZE == 0
      modifies ram
      ensures Valid(ram[..], pd) && View(ram[..], pd) == View(old(ram[..]), pd) - {PgNo(upage)}
      ensures old(Unaliased(ram[..], pd)) ==> Unaliased(ram[..], pd)
    {
      AddressSplit(upage);
      ghost var before := ram[..];
      var pt := LookupPage(pd, upage, false, None);
      if pt.Some? {
        var pte := Read(pd, upage, pt.value);
        if Present(pte) {
          NotPresent(pte);
          Put(pt.value, PtNo(upage), pte - PTE_P);
          UnbindOne(before, ram[..], pd, PgNo(upage), pte);
          if Unaliased(before, pd) {
            FewerKeepUnaliased(before, ram[..], pd, PgNo(upage));
          }
        }
      }
    }
  }
}
