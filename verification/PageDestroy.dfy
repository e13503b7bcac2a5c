/** pagedir_destroy: which pages it gives back to the page allocator, in order and once each
    (Project2/src/userprog/pagedir.c). */
module PageDestroy {
  import opened Bitmap
  import opened Sequences
  import opened PageTable
  import opened PageDirectory

  // ----- lists of lists

  function Flatten(gs: seq<seq<nat>>): seq<nat>
  {
    if gs == [] then [] else Flatten(gs[..|gs| - 1]) + gs[|gs| - 1]
  }

  lemma FlattenNext(gs: seq<seq<nat>>, i: nat)
    requires i < |gs|
    ensures Flatten(gs[..i + 1]) == Flatten(gs[..i]) + gs[i]
  {
    assert gs[..i + 1][..i] == gs[..i];
  }

  lemma {:induction false} FlattenHas(gs: seq<seq<nat>>, f: nat)
    ensures f in Flatten(gs) <==> exists k :: 0 <= k < |gs| && f in gs[k]
  {
    if gs != [] {
      var n := |gs| - 1;
      FlattenHas(gs[..n], f);
      if f in Flatten(gs[..n]) {
        var k :| 0 <= k < n && f in gs[..n][k];
        assert f in gs[k];
      }
      if k :| 0 <= k < |gs| && f in gs[k] {
        assert k < n ==> f in gs[..n][k];
      }
    }
  }

  lemma {:induction false} FlattenDistinct(gs: seq<seq<nat>>)
    requires forall i | 0 <= i < |gs| :: Distinct(gs[i])
    requires forall i, j, x | 0 <= i < j < |gs| && x in gs[i] :: x !in gs[j]
    ensures Distinct(Flatten(gs))
  {
    if gs != [] {
      var n := |gs| - 1;
      FlattenDistinct(gs[..n]);
      forall x | x in Flatten(gs[..n]) ensures x !in gs[n] {
        FlattenHas(gs[..n], x);
        var k :| 0 <= k < n && x in gs[..n][k];
        assert x in gs[k];
      }
      DistinctConcat(Flatten(gs[..n]), gs[n]);
    }
  }

  // ----- what is given back

  /** Entry k of table pt gives back its frame if it is present. */
  function Cell(ram: seq<Word>, pt: nat, k: nat): seq<nat>
  {
    if Present(E(ram, pt, k)) then [FrameOf(E(ram, pt, k))] else []
  }

  function Cells(ram: seq<Word>, pt: nat): (cs: seq<seq<nat>>)
    ensures |cs| == ENTRIES && forall k | 0 <= k < ENTRIES :: cs[k] == Cell(ram, pt, k)
  {
    seq(ENTRIES, k requires 0 <= k < ENTRIES => Cell(ram, pt, k))
  }

  /** Directory entry i, if present, gives back the frames in its table, then the table. */
  function Group(ram: seq<Word>, pd: nat, i: nat): seq<nat>
  {
    if Present(E(ram, pd, i)) then Flatten(Cells(ram, FrameOf(E(ram, pd, i)))) + [FrameOf(E(ram, pd, i))] else []
  }

  function Groups(ram: seq<Word>, pd: nat): (gs: seq<seq<nat>>)
    ensures |gs| == USER_ENTRIES && forall i | 0 <= i < USER_ENTRIES :: gs[i] == Group(ram, pd, i)
  {
    seq(USER_ENTRIES, i requires 0 <= i < USER_ENTRIES => Group(ram, pd, i))
  }

  /** Everything pagedir_destroy gives back, in order. */
  function GivenBack(ram: seq<Word>, pd: nat): seq<nat>
  {
    Flatten(Groups(ram, pd)) + [pd]
  }

  // ----- each frame once

  lemma Together(i: nat, k: nat)
    requires k < ENTRIES && i < USER_ENTRIES
    ensures i * ENTRIES + k < USER_PAGES && (i * ENTRIES + k) / ENTRIES == i && (i * ENTRIES + k) % ENTRIES == k
  {
  }

  /** The cell of a present entry is the frame of the page there. */
  lemma CellIs(ram: seq<Word>, pd: nat, i: nat, k: nat)
    requires Valid(ram, pd) && i < USER_ENTRIES && k < ENTRIES && TableOf(ram, pd, i).Some?
    ensures var u := i * ENTRIES + k;
      Cell(ram, TableOf(ram, pd, i).value, k) == if IsMapped(ram, pd, u) then [FrameAt(ram, pd, u)] else []
  {
    Together(i, k);
  }

  /** What directory entry i gives back: its table, and the frames of the pages it covers. */
  lemma GroupHas(ram: seq<Word>, pd: nat, i: nat, f: nat)
    requires Valid(ram, pd) && i < USER_ENTRIES && f in Group(ram, pd, i)
    ensures TableOf(ram, pd, i).Some?
    ensures f == TableOf(ram, pd, i).value || exists u: nat :: u / ENTRIES == i && IsMapped(ram, pd, u) && FrameAt(ram, pd, u) == f
  {
    var pt := FrameOf(E(ram, pd, i));
    if f != pt {
      assert f in Flatten(Cells(ram, pt));
      FlattenHas(Cells(ram, pt), f);
      var k :| 0 <= k < ENTRIES && f in Cells(ram, pt)[k];
      CellIs(ram, pd, i, k);
      Together(i, k);
      assert IsMapped(ram, pd, i * ENTRIES + k) && FrameAt(ram, pd, i * ENTRIES + k) == f;
    }
  }

  lemma GroupCovers(ram: seq<Word>, pd: nat, u: nat)
    requires Valid(ram, pd) && IsMapped(ram, pd, u)
    ensures FrameAt(ram, pd, u) in Group(ram, pd, u / ENTRIES)
  {
    var i, k := u / ENTRIES, u % ENTRIES;
    var pt := TableOf(ram, pd, i).value;
    CellIs(ram, pd, i, k);
    assert FrameAt(ram, pd, u) in Cells(ram, pt)[k];
    FlattenHas(Cells(ram, pt), FrameAt(ram, pd, u));
  }

  /** The list holds exactly the mapped frames, the user page tables and the directory. */
  lemma GivenBackIs(ram: seq<Word>, pd: nat, f: nat)
    requires Valid(ram, pd)
    ensures f in GivenBack(ram, pd) <==>
      || f == pd
      || (exists i: nat :: i < USER_ENTRIES && TableOf(ram, pd, i) == Some(f))
      || exists u: nat :: IsMapped(ram, pd, u) && FrameAt(ram, pd, u) == f
  {
    var gs := Groups(ram, pd);
    FlattenHas(gs, f);
    if f in Flatten(gs) {
      var i :| 0 <= i < USER_ENTRIES && f in gs[i];
      GroupHas(ram, pd, i, f);
    }
    if i: nat :| i < USER_ENTRIES && TableOf(ram, pd, i) == Some(f) {
      assert f in gs[i];
    }
    if u: nat :| IsMapped(ram, pd, u) && FrameAt(ram, pd, u) == f {
      GroupCovers(ram, pd, u);
      assert f in gs[u / ENTRIES];
    }
  }

  lemma GroupDistinct(ram: seq<Word>, pd: nat, i: nat)
    requires Valid(ram, pd) && Unaliased(ram, pd) && i < USER_ENTRIES
    ensures Distinct(Group(ram, pd, i))
  {
    if TableOf(ram, pd, i).Some? {
      var pt := TableOf(ram, pd, i).value;
      var cs := Cells(ram, pt);
      forall k | 0 <= k < ENTRIES ensures Distinct(cs[k]) && pt !in cs[k] {
        CellIs(ram, pd, i, k);
      }
      forall k, l, x | 0 <= k < l < ENTRIES && x in cs[k] ensures x !in cs[l] {
        CellIs(ram, pd, i, k);
        CellIs(ram, pd, i, l);
      }
      FlattenDistinct(cs);
      FlattenHas(cs, pt);
      DistinctConcat(Flatten(cs), [pt]);
    }
  }

  lemma GroupsApart(ram: seq<Word>, pd: nat, i: nat, j: nat, x: nat)
    requires Valid(ram, pd) && Unaliased(ram, pd) && i < j < USER_ENTRIES && x in Group(ram, pd, i)
    ensures x !in Group(ram, pd, j)
  {
    GroupHas(ram, pd, i, x);
    if x in Group(ram, pd, j) {
      GroupHas(ram, pd, j, x);
      TablesApart(ram, pd, i, j);
    }
  }

  /** With unaliased frames, every present user frame, every user page table and the directory is
      given back once, and no page table of the kernel is. */
  lemma GivenBackOnce(ram: seq<Word>, pd: nat)
    requires Valid(ram, pd) && Unaliased(ram, pd)
    ensures Distinct(GivenBack(ram, pd))
    ensures forall i: nat | USER_ENTRIES <= i < ENTRIES && TableOf(ram, pd, i).Some? && TableOf(ram, pd, i).value != pd ::
              TableOf(ram, pd, i).value !in GivenBack(ram, pd)
  {
    var gs := Groups(ram, pd);
    forall i | 0 <= i < USER_ENTRIES ensures Distinct(gs[i]) && pd !in gs[i] {
      GroupDistinct(ram, pd, i);
      NotInGroup(ram, pd, i, pd);
    }
    forall i, j, x | 0 <= i < j < USER_ENTRIES && x in gs[i] ensures x !in gs[j] {
      GroupsApart(ram, pd, i, j, x);
    }
    FlattenDistinct(gs);
    FlattenHas(gs, pd);
    DistinctConcat(Flatten(gs), [pd]);
    forall i: nat | USER_ENTRIES <= i < ENTRIES && TableOf(ram, pd, i).Some? && TableOf(ram, pd, i).value != pd
      ensures TableOf(ram, pd, i).value !in GivenBack(ram, pd)
    {
      GivenBackIs(ram, pd, TableOf(ram, pd, i).value);
    }
  }

  lemma NotInGroup(ram: seq<Word>, pd: nat, i: nat, f: nat)
    requires Valid(ram, pd) && Unaliased(ram, pd) && i < USER_ENTRIES && f == pd
    ensures f !in Group(ram, pd, i)
  {
    if f in Group(ram, pd, i) {
      GroupHas(ram, pd, i, f);
    }
  }

  // ----- the program

  /** Frames that are not in `freed` are as they were. */
  ghost predicate Intact(ram: seq<Word>, ram': seq<Word>, freed: seq<nat>)
  {
    |ram'| == |ram| && forall g: nat, j: nat {:trigger E(ram', g, j)} | j < ENTRIES && g !in freed :: E(ram', g, j) == E(ram, g, j)
  }

  /** palloc_free_page, which overwrites the page. */
  method FreePage(m: Mmu, f: nat, freed0: seq<nat>) returns (freed: seq<nat>)
    requires (f + 1) * ENTRIES <= m.ram.Length
    modifies m.ram
    ensures freed == freed0 + [f] && Intact(old(m.ram[..]), m.ram[..], [f])
  {
    for i := 0 to ENTRIES
      invariant Intact(old(m.ram[..]), m.ram[..], [f])
    {
      m.Put(f, i, 0xcccc_cccc);
    }
    freed := freed0 + [f];
  }

  lemma IntactTrans(a: seq<Word>, b: seq<Word>, c: seq<Word>, s: seq<nat>, f: nat)
    requires Intact(a, b, s) && Intact(b, c, [f])
    ensures Intact(a, c, s + [f])
  {
    forall g: nat, j: nat | j < ENTRIES && g !in s + [f] ensures E(c, g, j) == E(a, g, j) {
      assert E(b, g, j) == E(a, g, j);
    }
  }

  /** The table of entry i is not among what earlier entries, or its own cells, give back. */
  lemma TableComesLater(ram: seq<Word>, pd: nat, i: nat, k: nat)
    requires Valid(ram, pd) && Unaliased(ram, pd) && i < USER_ENTRIES && k <= ENTRIES && TableOf(ram, pd, i).Some?
    ensures var pt := TableOf(ram, pd, i).value;
      pt !in Flatten(Groups(ram, pd)[..i]) + Flatten(Cells(ram, pt)[..k])
  {
    var pt := TableOf(ram, pd, i).value;
    var earlier: seq<seq<nat>> := Groups(ram, pd)[..i];
    assert pt in Group(ram, pd, i);
    forall j: nat | j < i ensures pt !in earlier[j] {
      GroupsApartBack(ram, pd, j, i, pt);
    }
    FlattenHas(earlier, pt);
    forall l: nat | l < k ensures pt !in Cells(ram, pt)[..k][l] {
      CellIs(ram, pd, i, l);
    }
    FlattenHas(Cells(ram, pt)[..k], pt);
  }

  lemma GroupsApartBack(ram: seq<Word>, pd: nat, i: nat, j: nat, x: nat)
    requires Valid(ram, pd) && Unaliased(ram, pd) && i < j < USER_ENTRIES && x in Group(ram, pd, j)
    ensures x !in Group(ram, pd, i)
  {
    if x in Group(ram, pd, i) {
      GroupsApart(ram, pd, i, j, x);
    }
  }

  lemma DirectoryComesLast(ram: seq<Word>, pd: nat, i: nat)
    requires Valid(ram, pd) && Unaliased(ram, pd) && i <= USER_ENTRIES
    ensures pd !in Flatten(Groups(ram, pd)[..i])
  {
    forall j: nat | j < i ensures pd !in Groups(ram, pd)[..i][j] {
      NotInGroup(ram, pd, j, pd);
    }
    FlattenHas(Groups(ram, pd)[..i], pd);
  }

  /** One round of the inner loop. */
  method FreeEntry(m: Mmu, pt: nat, k: nat, ghost ram: seq<Word>, freed0: seq<nat>) returns (freed: seq<nat>)
    requires k < ENTRIES && pt !in freed0 && Intact(ram, m.ram[..], freed0) && (pt + 1) * ENTRIES <= m.ram.Length
    requires Present(E(ram, pt, k)) ==> (FrameOf(E(ram, pt, k)) + 1) * ENTRIES <= m.ram.Length
    modifies m.ram
    ensures freed == freed0 + Cell(ram, pt, k) && Intact(ram, m.ram[..], freed)
  {
    freed := freed0;
    var pte := m.ram[pt * ENTRIES + k];
    assert pte == E(m.ram[..], pt, k) == E(ram, pt, k);
    if Present(pte) {
      ghost var before := m.ram[..];
      freed := FreePage(m, FrameOf(pte), freed0);
      IntactTrans(ram, before, m.ram[..], freed0, FrameOf(pte));
    }
  }

  /** While its cells are given back, table pt itself has not been, and its frames are in memory. */
  ghost predicate SafeTable(ram: seq<Word>, pt: nat, freed: seq<nat>)
  {
    forall k: nat {:trigger Cell(ram, pt, k)} | k < ENTRIES ::
      && pt !in freed + Flatten(Cells(ram, pt)[..k])
      && (Present(E(ram, pt, k)) ==> (FrameOf(E(ram, pt, k)) + 1) * ENTRIES <= |ram|)
  }

  lemma TableIsSafe(ram: seq<Word>, pd: nat, i: nat)
    requires Valid(ram, pd) && Unaliased(ram, pd) && i < USER_ENTRIES && TableOf(ram, pd, i).Some?
    ensures SafeTable(ram, TableOf(ram, pd, i).value, Flatten(Groups(ram, pd)[..i]))
  {
    var pt := TableOf(ram, pd, i).value;
    forall k: nat | k < ENTRIES
      ensures pt !in Flatten(Groups(ram, pd)[..i]) + Flatten(Cells(ram, pt)[..k])
      ensures Present(E(ram, pt, k)) ==> (FrameOf(E(ram, pt, k)) + 1) * ENTRIES <= |ram|
    {
      TableComesLater(ram, pd, i, k);
      CellIs(ram, pd, i, k);
    }
  }

  /** The inner loop: the frames that one page table maps. */
  method FreeFrames(m: Mmu, pt: nat, ghost ram: seq<Word>, freed0: seq<nat>) returns (freed: seq<nat>)
    requires (pt + 1) * ENTRIES <= |ram| && Intact(ram, m.ram[..], freed0) && SafeTable(ram, pt, freed0)
    modifies m.ram
    ensures freed == freed0 + Flatten(Cells(ram, pt)) && Intact(ram, m.ram[..], freed)
  {
    freed := freed0;
    ghost var cs := Cells(ram, pt);
    for k := 0 to ENTRIES
      invariant freed == freed0 + Flatten(cs[..k]) && Intact(ram, m.ram[..], freed)
    {
      FlattenNext(cs, k);
      assert cs[k] == Cell(ram, pt, k);
      freed := FreeEntry(m, pt, k, ram, freed);
    }
    assert cs[..ENTRIES] == cs;
  }

  /** pagedir_destroy of a directory without shared frames: nothing is read after it was given back,
      and the pages given back are those of GivenBack. */
  method PagedirDestroy(m: Mmu, pd: nat) returns (freed: seq<nat>)
    requires Valid(m.ram[..], pd) && Unaliased(m.ram[..], pd)
    modifies m.ram
    ensures freed == GivenBack(old(m.ram[..]), pd)
  {
    ghost var ram := m.ram[..];
    ghost var gs := Groups(ram, pd);
    freed := [];
    for i := 0 to USER_ENTRIES
      invariant freed == Flatten(gs[..i]) && Intact(ram, m.ram[..], freed)
    {
      DirectoryComesLast(ram, pd, i);
      FlattenNext(gs, i);
      var pde := m.ram[pd * ENTRIES + i];
      assert pde == E(m.ram[..], pd, i) == E(ram, pd, i);
      if Present(pde) {
        freed := FreeTable(m, FrameOf(pde), ram, pd, i, freed);
      }
    }
    assert gs[..USER_ENTRIES] == gs;
    freed := FreePage(m, pd, freed);
  }

  /** The body of the outer loop for a present entry. */
  method FreeTable(m: Mmu, pt: nat, ghost ram: seq<Word>, ghost pd: nat, ghost i: nat, freed0: seq<nat>) returns (freed: seq<nat>)
    requires Valid(ram, pd) && Unaliased(ram, pd) && i < USER_ENTRIES && TableOf(ram, pd, i) == Some(pt)
    requires freed0 == Flatten(Groups(ram, pd)[..i]) && Intact(ram, m.ram[..], freed0)
    modifies m.ram
    ensures freed == freed0 + Group(ram, pd, i) && Intact(ram, m.ram[..], freed)
  {
    GroupIs(ram, pd, i, pt);
    TableIsSafe(ram, pd, i);
    freed := FreeFrames(m, pt, ram, freed0);
    ghost var before, was := m.ram[..], freed;
    freed := FreePage(m, pt, freed);
    IntactTrans(ram, before, m.ram[..], was, pt);
  }

  lemma GroupIs(ram: seq<Word>, pd: nat, i: nat, pt: nat)
    requires Valid(ram, pd) && i < USER_ENTRIES && TableOf(ram, pd, i) == Some(pt)
    ensures Group(ram, pd, i) == Flatten(Cells(ram, pt)) + [pt] && (pt + 1) * ENTRIES <= |ram|
  {
  }
}
