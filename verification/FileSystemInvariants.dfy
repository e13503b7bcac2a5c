/** What every run of the file system keeps: disjoint, marked extents for every inode that is
    named or open, cached headers that match the disk, and exact reference counts. */
module FileSystemInvariants {
  import opened Disk
  import opened Bitmap
  import opened Geometry
  import opened Directory
  import opened FileSystem

  /** The part of the invariant that holds between the steps of an operation. */
  ghost predicate Core(fs: State, live: set<nat>)
  {
    && Sound(fs.disk, fs.used, live)
    && FREE_MAP_SECTOR in live
    && FREE_MAP_SECTOR in fs.inodes && FreeMapHeader(fs) == HeaderOf(fs.disk, FREE_MAP_SECTOR)
  }

  /** A step that leaves tables, live headers and the bytes of every live file but the free map alone. */
  ghost predicate Quiet(fs: State, fs': State, live: set<nat>)
  {
    && fs'.inodes == fs.inodes && fs'.files == fs.files
    && SameHeaders(fs.disk, fs'.disk, live)
    && SameFiles(fs.disk, fs'.disk, live - {FREE_MAP_SECTOR})
  }

  lemma QuietTrans(fs0: State, fs1: State, fs2: State, live: set<nat>)
    requires Quiet(fs0, fs1, live) && Quiet(fs1, fs2, live)
    ensures Quiet(fs0, fs2, live)
  {
  }

  // ----- free map steps

  lemma SaveBitmapKeeps(fs: State, bounce: bool, live: set<nat>)
    requires Core(fs, live)
    ensures var fs' := SaveBitmap(fs, bounce).1;
      Core(fs', live) && Quiet(fs, fs', live) && fs'.used == fs.used
  {
    var bytes := BitmapBytes(fs.used);
    var n := Transferred(|bytes|, 0, FreeMapHeader(fs).length, bounce);
    PatchIsLocal(fs.disk, fs.used, live, FREE_MAP_SECTOR, 0, bytes[..n]);
  }

  lemma AllocateKeeps(fs: State, cnt: nat, bounce: bool, live: set<nat>)
    requires Core(fs, live)
    ensures var (at, fs') := Allocate(fs, cnt, bounce);
      && Core(fs', live) && Quiet(fs, fs', live)
      && (at.None? ==> fs'.used == fs.used)
      && (at.Some? ==> Run(fs.used, at.value, cnt, false) && fs'.used == SetRun(fs.used, at.value, cnt, true))
  {
    var at := FirstClear(fs.used, cnt);
    if at.Some? {
      var marked := fs.(used := SetRun(fs.used, at.value, cnt, true));
      SoundAfterMark(fs.disk, fs.used, live, marked.used);
      SaveBitmapKeeps(marked, bounce, live);
      SoundAfterWrite(fs.disk, fs.used, live, SaveBitmap(marked, bounce).1.disk);
    }
  }

  lemma ReleaseKeeps(fs: State, start: nat, cnt: nat, bounce: bool, live: set<nat>)
    requires Core(fs, live)
    requires forall s, x | s in live && start <= x < start + cnt :: !Owns(fs.disk, s, x)
    ensures var fs' := Release(fs, start, cnt, bounce);
      && Core(fs', live) && Quiet(fs, fs', live)
      && (Run(fs.used, start, cnt, true) ==> fs'.used == SetRun(fs.used, start, cnt, false))
  {
    if Run(fs.used, start, cnt, true) {
      SoundAfterRelease(fs.disk, fs.used, live, start, cnt);
      SaveBitmapKeeps(fs.(used := SetRun(fs.used, start, cnt, false)), bounce, live);
    }
  }

  // ----- inode creation

  /** Creating an inode at a marked, unowned sector adds it to the live set with zeroed bytes. */
  lemma InodeCreateKeeps(fs: State, sector: nat, length: nat, header: bool, bounce: bool, live: set<nat>)
    requires Core(fs, live) && sector < |fs.disk| && fs.used[sector] && length < 0x1_0000_0000
    requires forall t | t in live :: !Owns(fs.disk, t, sector)
    ensures var (ok, fs') := InodeCreate(fs, sector, length, header, bounce);
      && Core(fs', live) && Quiet(fs, fs', live) && fs'.used[sector]
      && (!ok ==> fs'.used == fs.used)
      && (ok ==> Created(fs, fs', sector, length, live))
  {
    if header {
      var cnt := BytesToSectors(length);
      var (at, fs1) := Allocate(fs, cnt, bounce);
      AllocateKeeps(fs, cnt, bounce, live);
      if at.Some? {
        var h := Header(at.value, length);
        SameOwners(fs.disk, fs1.disk, live);
        FormattedKeeps(fs1, sector, h, live, fs.used);
        var fs2 := fs1.(disk := Formatted(fs1.disk, sector, h));
        QuietTrans(fs, fs1, fs2, live);
        assert InodeCreate(fs, sector, length, header, bounce) == (true, fs2);
      }
    }
  }

  lemma SameRoot(fs: State, fs': State, live: set<nat>)
    requires Quiet(fs, fs', live) && ROOT_DIR_SECTOR in live
    ensures Root(fs'.disk) == Root(fs.disk)
  {
    assert ROOT_DIR_SECTOR in live - {FREE_MAP_SECTOR};
  }

  lemma SameOwners(disk: Device, disk': Device, live: set<nat>)
    requires SameHeaders(disk, disk', live)
    ensures forall t, x | t in live :: Owns(disk', t, x) <==> Owns(disk, t, x)
  {
  }

  /** A new file: live, zeroed, and on sectors that were clear before. */
  ghost predicate Created(fs: State, fs': State, sector: nat, length: nat, live: set<nat>)
  {
    var h := HeaderOf(fs'.disk, sector);
    && Core(fs', live + {sector})
    && h.length == length && Content(fs'.disk, h) == seq(length, _ => 0)
    && Run(fs.used, h.start, BytesToSectors(length), false)
  }

  lemma FormattedKeeps(fs: State, sector: nat, h: Header, live: set<nat>, before: seq<bool>)
    requires Core(fs, live) && sector < |fs.disk| && h.length < 0x1_0000_0000
    requires |before| == |fs.used| && Run(before, h.start, BytesToSectors(h.length), false) && before[sector]
    requires fs.used == SetRun(before, h.start, BytesToSectors(h.length), true)
    requires forall t, x | t in live && Owns(fs.disk, t, x) :: before[x]
    requires forall t | t in live :: !Owns(fs.disk, t, sector)
    ensures var fs' := fs.(disk := Formatted(fs.disk, sector, h));
      && Core(fs', live) && Quiet(fs, fs', live) && Core(fs', live + {sector})
      && HeaderOf(fs'.disk, sector) == h && Content(fs'.disk, h) == seq(h.length, _ => 0)
  {
    var d, d' := fs.disk, Formatted(fs.disk, sector, h);
    FormattedElsewhere(fs, sector, h, live, before);
    SoundAfterWrite(d, fs.used, live, d');
    FormattedNew(d, sector, h);
    forall t, x | t in live && InData(h, x) ensures !Owns(d', t, x) {
      assert Owns(d', t, x) <==> Owns(d, t, x);
    }
    SoundAfterAdd(d', fs.used, live, sector, h);
  }

  /** Formatting writes only to sectors that no live file owns. */
  lemma FormattedElsewhere(fs: State, sector: nat, h: Header, live: set<nat>, before: seq<bool>)
    requires Core(fs, live) && sector < |fs.disk|
    requires |before| == |fs.used| && Run(before, h.start, BytesToSectors(h.length), false) && before[sector]
    requires forall t, x | t in live && Owns(fs.disk, t, x) :: before[x]
    requires forall t | t in live :: !Owns(fs.disk, t, sector)
    ensures var d' := Formatted(fs.disk, sector, h);
      && (forall t | t in live :: d'[t] == fs.disk[t])
      && SameFiles(fs.disk, d', live)
  {
    var d, d' := fs.disk, Formatted(fs.disk, sector, h);
    forall t | t in live ensures d'[t] == d[t] {
      assert Owns(d, t, t);
    }
    forall t | t in live ensures Content(d', HeaderOf(d', t)) == Content(d, HeaderOf(d, t)) {
      var g := HeaderOf(d, t);
      forall i | 0 <= i < g.length ensures Content(d', g)[i] == Content(d, g)[i] {
        assert Owns(d, t, g.start + i / 512);
      }
    }
  }

  lemma FormattedNew(d: Device, sector: nat, h: Header)
    requires sector < |d| && !InData(h, sector) && Fits(d, h) && h.start < 0x1_0000_0000 && h.length < 0x1_0000_0000
    ensures var d' := Formatted(d, sector, h);
      HeaderOf(d', sector) == h && Content(d', h) == seq(h.length, _ => 0)
  {
    HeaderRoundTrip(h);
    var d' := Formatted(d, sector, h);
    forall i | 0 <= i < h.length ensures Content(d', h)[i] == 0 {
      assert InData(h, h.start + i / 512);
    }
  }

  // ----- root directory steps

  /** The device after part of entry k of the root directory was rewritten. */
  ghost function RootPut(disk: Device, k: nat, e: Entry): Device
  {
    var n := if k < |Root(disk)| then 20 else |RootBytes(disk)| % 20;
    Patched(disk, HeaderOf(disk, ROOT_DIR_SECTOR), 20 * k, e[..n])
  }

  lemma RootPutBytes(fs: State, k: nat, e: Entry, live: set<nat>)
    requires Core(fs, live) && ROOT_DIR_SECTOR in live && k <= |Root(fs.disk)|
    requires HeaderOf(RootPut(fs.disk, k, e), ROOT_DIR_SECTOR) == HeaderOf(fs.disk, ROOT_DIR_SECTOR)
    ensures var d := RootPut(fs.disk, k, e);
      && RootBytes(d) == PutSlot(RootBytes(fs.disk), k, e)
      && Root(d) == if k < |Root(fs.disk)| then Root(fs.disk)[k := e] else Root(fs.disk)
  {
    var c, h := RootBytes(fs.disk), HeaderOf(fs.disk, ROOT_DIR_SECTOR);
    var n := if k < |Root(fs.disk)| then 20 else |c| % 20;
    assert 20 * k + n <= |c|;
    PatchedContent(fs.disk, h, 20 * k, e[..n]);
    assert n == 0 ==> Splice(c, 20 * k, e[..n]) == c;
    PutSlotEntries(c, k, e);
  }

  /** Rewriting part of one entry of the root directory. */
  lemma RootPutKeeps(fs: State, k: nat, e: Entry, live: set<nat>)
    requires Core(fs, live) && ROOT_DIR_SECTOR in live && k <= |Root(fs.disk)|
    ensures var fs' := fs.(disk := RootPut(fs.disk, k, e));
      && Core(fs', live) && SameHeaders(fs.disk, fs'.disk, live)
      && SameFiles(fs.disk, fs'.disk, live - {ROOT_DIR_SECTOR})
      && RootBytes(fs'.disk) == PutSlot(RootBytes(fs.disk), k, e)
      && Root(fs'.disk) == if k < |Root(fs.disk)| then Root(fs.disk)[k := e] else Root(fs.disk)
  {
    var n := if k < |Root(fs.disk)| then 20 else |RootBytes(fs.disk)| % 20;
    PatchIsLocal(fs.disk, fs.used, live, ROOT_DIR_SECTOR, 20 * k, e[..n]);
    RootPutBytes(fs, k, e, live);
  }

  /** The bytes of the root directory change as the directory layer says. */
  lemma RootAddRefines(fs: State, name: Name, sector: nat, m: Memory, live: set<nat>)
    requires Core(fs, live) && ROOT_DIR_SECTOR in live
    ensures var (ok, fs') := RootAdd(fs, name, sector, m);
      AddResult(RootBytes(fs.disk), name, sector, Cut(m.seen, |Root(fs.disk)|), Cut(m.tried, |Root(fs.disk)|),
                m.stored, m.stale, ok, RootBytes(fs'.disk))
  {
    var es := Root(fs.disk);
    if ValidName(name) && FindName(es[..Cut(m.seen, |es|)], name).None? && m.stored {
      var k := FindFree(es[..Cut(m.tried, |es|)]);
      RootPutKeeps(fs, k, NewEntry(m.stale, name, sector), live);
    }
  }

  lemma RootAddKeeps(fs: State, name: Name, sector: nat, m: Memory, live: set<nat>)
    requires Core(fs, live) && ROOT_DIR_SECTOR in live && DistinctSectors(Root(fs.disk))
    requires ROOT_DIR_SECTOR < sector < 0x1_0000_0000 && sector !in NamedBy(Root(fs.disk))
    ensures var (ok, fs') := RootAdd(fs, name, sector, m);
      && fs' == fs.(disk := fs'.disk)
      && Core(fs', live) && SameHeaders(fs.disk, fs'.disk, live)
      && SameFiles(fs.disk, fs'.disk, live - {ROOT_DIR_SECTOR})
      && DistinctSectors(Root(fs'.disk))
      && (ok ==> sector in NamedBy(Root(fs'.disk)) && NamedBy(Root(fs'.disk)) <= NamedBy(Root(fs.disk)) + {sector})
      && (!ok ==> Root(fs'.disk) == Root(fs.disk))
  {
    var es := Root(fs.disk);
    if ValidName(name) && FindName(es[..Cut(m.seen, |es|)], name).None? && m.stored {
      var k := FindFree(es[..Cut(m.tried, |es|)]);
      var e := NewEntry(m.stale, name, sector);
      NewEntryFields(m.stale, name, sector);
      RootPutKeeps(fs, k, e, live);
      if k < |es| {
        PutDistinct(es, k, e);
      }
    }
  }

  lemma PutDistinct(es: seq<Entry>, k: nat, e: Entry)
    requires DistinctSectors(es) && k < |es|
    requires InUse(e) ==> EntrySector(e) !in NamedBy(es) && EntrySector(e) > ROOT_DIR_SECTOR
    ensures DistinctSectors(es[k := e])
    ensures NamedBy(es[k := e]) <= NamedBy(es) + (if InUse(e) then {EntrySector(e)} else {})
    ensures InUse(e) ==> EntrySector(e) in NamedBy(es[k := e])
    ensures InUse(es[k]) && !InUse(e) ==> NamedBy(es[k := e]) == NamedBy(es) - {EntrySector(es[k])}
  {
    var es' := es[k := e];
    assert es'[k] == e && es[k] in es;
    forall i | 0 <= i < |es| && InUse(es[i]) ensures EntrySector(es[i]) in NamedBy(es) {
      assert es[i] in es;
    }
    forall x | x in NamedBy(es') ensures x in NamedBy(es) + (if InUse(e) then {EntrySector(e)} else {}) {
      var i :| 0 <= i < |es'| && InUse(es'[i]) && EntrySector(es'[i]) == x;
      if i != k { assert es'[i] == es[i]; }
    }
    if InUse(es[k]) && !InUse(e) {
      PutErases(es, k, e);
    }
  }

  lemma PutErases(es: seq<Entry>, k: nat, e: Entry)
    requires DistinctSectors(es) && k < |es| && InUse(es[k]) && !InUse(e)
    ensures NamedBy(es[k := e]) == NamedBy(es) - {EntrySector(es[k])}
  {
    var es' := es[k := e];
    forall x | x in NamedBy(es) && x != EntrySector(es[k]) ensures x in NamedBy(es') {
      var i :| 0 <= i < |es| && InUse(es[i]) && EntrySector(es[i]) == x;
      assert es'[i] == es[i] && es'[i] in es';
    }
    forall x | x in NamedBy(es') ensures x in NamedBy(es) && x != EntrySector(es[k]) {
      var i :| 0 <= i < |es'| && InUse(es'[i]) && EntrySector(es'[i]) == x;
      assert i != k && es'[i] == es[i] && es[i] in es;
    }
  }

  // ----- creation

  /** What an operation that leaves the inode table alone does to storage. */
  ghost predicate KeepsStorage(fs: State, fs': State)
  {
    && StorageInv(fs') && fs'.inodes == fs.inodes && fs'.files == fs.files
    && SameHeaders(fs.disk, fs'.disk, Live(fs))
    && SameFiles(fs.disk, fs'.disk, Live(fs) - {FREE_MAP_SECTOR, ROOT_DIR_SECTOR})
  }

  /** An operation ends well if its intermediate invariant covers what is named and open. */
  lemma SettleStorage(fs: State, fs': State)
    requires StorageInv(fs) && fs'.inodes == fs.inodes
    requires SameHeaders(fs.disk, fs'.disk, Live(fs))
    requires Sound(fs'.disk, fs'.used, Live(fs')) && DistinctSectors(Root(fs'.disk))
    requires forall s | s in fs.inodes && fs.inodes[s].removed :: s !in NamedBy(Root(fs'.disk))
    ensures StorageInv(fs')
  {
    forall s | s in fs'.inodes ensures fs'.inodes[s].hdr == HeaderOf(fs'.disk, s) {
      assert s in Live(fs);
    }
  }

  lemma Settle(fs: State, fs': State)
    requires StorageInv(fs) && fs'.inodes == fs.inodes && fs'.files == fs.files
    requires SameHeaders(fs.disk, fs'.disk, Live(fs))
    requires SameFiles(fs.disk, fs'.disk, Live(fs) - {FREE_MAP_SECTOR, ROOT_DIR_SECTOR})
    requires Sound(fs'.disk, fs'.used, Live(fs')) && DistinctSectors(Root(fs'.disk))
    requires forall s | s in fs.inodes && fs.inodes[s].removed :: s !in NamedBy(Root(fs'.disk))
    ensures KeepsStorage(fs, fs')
  {
    SettleStorage(fs, fs');
  }

  /** A write to a user file, as far as storage is concerned. */
  lemma SettleWrite(fs: State, fs': State, s: nat)
    requires StorageInv(fs) && fs'.inodes == fs.inodes && s > ROOT_DIR_SECTOR
    requires SameHeaders(fs.disk, fs'.disk, Live(fs)) && Sound(fs'.disk, fs'.used, Live(fs))
    requires SameFiles(fs.disk, fs'.disk, Live(fs) - {s})
    ensures StorageInv(fs') && Live(fs') == Live(fs)
  {
    assert ROOT_DIR_SECTOR in Live(fs) - {s};
    assert Root(fs'.disk) == Root(fs.disk);
    assert Live(fs') == Live(fs);
    SettleStorage(fs, fs');
  }

  lemma SettleSameRoot(fs: State, fs': State)
    requires StorageInv(fs) && fs'.inodes == fs.inodes && fs'.files == fs.files
    requires Core(fs', Live(fs)) && Quiet(fs, fs', Live(fs))
    ensures KeepsStorage(fs, fs') && Root(fs'.disk) == Root(fs.disk)
  {
    assert ROOT_DIR_SECTOR in Live(fs) - {FREE_MAP_SECTOR};
    assert Root(fs'.disk) == Root(fs.disk) && Live(fs') == Live(fs);
    Settle(fs, fs');
  }

  /** A creation at sector s names at most s anew, and nothing if it fails. */
  ghost predicate NamesGrow(fs: State, result: (bool, State), s: nat)
  {
    if result.0 then NamedBy(Root(result.1.disk)) <= NamedBy(Root(fs.disk)) + {s}
    else Root(result.1.disk) == Root(fs.disk)
  }

  lemma CreateKeepsStorage(fs: State, name: Name, length: nat, m: Memory)
    requires StorageInv(fs) && length < 0x8000_0000
    ensures KeepsStorage(fs, Create(fs, name, length, m).1)
    ensures var at := FirstClear(fs.used, 1);
      NamesGrow(fs, Create(fs, name, length, m), if at.Some? then at.value else 0)
  {
    if m.root {
      var (at, fs1) := Allocate(fs, 1, m.map1);
      AllocateKeeps(fs, 1, m.map1, Live(fs));
      SettleSameRoot(fs, fs1);
      if at.Some? {
        assert !fs.used[at.value] && fs1.used[at.value];
        NewSectorUnowned(fs, fs1, at.value, Live(fs));
        SameRoot(fs, fs1, Live(fs));
        CreateAtKeeps(fs, fs1, at.value, name, length, m);
      }
    } else {
      SettleSameRoot(fs, fs);
    }
  }

  /** An intermediate state of a creation at sector s. */
  ghost predicate Creating(fs: State, fs1: State, s: nat)
  {
    && StorageInv(fs) && Core(fs1, Live(fs)) && Quiet(fs, fs1, Live(fs)) && Root(fs1.disk) == Root(fs.disk)
    && ROOT_DIR_SECTOR < s < |fs1.disk| && fs1.used[s] && s !in NamedBy(Root(fs.disk))
    && forall t | t in Live(fs) :: !Owns(fs1.disk, t, s)
  }

  lemma CreateAtKeeps(fs: State, fs1: State, s: nat, name: Name, length: nat, m: Memory)
    requires Creating(fs, fs1, s) && length < 0x8000_0000
    ensures KeepsStorage(fs, CreateAt(fs1, s, name, length, m).1) && NamesGrow(fs, CreateAt(fs1, s, name, length, m), s)
  {
    InodeCreateKeeps(fs1, s, length, m.header, m.map2, Live(fs));
    var (made, fs2) := InodeCreate(fs1, s, length, m.header, m.map2);
    QuietTrans(fs, fs1, fs2, Live(fs));
    SameRoot(fs1, fs2, Live(fs));
    SameOwners(fs1.disk, fs2.disk, Live(fs));
    if made {
      LinkAtKeeps(fs, fs2, s, name, m);
    } else {
      Undo(fs, fs2, s, m.map3);
    }
  }

  lemma LinkAtKeeps(fs: State, fs2: State, s: nat, name: Name, m: Memory)
    requires Creating(fs, fs2, s) && Core(fs2, Live(fs) + {s})
    ensures KeepsStorage(fs, LinkAt(fs2, s, name, m).1) && NamesGrow(fs, LinkAt(fs2, s, name, m), s)
  {
    RootAddKeeps(fs2, name, s, m, Live(fs) + {s});
    if RootAdd(fs2, name, s, m).0 {
      LinkMade(fs, fs2, s, name, m);
    } else {
      LinkUndone(fs, fs2, s, name, m);
    }
  }

  lemma LinkMade(fs: State, fs2: State, s: nat, name: Name, m: Memory)
    requires Creating(fs, fs2, s) && Core(fs2, Live(fs) + {s}) && RootAdd(fs2, name, s, m).0
    ensures var fs3 := RootAdd(fs2, name, s, m).1;
      KeepsStorage(fs, fs3) && NamedBy(Root(fs3.disk)) <= NamedBy(Root(fs.disk)) + {s}
  {
    var live := Live(fs);
    RootAddKeeps(fs2, name, s, m, live + {s});
    var fs3 := RootAdd(fs2, name, s, m).1;
    Unchanged(fs.disk, fs2.disk, fs3.disk, live, s);
    SoundAfterForget(fs3.disk, fs3.used, live + {s}, Live(fs3));
    NewIsNotOpen(fs, fs2, s);
    Settle(fs, fs3);
  }

  lemma Unchanged(d0: Device, d1: Device, d2: Device, live: set<nat>, s: nat)
    requires SameHeaders(d0, d1, live) && SameHeaders(d1, d2, live + {s})
    requires SameFiles(d0, d1, live - {FREE_MAP_SECTOR}) && SameFiles(d1, d2, live + {s} - {ROOT_DIR_SECTOR})
    ensures SameHeaders(d0, d2, live) && SameFiles(d0, d2, live - {FREE_MAP_SECTOR, ROOT_DIR_SECTOR})
  {
  }

  lemma LinkUndone(fs: State, fs2: State, s: nat, name: Name, m: Memory)
    requires Creating(fs, fs2, s) && Core(fs2, Live(fs) + {s}) && !RootAdd(fs2, name, s, m).0
    ensures var fs' := Release(RootAdd(fs2, name, s, m).1, s, 1, m.map3);
      KeepsStorage(fs, fs') && Root(fs'.disk) == Root(fs.disk)
  {
    var live := Live(fs);
    RootAddKeeps(fs2, name, s, m, live + {s});
    var fs3 := RootAdd(fs2, name, s, m).1;
    SoundAfterForget(fs3.disk, fs3.used, live + {s}, live);
    SameOwners(fs2.disk, fs3.disk, live);
    Undo(fs, fs3, s, m.map3);
  }

  lemma NewIsNotOpen(fs: State, fs2: State, s: nat)
    requires Creating(fs, fs2, s)
    ensures s !in fs.inodes
  {
    assert Owns(fs2.disk, s, s);
  }

  lemma NewSectorUnowned(fs: State, fs1: State, s: nat, live: set<nat>)
    requires StorageInv(fs) && live == Live(fs) && s < |fs.used| && !fs.used[s]
    requires SameHeaders(fs.disk, fs1.disk, live)
    ensures forall t | t in live :: !Owns(fs1.disk, t, s)
    ensures s !in live && s !in NamedBy(Root(fs.disk)) && s > ROOT_DIR_SECTOR
  {
    forall t | t in live ensures !Owns(fs1.disk, t, s) {
      assert Owns(fs1.disk, t, s) <==> Owns(fs.disk, t, s);
    }
    assert Owns(fs.disk, FREE_MAP_SECTOR, 0) && Owns(fs.disk, ROOT_DIR_SECTOR, 1);
    if s in live { assert Owns(fs1.disk, s, s); }
  }

  /** Giving back the header sector of a file that could not be created. */
  lemma Undo(fs: State, fs2: State, s: nat, bounce: bool)
    requires StorageInv(fs)
    requires Core(fs2, Live(fs)) && fs2.inodes == fs.inodes && fs2.files == fs.files
    requires SameHeaders(fs.disk, fs2.disk, Live(fs))
    requires SameFiles(fs.disk, fs2.disk, Live(fs) - {FREE_MAP_SECTOR, ROOT_DIR_SECTOR})
    requires Root(fs2.disk) == Root(fs.disk)
    requires forall t | t in Live(fs) :: !Owns(fs2.disk, t, s)
    ensures KeepsStorage(fs, Release(fs2, s, 1, bounce)) && Root(Release(fs2, s, 1, bounce).disk) == Root(fs.disk)
  {
    var live := Live(fs);
    ReleaseKeeps(fs2, s, 1, bounce, live);
    assert ROOT_DIR_SECTOR in live - {FREE_MAP_SECTOR};
    assert Root(Release(fs2, s, 1, bounce).disk) == Root(fs.disk);
    Settle(fs, Release(fs2, s, 1, bounce));
  }
}
