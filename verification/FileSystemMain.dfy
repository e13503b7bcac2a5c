/** Runs of the file system, from formatting on. */
module FileSystemMain {
  import opened Disk
  import opened Bitmap
  import opened Geometry
  import opened Directory
  import opened FileSystem
  import opened FileSystemInvariants
  import opened FileSystemRuns
  import opened FileSystemTheorems

  datatype Op =
    | OpCreate(name: Name, length: nat, m: Memory)
    | OpOpen(name: Name, fd: nat, m: Memory)
    | OpReopen(fd: nat, fd': nat, m: Memory)
    | OpClose(fd: nat, m: Memory)
    | OpRemove(name: Name, m: Memory)
    | OpDeny(fd: nat, deny: bool)
    | OpSeek(fd: nat, pos: nat)
    | OpRead(fd: nat, size: int, bounce: bool)
    | OpWrite(fd: nat, data: seq<Byte>, bounce: bool)

  predicate UserHandle(fs: State, fd: nat) { fd in fs.files && fd != FREE_MAP_FD }

  /** What a caller must respect: sizes fit off_t, handles are its own, new handles are new. */
  predicate Legal(fs: State, op: Op)
  {
    match op
    case OpCreate(_, length, _) => length < 0x8000_0000
    case OpOpen(_, fd, _) => fd !in fs.files
    case OpReopen(fd, fd', _) => UserHandle(fs, fd) && fd' !in fs.files
    case OpClose(fd, _) => UserHandle(fs, fd)
    case OpRemove(_, _) => true
    case OpDeny(fd, _) => UserHandle(fs, fd)
    case OpSeek(fd, _) => UserHandle(fs, fd)
    case OpRead(fd, _, _) => UserHandle(fs, fd)
    case OpWrite(fd, _, _) => UserHandle(fs, fd)
  }

  ghost function Apply(fs: State, op: Op): State
    requires Legal(fs, op)
  {
    match op
    case OpCreate(name, length, m) => Create(fs, name, length, m).1
    case OpOpen(name, fd, m) => Open(fs, name, fd, m).1
    case OpReopen(fd, fd', m) => Reopen(fs, fd, fd', m).1
    case OpClose(fd, m) => Close(fs, fd, m)
    case OpRemove(name, m) => Remove(fs, name, m).1
    case OpDeny(fd, deny) => SetDeny(fs, fd, deny)
    case OpSeek(fd, pos) => Moved(fs, fd, pos)
    case OpRead(fd, size, bounce) => Read(fs, fd, size, bounce).1
    case OpWrite(fd, data, bounce) => Write(fs, fd, data, bounce).1
  }

  /** The one file whose bytes an operation may change. */
  function Target(fs: State, op: Op): set<nat>
    requires Legal(fs, op)
  {
    if op.OpWrite? then {fs.files[op.fd].sector} else {}
  }

  /** Each operation keeps the invariant and the bytes of every other file, open or named,
      removed or not. */
  lemma StepKeeps(fs: State, op: Op)
    requires Inv(fs) && Legal(fs, op)
    ensures Inv(Apply(fs, op)) && SameFiles(fs.disk, Apply(fs, op).disk, UserFiles(fs) - Target(fs, op))
  {
    match op
    case OpCreate(name, length, m) => CreateKeeps(fs, name, length, m);
    case OpOpen(name, fd, m) => OpenKeeps(fs, name, fd, m);
    case OpReopen(fd, fd', m) => ReopenKeeps(fs, fd, fd', m);
    case OpClose(fd, m) => CloseKeeps(fs, fd, m);
    case OpRemove(name, m) => RemoveKeeps(fs, name, m);
    case OpDeny(fd, deny) => DenyKeeps(fs, fd, deny);
    case OpSeek(fd, pos) => PositionKeeps(fs, fd, pos);
    case OpRead(fd, size, bounce) => ReadKeeps(fs, fd, size, bounce);
    case OpWrite(fd, data, bounce) => WriteKeeps(fs, fd, data, bounce);
  }

  lemma ReadKeeps(fs: State, fd: nat, size: int, bounce: bool)
    requires Inv(fs) && UserHandle(fs, fd)
    ensures Inv(Read(fs, fd, size, bounce).1) && Read(fs, fd, size, bounce).1.disk == fs.disk
  {
    PositionKeeps(fs, fd, After(fs, fd, size, bounce));
    ReadMoves(fs, fd, size, bounce);
  }

  lemma ReadMoves(fs: State, fd: nat, size: int, bounce: bool)
    requires fd in fs.files && fs.files[fd].sector in fs.inodes
    ensures Read(fs, fd, size, bounce).1 == Moved(fs, fd, After(fs, fd, size, bounce))
  {
  }

  ghost predicate LegalRun(fs: State, ops: seq<Op>)
    decreases |ops|
  {
    ops == [] || (Legal(fs, ops[0]) && LegalRun(Apply(fs, ops[0]), ops[1..]))
  }

  ghost function Run(fs: State, ops: seq<Op>): State
    requires LegalRun(fs, ops)
    decreases |ops|
  {
    if ops == [] then fs else Run(Apply(fs, ops[0]), ops[1..])
  }

  /** In every run, whatever memory fails: extents of named and open inodes are disjoint, in range
      and marked, cached headers match the disk, and reference counts match the handles. */
  lemma {:induction false} RunKeeps(fs: State, ops: seq<Op>)
    requires Inv(fs) && LegalRun(fs, ops)
    ensures Inv(Run(fs, ops))
    decreases |ops|
  {
    if ops != [] {
      StepKeeps(fs, ops[0]);
      RunKeeps(Apply(fs, ops[0]), ops[1..]);
    }
  }

  // ----- formatting

  /** do_format on a blank device, followed by the mount; None if an allocation fails (the kernel
      panics). */
  ghost function Format(blank: Device, save: bool, header: bool, map1: bool): Option<State>
  {
    var n := |blank|;
    var used := seq(n, i => i <= ROOT_DIR_SECTOR);
    var size := |BitmapBytes(used)|;
    var at := FirstClear(used, BytesToSectors(size));
    if at.None? then None
    else
      var h := Header(at.value, size);
      var fs := State(Formatted(blank, FREE_MAP_SECTOR, h), SetRun(used, at.value, BytesToSectors(size), true),
                      map[FREE_MAP_SECTOR := Inode(1, false, 0, h)],
                      map[FREE_MAP_FD := File(FREE_MAP_SECTOR, 0, false)]);
      var (saved, fs1) := SaveBitmap(fs, save);
      if !saved then None
      else
        var (made, fs2) := InodeCreate(fs1, ROOT_DIR_SECTOR, 16 * ENTRY_SIZE, header, map1);
        if made then Some(fs2) else None
  }

  /** No names, no user files, and only the free map open. */
  ghost predicate Empty(fs: State)
  {
    && |Root(fs.disk)| == 16 && UniqueNames(Root(fs.disk)) && NameMap(Root(fs.disk)) == map[]
    && UserFiles(fs) == {} && fs.files == map[FREE_MAP_FD := File(FREE_MAP_SECTOR, 0, false)]
  }

  /** A freshly formatted file system satisfies the invariant and is empty. */
  lemma FormatEstablishes(blank: Device, save: bool, header: bool, map1: bool)
    requires 2 <= |blank| < 0x1_0000_0000 && Format(blank, save, header, map1).Some?
    ensures var fs := Format(blank, save, header, map1).value;
      Inv(fs) && Empty(fs)
  {
    var used := seq(|blank|, i => i <= ROOT_DIR_SECTOR);
    var size := |BitmapBytes(used)|;
    var at := FirstClear(used, BytesToSectors(size)).value;
    var h := Header(at, size);
    var fs := State(Formatted(blank, FREE_MAP_SECTOR, h), SetRun(used, at, BytesToSectors(size), true),
                    map[FREE_MAP_SECTOR := Inode(1, false, 0, h)],
                    map[FREE_MAP_FD := File(FREE_MAP_SECTOR, 0, false)]);
    FirstInode(blank, used, h, fs);
    SaveBitmapKeeps(fs, save, {FREE_MAP_SECTOR});
    var fs1 := SaveBitmap(fs, save).1;
    assert !Owns(fs.disk, FREE_MAP_SECTOR, ROOT_DIR_SECTOR) && !Owns(fs1.disk, FREE_MAP_SECTOR, ROOT_DIR_SECTOR);
    InodeCreateKeeps(fs1, ROOT_DIR_SECTOR, 16 * ENTRY_SIZE, header, map1, {FREE_MAP_SECTOR});
    FormatSettles(InodeCreate(fs1, ROOT_DIR_SECTOR, 16 * ENTRY_SIZE, header, map1).1, fs1);
  }

  lemma FirstInode(blank: Device, used: seq<bool>, h: Header, fs: State)
    requires 2 <= |blank| == |used| < 0x1_0000_0000 && h.length < 0x1_0000_0000
    requires used[0] && used[1] && Bitmap.Run(used, h.start, BytesToSectors(h.length), false)
    requires fs == State(Formatted(blank, FREE_MAP_SECTOR, h), SetRun(used, h.start, BytesToSectors(h.length), true),
                         map[FREE_MAP_SECTOR := Inode(1, false, 0, h)],
                         map[FREE_MAP_FD := File(FREE_MAP_SECTOR, 0, false)])
    ensures Core(fs, {FREE_MAP_SECTOR}) && HeaderOf(fs.disk, FREE_MAP_SECTOR) == h && !InData(h, ROOT_DIR_SECTOR)
  {
    HeaderRoundTrip(h);
    assert Sound(fs.disk, fs.used, {});
    SoundAfterAdd(fs.disk, fs.used, {}, FREE_MAP_SECTOR, h);
    assert {} + {FREE_MAP_SECTOR} == {FREE_MAP_SECTOR};
  }

  lemma FormatSettles(fs: State, fs1: State)
    requires Created(fs1, fs, ROOT_DIR_SECTOR, 320, {FREE_MAP_SECTOR})
    requires fs.inodes.Keys == {FREE_MAP_SECTOR} && fs.inodes[FREE_MAP_SECTOR] == Inode(1, false, 0, HeaderOf(fs.disk, FREE_MAP_SECTOR))
    requires fs.files == map[FREE_MAP_FD := File(FREE_MAP_SECTOR, 0, false)]
    ensures Inv(fs) && Empty(fs)
  {
    BlankRoot(RootBytes(fs.disk));
    assert NamedBy(Root(fs.disk)) == {};
    assert Live(fs) == {FREE_MAP_SECTOR} + {ROOT_DIR_SECTOR};
    assert Openers(fs.files, FREE_MAP_SECTOR) == {FREE_MAP_FD};
    assert Deniers(fs.files, FREE_MAP_SECTOR) == {};
  }

  lemma BlankRoot(c: seq<Byte>)
    requires forall i | 0 <= i < |c| :: c[i] == 0
    ensures forall e | e in Entries(c) :: !InUse(e)
    ensures UniqueNames(Entries(c)) && NameMap(Entries(c)) == map[]
  {
    var es := Entries(c);
    assert forall i | 0 <= i < |es| :: es[i][19] == c[20 * i + 19];
    MapIsUnique(es, map[], NameMap(es));
  }

  // ----- what a user sees

  /** A scan of `seen` entries comes to the entry of `name`, if there is one. */
  ghost predicate Reached(fs: State, name: Name, seen: nat)
  {
    FindName(Root(fs.disk), name).Some? ==> FindName(Root(fs.disk), name).value < seen
  }

  /** The two scans of dir_add are good enough: the first comes to the entry of `name`, and the
      second does not stop in front of an entry in use. */
  ghost predicate Served(fs: State, name: Name, m: Memory)
  {
    var es := Root(fs.disk);
    var k := FindFree(es[..Cut(m.tried, |es|)]);
    Reached(fs, name, m.seen) && (k < |es| ==> !InUse(es[k]))
  }

  /** Scans that no failed allocation cuts short are good enough. */
  lemma FullScansServe(fs: State, name: Name, m: Memory)
    requires m.seen >= |Root(fs.disk)| && m.tried >= |Root(fs.disk)|
    ensures Served(fs, name, m)
  {
    assert Root(fs.disk)[..Cut(m.tried, |Root(fs.disk)|)] == Root(fs.disk);
  }

  lemma CutScan(fs: State, name: Name, seen: nat)
    ensures var es := Root(fs.disk);
      FindName(es[..Cut(seen, |es|)], name) == if Reached(fs, name, seen) then FindName(es, name) else None
  {
    CutLookup(Root(fs.disk), name, Cut(seen, |Root(fs.disk)|));
  }

  /** The sector filesys_create takes for the header. */
  ghost function NewSector(fs: State): nat
  {
    var at := FirstClear(fs.used, 1);
    if at.Some? then at.value else 0
  }

  /** A new name for sector s, and no other change. */
  ghost predicate Binds(fs: State, fs': State, name: Name, s: nat)
    requires UniqueNames(Root(fs.disk))
  {
    && name !in NameMap(Root(fs.disk)) && UniqueNames(Root(fs'.disk))
    && NameMap(Root(fs'.disk)) == NameMap(Root(fs.disk))[name := s]
  }

  /** The state of a successful creation before dir_add. */
  ghost function Made(fs: State, length: nat, m: Memory): State
  {
    InodeCreate(Allocate(fs, 1, m.map1).1, NewSector(fs), length, m.header, m.map2).1
  }

  lemma CreateUnfolds(fs: State, name: Name, length: nat, m: Memory)
    requires Create(fs, name, length, m).0
    ensures Allocate(fs, 1, m.map1).0 == Some(NewSector(fs))
    ensures InodeCreate(Allocate(fs, 1, m.map1).1, NewSector(fs), length, m.header, m.map2).0
    ensures Create(fs, name, length, m) == RootAdd(Made(fs, length, m), name, NewSector(fs), m)
  {
  }

  /** The header sector of a new file was clear, and so was every sector of its data. */
  lemma MadeKeeps(fs: State, length: nat, m: Memory)
    requires StorageInv(fs) && length < 0x8000_0000 && Allocate(fs, 1, m.map1).0 == Some(NewSector(fs))
    requires InodeCreate(Allocate(fs, 1, m.map1).1, NewSector(fs), length, m.header, m.map2).0
    ensures var fs1, fs2, s := Allocate(fs, 1, m.map1).1, Made(fs, length, m), NewSector(fs);
      && Created(fs1, fs2, s, length, Live(fs)) && Root(fs2.disk) == Root(fs.disk)
      && s < |fs.used| == |fs1.used| && !fs.used[s] && s !in Live(fs) && s !in NamedBy(Root(fs.disk)) && s > ROOT_DIR_SECTOR
      && forall x | 0 <= x < |fs.used| && fs.used[x] :: fs1.used[x]
  {
    var fs1, s := Allocate(fs, 1, m.map1).1, NewSector(fs);
    AllocateKeeps(fs, 1, m.map1, Live(fs));
    assert !fs.used[s] && fs1.used[s];
    NewSectorUnowned(fs, fs1, s, Live(fs));
    SameRoot(fs, fs1, Live(fs));
    InodeCreateKeeps(fs1, s, length, m.header, m.map2, Live(fs));
    SameRoot(fs1, Made(fs, length, m), Live(fs));
  }

  /** A successful filesys_create makes a zeroed file on sectors nothing live owned, and binds a
      new name to it without any other change exactly if its scans were good enough. */
  lemma CreateBinds(fs: State, name: Name, length: nat, m: Memory)
    requires Inv(fs) && UniqueNames(Root(fs.disk)) && length < 0x8000_0000
    requires Create(fs, name, length, m).0
    ensures var fs', s := Create(fs, name, length, m).1, NewSector(fs);
      && (Binds(fs, fs', name, s) <==> Served(fs, name, m))
      && s !in Live(fs) && Content(fs'.disk, HeaderOf(fs'.disk, s)) == seq(length, _ => 0)
      && forall x | Owns(fs'.disk, s, x) :: 0 <= x < |fs.used| && !fs.used[x]
  {
    CreateUnfolds(fs, name, length, m);
    MadeKeeps(fs, length, m);
    var fs2 := Made(fs, length, m);
    LinkBinds(fs2, NewSector(fs), name, m, Live(fs) + {NewSector(fs)});
    assert Binds(fs2, Create(fs, name, length, m).1, name, NewSector(fs)) <==> Served(fs2, name, m);
    FreshExtent(fs, Allocate(fs, 1, m.map1).1, fs2, Create(fs, name, length, m).1, NewSector(fs), length, Live(fs));
  }

  lemma LinkBinds(fs: State, s: nat, name: Name, m: Memory, live: set<nat>)
    requires Core(fs, live) && ROOT_DIR_SECTOR in live && DistinctSectors(Root(fs.disk)) && UniqueNames(Root(fs.disk))
    requires ROOT_DIR_SECTOR < s < 0x1_0000_0000 && s !in NamedBy(Root(fs.disk)) && s in live
    requires RootAdd(fs, name, s, m).0
    ensures var fs' := RootAdd(fs, name, s, m).1;
      && (Binds(fs, fs', name, s) <==> Served(fs, name, m))
      && HeaderOf(fs'.disk, s) == HeaderOf(fs.disk, s)
      && Content(fs'.disk, HeaderOf(fs'.disk, s)) == Content(fs.disk, HeaderOf(fs.disk, s))
  {
    RootAddKeeps(fs, name, s, m, live);
    RootAddRefines(fs, name, s, m, live);
    AddIsServed(fs, name, s, m, RootAdd(fs, name, s, m).1);
    assert s in live - {ROOT_DIR_SECTOR};
  }

  lemma AddIsServed(fs: State, name: Name, s: nat, m: Memory, fs': State)
    requires UniqueNames(Root(fs.disk)) && s < 0x1_0000_0000
    requires AddResult(RootBytes(fs.disk), name, s, Cut(m.seen, |Root(fs.disk)|), Cut(m.tried, |Root(fs.disk)|),
                       true, m.stale, true, RootBytes(fs'.disk))
    ensures Binds(fs, fs', name, s) <==> Served(fs, name, m)
  {
    var es := Root(fs.disk);
    CutScan(fs, name, m.seen);
    LookupIsMapLookup(es, name);
    AddCorrectIff(RootBytes(fs.disk), name, s, Cut(m.seen, |es|), Cut(m.tried, |es|), m.stale, RootBytes(fs'.disk));
  }

  lemma FreshExtent(fs: State, fs1: State, fs2: State, fs': State, s: nat, length: nat, live: set<nat>)
    requires |fs1.used| == |fs.used| && s < |fs.used| && !fs.used[s] && Created(fs1, fs2, s, length, live)
    requires forall x | 0 <= x < |fs.used| && fs.used[x] :: fs1.used[x]
    requires HeaderOf(fs'.disk, s) == HeaderOf(fs2.disk, s)
    ensures forall x | Owns(fs'.disk, s, x) :: 0 <= x < |fs.used| && !fs.used[x]
  {
  }

  /** The inode of `name` is open, or there is memory to open it. */
  ghost predicate CanOpen(fs: State, name: Name, m: Memory)
    requires UniqueNames(Root(fs.disk))
  {
    name in NameMap(Root(fs.disk)) && Reached(fs, name, m.seen) && (m.inode || NameMap(Root(fs.disk))[name] in fs.inodes)
  }

  /** filesys_open yields a handle on the file its name is bound to, exactly if the name is bound,
      the scan comes to it and there is memory. */
  lemma OpenFinds(fs: State, name: Name, fd: nat, m: Memory)
    requires UniqueNames(Root(fs.disk)) && fd !in fs.files
    ensures var (ok, fs') := Open(fs, name, fd, m);
      && (ok <==> m.root && m.handle && CanOpen(fs, name, m))
      && (ok ==> fd in fs'.files && fs'.files[fd] == File(NameMap(Root(fs.disk))[name], 0, false))
  {
    OpenEnds(fs, name, fd, m);
    LookupIsMapLookup(Root(fs.disk), name);
  }

  lemma OpenEnds(fs: State, name: Name, fd: nat, m: Memory)
    ensures var es := Root(fs.disk);
      var found := FindName(es, name);
      var (ok, fs') := Open(fs, name, fd, m);
      && (ok <==> m.root && found.Some? && Reached(fs, name, m.seen) && InodeOpen(fs, EntrySector(es[found.value]), m.inode).0 && m.handle)
      && (ok ==> fs'.files == fs.files[fd := File(EntrySector(es[found.value]), 0, false)])
  {
    CutScan(fs, name, m.seen);
  }

  /** filesys_remove deletes exactly one name or none; it succeeds exactly if the name is bound, the
      scan comes to it and there is memory. */
  lemma RemoveUnbinds(fs: State, name: Name, m: Memory)
    requires Inv(fs) && UniqueNames(Root(fs.disk))
    ensures var (ok, fs') := Remove(fs, name, m);
      && (ok <==> m.root && m.stored && CanOpen(fs, name, m))
      && UniqueNames(Root(fs'.disk))
      && NameMap(Root(fs'.disk)) == if ok then NameMap(Root(fs.disk)) - {name} else NameMap(Root(fs.disk))
  {
    var es := Root(fs.disk);
    LookupIsMapLookup(es, name);
    RemoveEnds(fs, name, m);
    if Remove(fs, name, m).0 {
      UnlinkKeeps(fs, FindName(es, name).value, m);
      UnlinkedStorage(fs, FindName(es, name).value, m.inode);
      RemoveUnbindsOne(RootBytes(fs.disk), name);
    }
  }

  lemma RemoveEnds(fs: State, name: Name, m: Memory)
    requires forall s | s in fs.inodes :: fs.inodes[s].openCnt > 0
    ensures var es := Root(fs.disk);
      var found := FindName(es, name);
      if m.root && found.Some? && Reached(fs, name, m.seen) && InodeOpen(fs, EntrySector(es[found.value]), m.inode).0 && m.stored
      then Remove(fs, name, m)
        == (true, InodeClose(Unlinked(fs, found.value, m.inode), EntrySector(es[found.value]), m.map1, m.map2))
      else Remove(fs, name, m) == (false, fs)
  {
    var es := Root(fs.disk);
    CutScan(fs, name, m.seen);
    var found := FindName(es, name);
    if m.root && found.Some? && InodeOpen(fs, EntrySector(es[found.value]), m.inode).0 {
      OpenThenClose(fs, EntrySector(es[found.value]), m.inode, m.map1, m.map2);
    }
  }

  /** A write is a slice update of the file's bytes, of exactly the length the caller is told, and
      reading the same place back returns what was written. */
  lemma WriteThenRead(fs: State, fd: nat, data: seq<Byte>, bounce: bool)
    requires Inv(fs) && UserHandle(fs, fd) && fs.inodes[fs.files[fd].sector].denyCnt == 0
    ensures var f := fs.files[fd];
      var h := fs.inodes[f.sector].hdr;
      var (n, fs') := Write(fs, fd, data, bounce);
      var before, after := Content(fs.disk, h), Content(fs'.disk, h);
      && n == Transferred(|data|, f.pos, |before|, bounce)
      && (if n == 0 then after == before else f.pos + n <= |before| && after == Splice(before, f.pos, data[..n]))
      && fs'.files[fd].pos == f.pos + n
      && Read(Moved(fs', fd, f.pos), fd, n, true).0 == data[..n]
  {
    var f := fs.files[fd];
    assert f.sector in Live(fs);
    PatchThenRead(fs, fd, data, bounce, fs.inodes[f.sector].hdr);
  }

  lemma PatchThenRead(fs: State, fd: nat, data: seq<Byte>, bounce: bool, h: Header)
    requires fd in fs.files && fs.files[fd].sector in fs.inodes && fs.inodes[fs.files[fd].sector].denyCnt == 0
    requires h == fs.inodes[fs.files[fd].sector].hdr && Fits(fs.disk, h)
    ensures var f := fs.files[fd];
      var (n, fs') := Write(fs, fd, data, bounce);
      var before, after := Content(fs.disk, h), Content(fs'.disk, h);
      && n == Transferred(|data|, f.pos, |before|, bounce)
      && (if n == 0 then after == before else f.pos + n <= |before| && after == Splice(before, f.pos, data[..n]))
      && fs'.files[fd].pos == f.pos + n
      && Read(Moved(fs', fd, f.pos), fd, n, true).0 == data[..n]
  {
    var f := fs.files[fd];
    var n := Transferred(|data|, f.pos, h.length, bounce);
    PatchedContent(fs.disk, h, f.pos, data[..n]);
    WriteEnds(fs, fd, data, bounce);
    var before := Content(fs.disk, h);
    if n > 0 {
      assert Splice(before, f.pos, data[..n])[f.pos..f.pos + n] == data[..n];
    }
  }

  /** Closing a handle frees sectors exactly when the file was removed and this was its last
      handle, and then exactly the file's own sectors. */
  lemma CloseFrees(fs: State, fd: nat, m: Memory)
    requires Inv(fs) && UserHandle(fs, fd)
    ensures var s := fs.files[fd].sector;
      var fs' := Close(fs, fd, m);
      var last := forall fd' | fd' in fs.files && fd' != fd :: fs.files[fd'].sector != s;
      && |fs'.used| == |fs.used|
      && forall x | 0 <= x < |fs.used| ::
           fs'.used[x] == (fs.used[x] && !(fs.inodes[s].removed && last && Owns(fs.disk, s, x)))
  {
    CloseUnfolds(fs, fd, m);
    ClosingKeeps(fs, fd);
    ClosingTables(fs, fd);
    InodeCloseKeepsStorage(Closing(fs, fd), fs.files[fd].sector, m.map1, m.map2);
    LastOpener(fs.inodes, fs.files, fd);
  }

  lemma LastOpener(inodes: map<nat, Inode>, files: map<nat, File>, fd: nat)
    requires CountInv(inodes, files) && fd in files
    ensures inodes[files[fd].sector].openCnt == 1
        <==> forall fd' | fd' in files && fd' != fd :: files[fd'].sector != files[fd].sector
  {
    var s := files[fd].sector;
    var others := Openers(files, s) - {fd};
    assert fd in Openers(files, s);
    assert |others| == |Openers(files, s)| - 1;
    if fd' :| fd' in files && fd' != fd && files[fd'].sector == s {
      assert fd' in others;
    }
    if others != {} {
      var fd' :| fd' in others;
    }
  }

  /** After a save that succeeds, the free map file holds exactly the free map in memory. */
  lemma SavedBitmapOnDisk(fs: State, bounce: bool)
    requires Fits(fs.disk, FreeMapHeader(fs)) && SaveBitmap(fs, bounce).0
    ensures BitmapBytes(fs.used) <= Content(SaveBitmap(fs, bounce).1.disk, FreeMapHeader(fs))
  {
    WholeWrite(fs.disk, FreeMapHeader(fs), BitmapBytes(fs.used), bounce);
  }

  lemma WholeWrite(disk: Device, h: Header, bytes: seq<Byte>, bounce: bool)
    requires Fits(disk, h) && Transferred(|bytes|, 0, h.length, bounce) == |bytes|
    ensures bytes <= Content(Patched(disk, h, 0, bytes[..|bytes|]), h)
  {
    assert bytes[..|bytes|] == bytes;
    PatchedContent(disk, h, 0, bytes);
  }
}
