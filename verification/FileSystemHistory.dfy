/** Runs of the file system as its users see them: a simple model of named byte arrays and handles,
    without a device, a free map or an inode table, explains every reply of every run. */
module FileSystemHistory {
  import opened Disk
  import opened Bitmap
  import opened Geometry
  import opened Directory
  import opened FileSystem
  import opened FileSystemInvariants
  import opened FileSystemRuns
  import opened FileSystemTheorems
  import opened FileSystemMain

  /** Which file each name stands for, the bytes of each file, and the open handles.  A file is known
      by its header sector; `slots` is the number of entries in the root directory. */
  datatype Spec = Spec(slots: nat, names: map<Name, nat>, bytes: map<nat, seq<Byte>>, files: map<nat, File>)

  datatype Reply = Failed | Done | At(sector: nat) | Count(n: nat) | Data(data: seq<Byte>)

  function Answer(ok: bool): Reply { if ok then Done else Failed }

  ghost function ReplyOf(fs: State, op: Op): Reply
    requires Legal(fs, op)
  {
    match op
    case OpCreate(name, length, m) => if Create(fs, name, length, m).0 then At(NewSector(fs)) else Failed
    case OpOpen(name, fd, m) => Answer(Open(fs, name, fd, m).0)
    case OpReopen(fd, fd', m) => Answer(Reopen(fs, fd, fd', m).0)
    case OpRemove(name, m) => Answer(Remove(fs, name, m).0)
    case OpRead(fd, size, bounce) => Data(Read(fs, fd, size, bounce).0)
    case OpWrite(fd, data, bounce) => Count(Write(fs, fd, data, bounce).0)
    case _ => Done
  }

  // ----- the simple model

  /** The operation lacks no memory, as far as finding a name in the directory goes. */
  predicate Plenty(sp: Spec, m: Memory) { m.root && m.inode && m.handle && m.stored && m.seen >= sp.slots }

  ghost predicate Denied(sp: Spec, s: nat) { exists fd :: fd in sp.files && sp.files[fd].sector == s && sp.files[fd].deny }

  /** The bytes from `pos` on that a read of `size` bytes gets. */
  function Slice(c: seq<Byte>, pos: nat, size: int, bounce: bool): seq<Byte>
  {
    if pos <= |c| then c[pos..pos + Transferred(size, pos, |c|, bounce)] else []
  }

  function Overwritten(c: seq<Byte>, pos: nat, data: seq<Byte>): seq<Byte>
  {
    if pos + |data| <= |c| then Splice(c, pos, data) else c
  }

  predicate Known(sp: Spec, fd: nat) { fd in sp.files && sp.files[fd].sector in sp.bytes }

  /** The replies the model allows. */
  ghost predicate Explains(sp: Spec, op: Op, r: Reply)
  {
    match op
    case OpCreate(name, _, _) =>
      r.At? ==> name !in sp.names && r.sector !in sp.names.Values && forall fd | fd in sp.files :: sp.files[fd].sector != r.sector
    case OpOpen(name, _, m) => (r.Done? ==> name in sp.names) && (r.Failed? && Plenty(sp, m) ==> name !in sp.names)
    case OpReopen(fd, _, m) => fd in sp.files && (r.Failed? ==> !m.handle)
    case OpRemove(name, m) => (r.Done? ==> name in sp.names) && (r.Failed? && Plenty(sp, m) ==> name !in sp.names)
    case OpRead(fd, size, bounce) =>
      Known(sp, fd) && r == Data(Slice(sp.bytes[sp.files[fd].sector], sp.files[fd].pos, size, bounce))
    case OpWrite(fd, data, bounce) =>
      && Known(sp, fd)
      && r == Count(if Denied(sp, sp.files[fd].sector) then 0
                    else Transferred(|data|, sp.files[fd].pos, |sp.bytes[sp.files[fd].sector]|, bounce))
    case _ => true
  }

  /** The model after an operation with the given reply. */
  function Next(sp: Spec, op: Op, r: Reply): Spec
  {
    match op
    case OpCreate(name, length, _) =>
      if r.At? then sp.(names := sp.names[name := r.sector], bytes := sp.bytes[r.sector := seq(length, _ => 0)]) else sp
    case OpOpen(name, fd, _) =>
      if r.Done? && name in sp.names then sp.(files := sp.files[fd := File(sp.names[name], 0, false)]) else sp
    case OpReopen(fd, fd', _) =>
      if r.Done? && fd in sp.files then sp.(files := sp.files[fd' := File(sp.files[fd].sector, 0, false)]) else sp
    case OpClose(fd, _) => sp.(files := sp.files - {fd})
    case OpRemove(name, _) => if r.Done? then sp.(names := sp.names - {name}) else sp
    case OpDeny(fd, deny) => if fd in sp.files then sp.(files := sp.files[fd := sp.files[fd].(deny := deny)]) else sp
    case OpSeek(fd, pos) => Advanced(sp, fd, pos)
    case OpRead(fd, _, _) =>
      if fd in sp.files && r.Data? then Advanced(sp, fd, sp.files[fd].pos + |r.data|) else sp
    case OpWrite(fd, data, _) =>
      if Known(sp, fd) && r.Count? && r.n <= |data| then
        var f := sp.files[fd];
        Advanced(sp.(bytes := sp.bytes[f.sector := Overwritten(sp.bytes[f.sector], f.pos, data[..r.n])]), fd, f.pos + r.n)
      else sp
  }

  function Advanced(sp: Spec, fd: nat, pos: nat): Spec
  {
    if fd in sp.files then sp.(files := sp.files[fd := sp.files[fd].(pos := pos)]) else sp
  }

  // ----- refinement

  ghost function FileBytes(fs: State, s: nat): seq<Byte> { Content(fs.disk, HeaderOf(fs.disk, s)) }

  ghost predicate HoldsBytes(fs: State, c: map<nat, seq<Byte>>)
  {
    forall s | s in UserFiles(fs) :: s in c && c[s] == FileBytes(fs, s)
  }

  ghost predicate HoldsNames(fs: State, sp: Spec)
  {
    |Root(fs.disk)| == sp.slots && UniqueNames(Root(fs.disk)) && NameMap(Root(fs.disk)) == sp.names
  }

  ghost predicate Refines(fs: State, sp: Spec)
  {
    fs.files == sp.files && HoldsBytes(fs, sp.bytes) && HoldsNames(fs, sp)
  }

  lemma BytesStay(fs: State, fs': State, c: map<nat, seq<Byte>>)
    requires HoldsBytes(fs, c) && SameFiles(fs.disk, fs'.disk, UserFiles(fs)) && Live(fs') <= Live(fs)
    ensures HoldsBytes(fs', c)
  {
  }

  lemma OpenFileKnown(fs: State, sp: Spec, fd: nat)
    requires Inv(fs) && HoldsBytes(fs, sp.bytes) && fs.files == sp.files && UserHandle(fs, fd)
    ensures var s := fs.files[fd].sector;
      && s in fs.inodes && s in UserFiles(fs) && s in sp.bytes && fs.inodes[s].hdr == HeaderOf(fs.disk, s)
      && sp.bytes[s] == FileBytes(fs, s) == Content(fs.disk, fs.inodes[s].hdr) && Fits(fs.disk, fs.inodes[s].hdr)
  {
  }

  lemma NamedSectors(fs: State, name: Name)
    requires UniqueNames(Root(fs.disk)) && name in NameMap(Root(fs.disk))
    ensures NameMap(Root(fs.disk))[name] in NamedBy(Root(fs.disk))
  {
    var es := Root(fs.disk);
    LookupIsMapLookup(es, name);
    assert es[FindName(es, name).value] in es;
  }

  lemma NameValues(fs: State, s: nat)
    requires UniqueNames(Root(fs.disk)) && s in NameMap(Root(fs.disk)).Values
    ensures s in NamedBy(Root(fs.disk))
  {
    var name :| name in NameMap(Root(fs.disk)) && NameMap(Root(fs.disk))[name] == s;
    NamedSectors(fs, name);
  }

  /** The directory keeps its size. */
  lemma SlotsStay(disk: Device, disk': Device)
    requires HeaderOf(disk', ROOT_DIR_SECTOR) == HeaderOf(disk, ROOT_DIR_SECTOR)
    ensures |Root(disk')| == |Root(disk)|
  {
  }

  /** An operation that leaves the directory and all files alone and opens no unnamed file. */
  ghost predicate Calm(fs: State, fs': State)
  {
    && SameFiles(fs.disk, fs'.disk, UserFiles(fs)) && Root(fs'.disk) == Root(fs.disk)
    && fs'.inodes.Keys <= Live(fs)
  }

  lemma SameDiskCalm(fs: State, fs': State)
    requires fs'.disk == fs.disk && fs'.inodes.Keys == fs.inodes.Keys
    ensures Calm(fs, fs')
  {
  }

  lemma CalmRefines(fs: State, fs': State, sp: Spec, files': map<nat, File>)
    requires Refines(fs, sp) && Calm(fs, fs') && fs'.files == files'
    ensures Refines(fs', sp.(files := files'))
  {
    BytesStay(fs, fs', sp.bytes);
  }

  // ----- creation

  lemma CreateRefines(fs: State, sp: Spec, name: Name, length: nat, m: Memory)
    requires Inv(fs) && Refines(fs, sp) && length < 0x8000_0000
    ensures var op := OpCreate(name, length, m);
      var r := ReplyOf(fs, op);
      Explains(sp, op, r) && Refines(Apply(fs, op), Next(sp, op, r)) <==> (r.At? ==> Served(fs, name, m))
  {
    var (ok, fs') := Create(fs, name, length, m);
    CreateKeepsStorage(fs, name, length, m);
    SlotsStay(fs.disk, fs'.disk);
    if ok {
      CreateBinds(fs, name, length, m);
      NewFileBytes(fs, fs', sp.bytes, NewSector(fs), length);
      NewSectorFree(fs, sp, NewSector(fs));
    } else {
      BytesStay(fs, fs', sp.bytes);
    }
  }

  lemma NewFileBytes(fs: State, fs': State, c: map<nat, seq<Byte>>, s: nat, length: nat)
    requires HoldsBytes(fs, c) && SameFiles(fs.disk, fs'.disk, UserFiles(fs)) && s !in Live(fs)
    requires fs'.inodes == fs.inodes && NamedBy(Root(fs'.disk)) <= NamedBy(Root(fs.disk)) + {s}
    requires FileBytes(fs', s) == seq(length, _ => 0)
    ensures HoldsBytes(fs', c[s := seq(length, _ => 0)])
  {
    assert UserFiles(fs') <= UserFiles(fs) + {s};
  }

  lemma NewSectorFree(fs: State, sp: Spec, s: nat)
    requires CountInv(fs.inodes, fs.files) && Refines(fs, sp) && s !in Live(fs)
    ensures s !in sp.names.Values && forall fd | fd in sp.files :: sp.files[fd].sector != s
  {
    if s in sp.names.Values {
      NameValues(fs, s);
    }
  }

  // ----- opening and closing

  lemma OpenRefines(fs: State, sp: Spec, name: Name, fd: nat, m: Memory)
    requires Inv(fs) && Refines(fs, sp) && fd !in fs.files
    ensures var op := OpOpen(name, fd, m);
      var r := ReplyOf(fs, op);
      Explains(sp, op, r) && Refines(Apply(fs, op), Next(sp, op, r))
  {
    OpenExplained(fs, sp, name, fd, m);
    OpenTables(fs, name, fd, m);
    var (ok, fs') := Open(fs, name, fd, m);
    CalmRefines(fs, fs', sp, if ok then fs.files[fd := File(NameMap(Root(fs.disk))[name], 0, false)] else fs.files);
  }

  lemma OpenExplained(fs: State, sp: Spec, name: Name, fd: nat, m: Memory)
    requires HoldsNames(fs, sp) && fd !in fs.files
    ensures Explains(sp, OpOpen(name, fd, m), Answer(Open(fs, name, fd, m).0))
  {
    OpenFinds(fs, name, fd, m);
    PlentyReaches(fs, name, m);
  }

  lemma PlentyReaches(fs: State, name: Name, m: Memory)
    ensures m.seen >= |Root(fs.disk)| ==> Reached(fs, name, m.seen)
  {
  }

  lemma OpenTables(fs: State, name: Name, fd: nat, m: Memory)
    requires UniqueNames(Root(fs.disk)) && CountInv(fs.inodes, fs.files) && fd !in fs.files
    ensures var (ok, fs') := Open(fs, name, fd, m);
      && Calm(fs, fs') && (ok ==> name in NameMap(Root(fs.disk)))
      && fs'.files == if ok then fs.files[fd := File(NameMap(Root(fs.disk))[name], 0, false)] else fs.files
  {
    OpenFinds(fs, name, fd, m);
    OpenStays(fs, name, fd, m);
    var (ok, fs') := Open(fs, name, fd, m);
    if ok {
      NamedSectors(fs, name);
      LookupIsMapLookup(Root(fs.disk), name);
    }
  }

  /** An open that fails changes nothing; one that succeeds adds a handle and maybe an inode. */
  lemma OpenStays(fs: State, name: Name, fd: nat, m: Memory)
    requires forall s | s in fs.inodes :: fs.inodes[s].openCnt > 0
    ensures var (ok, fs') := Open(fs, name, fd, m);
      var found := FindName(Root(fs.disk), name);
      if ok then
        && found.Some? && fs'.disk == fs.disk
        && fs'.inodes.Keys == fs.inodes.Keys + {EntrySector(Root(fs.disk)[found.value])}
        && fs'.files == fs.files[fd := File(EntrySector(Root(fs.disk)[found.value]), 0, false)]
      else fs' == fs
  {
    var found := FindName(Root(fs.disk), name);
    CutScan(fs, name, m.seen);
    if found.Some? && InodeOpen(fs, EntrySector(Root(fs.disk)[found.value]), m.inode).0 {
      OpenThenClose(fs, EntrySector(Root(fs.disk)[found.value]), m.inode, m.map1, m.map2);
    }
  }

  lemma ReopenRefines(fs: State, sp: Spec, fd: nat, fd': nat, m: Memory)
    requires Inv(fs) && Refines(fs, sp) && UserHandle(fs, fd) && fd' !in fs.files
    ensures var op := OpReopen(fd, fd', m);
      var r := ReplyOf(fs, op);
      Explains(sp, op, r) && Refines(Apply(fs, op), Next(sp, op, r))
  {
    ReopenTables(fs, fd, fd', m);
    var fs' := Reopen(fs, fd, fd', m).1;
    SameDiskCalm(fs, fs');
    CalmRefines(fs, fs', sp, if m.handle then fs.files[fd' := File(fs.files[fd].sector, 0, false)] else fs.files);
  }

  lemma ReopenTables(fs: State, fd: nat, fd': nat, m: Memory)
    requires CountInv(fs.inodes, fs.files) && UserHandle(fs, fd) && fd' !in fs.files
    ensures var (ok, fs') := Reopen(fs, fd, fd', m);
      && (ok <==> m.handle) && fs'.inodes.Keys == fs.inodes.Keys && fs'.disk == fs.disk
      && fs'.files == if m.handle then fs.files[fd' := File(fs.files[fd].sector, 0, false)] else fs.files
  {
    var s := fs.files[fd].sector;
    assert s in fs.inodes;
    OpenThenClose(fs, s, m.inode, m.map1, m.map2);
  }

  lemma CloseRefines(fs: State, sp: Spec, fd: nat, m: Memory)
    requires Inv(fs) && Refines(fs, sp) && UserHandle(fs, fd)
    ensures Refines(Close(fs, fd, m), Next(sp, OpClose(fd, m), Done))
  {
    CloseTables(fs, fd, m);
    CloseFollows(fs, Close(fs, fd, m), sp, fd, m);
  }

  lemma CloseFollows(fs: State, fs': State, sp: Spec, fd: nat, m: Memory)
    requires Refines(fs, sp) && Calm(fs, fs') && fs'.files == fs.files - {fd}
    ensures Refines(fs', Next(sp, OpClose(fd, m), Done))
  {
    CalmRefines(fs, fs', sp, sp.files - {fd});
  }

  lemma CloseTables(fs: State, fd: nat, m: Memory)
    requires Inv(fs) && UserHandle(fs, fd)
    ensures var fs' := Close(fs, fd, m); Calm(fs, fs') && fs'.files == fs.files - {fd}
  {
    var s := fs.files[fd].sector;
    CloseUnfolds(fs, fd, m);
    ClosingKeeps(fs, fd);
    ClosingTables(fs, fd);
    var fs1 := Closing(fs, fd);
    InodeCloseKeepsStorage(fs1, s, m.map1, m.map2);
    ClosedIsCalm(fs, fs1, Close(fs, fd, m), s, fs1.inodes[s].removed && fs1.inodes[s].openCnt <= 1);
  }

  lemma ClosedIsCalm(fs: State, fs1: State, fs': State, s: nat, freed: bool)
    requires s in fs1.inodes && ClosedStorage(fs1, fs', s, freed) && fs'.inodes == Dropped(fs1.inodes, s)
    requires fs1.disk == fs.disk && fs1.inodes.Keys == fs.inodes.Keys
    ensures Calm(fs, fs') && fs'.files == fs1.files
  {
    assert Live(fs1) == Live(fs) && ROOT_DIR_SECTOR in Live(fs) - {FREE_MAP_SECTOR};
  }

  // ----- removing

  lemma RemoveRefines(fs: State, sp: Spec, name: Name, m: Memory)
    requires Inv(fs) && Refines(fs, sp)
    ensures var op := OpRemove(name, m);
      var r := ReplyOf(fs, op);
      Explains(sp, op, r) && Refines(Apply(fs, op), Next(sp, op, r))
  {
    RemoveUnbinds(fs, name, m);
    RemoveKeeps(fs, name, m);
    RemoveTables(fs, name, m);
    PlentyReaches(fs, name, m);
    BytesStay(fs, Remove(fs, name, m).1, sp.bytes);
  }

  lemma RemoveTables(fs: State, name: Name, m: Memory)
    requires Inv(fs)
    ensures var (ok, fs') := Remove(fs, name, m);
      && fs'.files == fs.files && Live(fs') <= Live(fs) && |Root(fs'.disk)| == |Root(fs.disk)|
  {
    RemoveEnds(fs, name, m);
    if Remove(fs, name, m).0 {
      var k := FindName(Root(fs.disk), name).value;
      var s := EntrySector(Root(fs.disk)[k]);
      NamedIsLive(fs, k);
      UnlinkedStorage(fs, k, m.inode);
      UnlinkedInodes(fs, k, m.inode);
      UnlinkKeeps(fs, k, m);
      InodeCloseKeepsStorage(Unlinked(fs, k, m.inode), s, m.map1, m.map2);
      ErasedNames(fs, k, m.inode);
    }
  }

  lemma ErasedNames(fs: State, k: nat, memory: bool)
    requires StorageInv(fs) && k < |Root(fs.disk)| && InUse(Root(fs.disk)[k])
    requires InodeOpen(fs, EntrySector(Root(fs.disk)[k]), memory).0
    ensures NamedBy(Root(Unlinked(fs, k, memory).disk)) <= NamedBy(Root(fs.disk))
    ensures |Root(Unlinked(fs, k, memory).disk)| == |Root(fs.disk)|
  {
    var es := Root(fs.disk);
    UnlinkedStorage(fs, k, memory);
    PutSlotEntries(RootBytes(fs.disk), k, Erased(es[k]));
    ErasedFields(es[k]);
    PutDistinct(es, k, Erased(es[k]));
  }

  // ----- transfers

  lemma DenyRefines(fs: State, sp: Spec, fd: nat, deny: bool)
    requires CountInv(fs.inodes, fs.files) && Refines(fs, sp) && UserHandle(fs, fd)
    ensures Refines(SetDeny(fs, fd, deny), Next(sp, OpDeny(fd, deny), Done))
  {
    DenyChanges(fs, fd, deny);
    SameDiskCalm(fs, SetDeny(fs, fd, deny));
    CalmRefines(fs, SetDeny(fs, fd, deny), sp, fs.files[fd := fs.files[fd].(deny := deny)]);
  }

  lemma MovedRefines(fs: State, sp: Spec, fd: nat, pos: nat)
    requires Refines(fs, sp) && UserHandle(fs, fd)
    ensures Refines(Moved(fs, fd, pos), Advanced(sp, fd, pos))
  {
    SameDiskCalm(fs, Moved(fs, fd, pos));
    CalmRefines(fs, Moved(fs, fd, pos), sp, fs.files[fd := fs.files[fd].(pos := pos)]);
  }

  lemma ReadRefines(fs: State, sp: Spec, fd: nat, size: int, bounce: bool)
    requires Inv(fs) && Refines(fs, sp) && UserHandle(fs, fd)
    ensures var op := OpRead(fd, size, bounce);
      var r := ReplyOf(fs, op);
      Explains(sp, op, r) && Refines(Apply(fs, op), Next(sp, op, r))
  {
    OpenFileKnown(fs, sp, fd);
    ReadSlice(fs, fd, size, bounce);
    ReadMoves(fs, fd, size, bounce);
    ReadFollows(fs, sp, fd, size, bounce, Read(fs, fd, size, bounce).0, After(fs, fd, size, bounce));
  }

  lemma ReadFollows(fs: State, sp: Spec, fd: nat, size: int, bounce: bool, data: seq<Byte>, pos: nat)
    requires Refines(fs, sp) && UserHandle(fs, fd) && pos == sp.files[fd].pos + |data|
    ensures Refines(Moved(fs, fd, pos), Next(sp, OpRead(fd, size, bounce), Data(data)))
  {
    MovedRefines(fs, sp, fd, pos);
  }

  lemma ReadSlice(fs: State, fd: nat, size: int, bounce: bool)
    requires fd in fs.files && fs.files[fd].sector in fs.inodes
    ensures var c := Content(fs.disk, fs.inodes[fs.files[fd].sector].hdr);
      && Read(fs, fd, size, bounce).0 == Slice(c, fs.files[fd].pos, size, bounce)
      && |Read(fs, fd, size, bounce).0| == Reach(fs, fd, size, bounce)
  {
  }

  lemma DeniedIff(fs: State, sp: Spec, fd: nat)
    requires Inv(fs) && fs.files == sp.files && UserHandle(fs, fd)
    ensures Denied(sp, fs.files[fd].sector) <==> fs.inodes[fs.files[fd].sector].denyCnt > 0
  {
    WritesRefusedIff(fs.inodes, fs.files, fs.files[fd].sector);
  }

  lemma WriteRefines(fs: State, sp: Spec, fd: nat, data: seq<Byte>, bounce: bool)
    requires Inv(fs) && Refines(fs, sp) && UserHandle(fs, fd)
    ensures var op := OpWrite(fd, data, bounce);
      var r := ReplyOf(fs, op);
      Explains(sp, op, r) && Refines(Apply(fs, op), Next(sp, op, r))
  {
    OpenFileKnown(fs, sp, fd);
    DeniedIff(fs, sp, fd);
    if fs.inodes[fs.files[fd].sector].denyCnt > 0 {
      WriteDenied(fs, fd, data, bounce);
      NextWrite(sp, fd, data, bounce, 0, sp.files[fd].pos);
    } else {
      var n := Reach(fs, fd, |data|, bounce);
      WriteEnds(fs, fd, data, bounce);
      WroteRefines(fs, sp, fd, data[..n]);
      WriteFollows(Wrote(fs, fd, data[..n]), sp, fd, data, bounce, n, After(fs, fd, |data|, bounce));
    }
  }

  lemma WriteFollows(fs1: State, sp: Spec, fd: nat, data: seq<Byte>, bounce: bool, n: nat, pos: nat)
    requires Known(sp, fd) && UserHandle(fs1, fd) && n <= |data| && pos == sp.files[fd].pos + n
    requires Refines(fs1, Stored(sp, fd, data[..n]))
    ensures Refines(Moved(fs1, fd, pos), Next(sp, OpWrite(fd, data, bounce), Count(n)))
  {
    MovedRefines(fs1, Stored(sp, fd, data[..n]), fd, pos);
    NextWrite(sp, fd, data, bounce, n, pos);
  }

  lemma NextWrite(sp: Spec, fd: nat, data: seq<Byte>, bounce: bool, n: nat, pos: nat)
    requires Known(sp, fd) && n <= |data| && pos == sp.files[fd].pos + n
    ensures Next(sp, OpWrite(fd, data, bounce), Count(n)) == Advanced(Stored(sp, fd, data[..n]), fd, pos)
    ensures n == 0 ==> Next(sp, OpWrite(fd, data, bounce), Count(n)) == sp
  {
    var f := sp.files[fd];
    assert Overwritten(sp.bytes[f.sector], f.pos, data[..0]) == sp.bytes[f.sector];
  }

  function Stored(sp: Spec, fd: nat, data: seq<Byte>): Spec
    requires Known(sp, fd)
  {
    var f := sp.files[fd];
    sp.(bytes := sp.bytes[f.sector := Overwritten(sp.bytes[f.sector], f.pos, data)])
  }

  lemma WriteTables(fs: State, fd: nat, data: seq<Byte>)
    requires Inv(fs) && UserHandle(fs, fd)
    ensures var fs' := Wrote(fs, fd, data);
      && Root(fs'.disk) == Root(fs.disk) && SameFiles(fs.disk, fs'.disk, UserFiles(fs) - {fs.files[fd].sector})
      && HeaderOf(fs'.disk, fs.files[fd].sector) == HeaderOf(fs.disk, fs.files[fd].sector)
  {
    var s := fs.files[fd].sector;
    assert s in Live(fs) && s in UserFiles(fs);
    PatchIsLocal(fs.disk, fs.used, Live(fs), s, fs.files[fd].pos, data);
    assert ROOT_DIR_SECTOR in Live(fs) - {s};
  }

  lemma WroteRefines(fs: State, sp: Spec, fd: nat, data: seq<Byte>)
    requires Inv(fs) && Refines(fs, sp) && UserHandle(fs, fd)
    requires data == [] || fs.files[fd].pos + |data| <= fs.inodes[fs.files[fd].sector].hdr.length
    ensures Known(sp, fd) && Refines(Wrote(fs, fd, data), Stored(sp, fd, data))
  {
    OpenFileKnown(fs, sp, fd);
    WriteTables(fs, fd, data);
    WroteBytes(fs, fd, data);
    OneFileChanged(fs, Wrote(fs, fd, data), sp, fd, data);
  }

  lemma WroteBytes(fs: State, fd: nat, data: seq<Byte>)
    requires fd in fs.files && fs.files[fd].sector in fs.inodes && Fits(fs.disk, fs.inodes[fs.files[fd].sector].hdr)
    requires fs.inodes[fs.files[fd].sector].hdr == HeaderOf(fs.disk, fs.files[fd].sector)
    requires data == [] || fs.files[fd].pos + |data| <= fs.inodes[fs.files[fd].sector].hdr.length
    ensures var s := fs.files[fd].sector;
      HeaderOf(Wrote(fs, fd, data).disk, s) == HeaderOf(fs.disk, s)
      ==> FileBytes(Wrote(fs, fd, data), s) == Overwritten(FileBytes(fs, s), fs.files[fd].pos, data)
  {
    var h := fs.inodes[fs.files[fd].sector].hdr;
    PatchedContent(fs.disk, h, fs.files[fd].pos, data);
    EmptyChange(Content(fs.disk, h), fs.files[fd].pos);
  }

  lemma EmptyChange(c: seq<Byte>, pos: nat)
    ensures Overwritten(c, pos, []) == c
  {
  }

  lemma OneFileChanged(fs: State, fs': State, sp: Spec, fd: nat, data: seq<Byte>)
    requires Refines(fs, sp) && Known(sp, fd) && fs'.inodes == fs.inodes && fs'.files == fs.files && Root(fs'.disk) == Root(fs.disk)
    requires var s := fs.files[fd].sector;
      && SameFiles(fs.disk, fs'.disk, UserFiles(fs) - {s}) && sp.bytes[s] == FileBytes(fs, s)
      && FileBytes(fs', s) == Overwritten(FileBytes(fs, s), fs.files[fd].pos, data)
    ensures Refines(fs', Stored(sp, fd, data))
  {
    assert UserFiles(fs') == UserFiles(fs);
  }

  // ----- runs

  /** The scans of a creation that succeeds are good enough; see CreateBinds. */
  ghost predicate Good(fs: State, op: Op)
    requires Legal(fs, op)
  {
    op.OpCreate? && ReplyOf(fs, op).At? ==> Served(fs, op.name, op.m)
  }

  /** The simple model explains the reply and follows the operation exactly if no creation was
      misled by a read that failed. */
  lemma StepRefines(fs: State, sp: Spec, op: Op)
    requires Inv(fs) && Refines(fs, sp) && Legal(fs, op)
    ensures var r := ReplyOf(fs, op);
      Explains(sp, op, r) && Refines(Apply(fs, op), Next(sp, op, r)) <==> Good(fs, op)
  {
    match op
    case OpCreate(name, length, m) => CreateRefines(fs, sp, name, length, m);
    case OpOpen(name, fd, m) => OpenRefines(fs, sp, name, fd, m);
    case OpReopen(fd, fd', m) => ReopenRefines(fs, sp, fd, fd', m);
    case OpClose(fd, m) => CloseRefines(fs, sp, fd, m);
    case OpRemove(name, m) => RemoveRefines(fs, sp, name, m);
    case OpDeny(fd, deny) => DenyRefines(fs, sp, fd, deny);
    case OpSeek(fd, pos) => MovedRefines(fs, sp, fd, pos);
    case OpRead(fd, size, bounce) => ReadRefines(fs, sp, fd, size, bounce);
    case OpWrite(fd, data, bounce) => WriteRefines(fs, sp, fd, data, bounce);
  }

  ghost predicate GoodRun(fs: State, ops: seq<Op>)
    requires LegalRun(fs, ops)
    decreases |ops|
  {
    ops == [] || (Good(fs, ops[0]) && GoodRun(Apply(fs, ops[0]), ops[1..]))
  }

  /** The replies of a run. */
  ghost function Replies(fs: State, ops: seq<Op>): (rs: seq<Reply>)
    requires LegalRun(fs, ops)
    ensures |rs| == |ops|
    decreases |ops|
  {
    if ops == [] then [] else [ReplyOf(fs, ops[0])] + Replies(Apply(fs, ops[0]), ops[1..])
  }

  /** The simple model allows these replies to these operations, one after the other. */
  ghost predicate ExplainsRun(sp: Spec, ops: seq<Op>, rs: seq<Reply>)
    requires |rs| == |ops|
    decreases |ops|
  {
    ops == [] || (Explains(sp, ops[0], rs[0]) && ExplainsRun(Next(sp, ops[0], rs[0]), ops[1..], rs[1..]))
  }

  function Final(sp: Spec, ops: seq<Op>, rs: seq<Reply>): Spec
    requires |rs| == |ops|
    decreases |ops|
  {
    if ops == [] then sp else Final(Next(sp, ops[0], rs[0]), ops[1..], rs[1..])
  }

  /** Along every run the replies are those of the simple model, and at its end the names, the bytes
      and the handles are those of the model. */
  lemma {:induction false} RunRefines(fs: State, sp: Spec, ops: seq<Op>)
    requires Inv(fs) && Refines(fs, sp) && LegalRun(fs, ops) && GoodRun(fs, ops)
    ensures var rs := Replies(fs, ops);
      ExplainsRun(sp, ops, rs) && Refines(FileSystemMain.Run(fs, ops), Final(sp, ops, rs))
    decreases |ops|
  {
    if ops != [] {
      var r := ReplyOf(fs, ops[0]);
      StepRefines(fs, sp, ops[0]);
      StepKeeps(fs, ops[0]);
      RunRefines(Apply(fs, ops[0]), Next(sp, ops[0], r), ops[1..]);
      assert Replies(fs, ops)[1..] == Replies(Apply(fs, ops[0]), ops[1..]);
    }
  }

  /** A freshly formatted file system is the empty model: no names and no files. */
  lemma FormatRefines(blank: Device, save: bool, header: bool, map1: bool)
    requires 2 <= |blank| < 0x1_0000_0000 && Format(blank, save, header, map1).Some?
    ensures var fs := Format(blank, save, header, map1).value;
      Inv(fs) && Refines(fs, Spec(16, map[], map[], map[FREE_MAP_FD := File(FREE_MAP_SECTOR, 0, false)]))
  {
    FormatEstablishes(blank, save, header, map1);
    EmptyRefines(Format(blank, save, header, map1).value);
  }

  lemma EmptyRefines(fs: State)
    requires Empty(fs)
    ensures Refines(fs, Spec(16, map[], map[], map[FREE_MAP_FD := File(FREE_MAP_SECTOR, 0, false)]))
  {
  }

  // ----- runs with misled creations

  /** The files, among those named or open at the start, that no operation of the run writes and
      that stay named or open. */
  ghost function Unwritten(fs: State, ops: seq<Op>): set<nat>
    requires LegalRun(fs, ops)
    decreases |ops|
  {
    if ops == [] then UserFiles(fs)
    else (UserFiles(fs) - Target(fs, ops[0])) * Unwritten(Apply(fs, ops[0]), ops[1..])
  }

  /** In every run, whatever memory fails, the bytes of a file change only by writes to it. */
  lemma {:induction false} RunKeepsBytes(fs: State, ops: seq<Op>)
    requires Inv(fs) && LegalRun(fs, ops)
    ensures SameFiles(fs.disk, FileSystemMain.Run(fs, ops).disk, Unwritten(fs, ops))
    decreases |ops|
  {
    if ops != [] {
      StepKeeps(fs, ops[0]);
      RunKeepsBytes(Apply(fs, ops[0]), ops[1..]);
    }
  }
}
