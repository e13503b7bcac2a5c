/** filesys.c and file.c as sequences of calls on the kernel's tables: each call has exactly the
    effect of its function in FileSystem, and so keeps the invariant and disturbs no other file
    (Project2/src/filesys/filesys.c, Project2/src/filesys/file.c). */
module FileSystemCalls {
  import opened Disk
  import opened Bitmap
  import opened Geometry
  import opened Directory
  import opened FileSystemCode
  import opened DirectoryCode
  import FS = FileSystem
  import FSI = FileSystemInvariants
  import FSR = FileSystemRuns
  import FST = FileSystemTheorems

  // ----- the root directory held open

  /** The same state with inode r in the table for the root directory. */
  ghost function WithRoot(fs: FS.State, r: FS.Inode): FS.State
  {
    fs.(inodes := fs.inodes[FS.ROOT_DIR_SECTOR := r])
  }

  lemma AllocateWithRoot(fs: FS.State, r: FS.Inode, cnt: nat, bounce: bool)
    ensures FS.Allocate(WithRoot(fs, r), cnt, bounce)
         == (FS.Allocate(fs, cnt, bounce).0, WithRoot(FS.Allocate(fs, cnt, bounce).1, r))
  {
  }

  lemma ReleaseWithRoot(fs: FS.State, r: FS.Inode, start: nat, cnt: nat, bounce: bool)
    ensures FS.Release(WithRoot(fs, r), start, cnt, bounce) == WithRoot(FS.Release(fs, start, cnt, bounce), r)
  {
  }

  lemma InodeCreateWithRoot(fs: FS.State, r: FS.Inode, s: nat, length: nat, header: bool, bounce: bool)
    ensures FS.InodeCreate(WithRoot(fs, r), s, length, header, bounce)
         == (FS.InodeCreate(fs, s, length, header, bounce).0, WithRoot(FS.InodeCreate(fs, s, length, header, bounce).1, r))
  {
    AllocateWithRoot(fs, r, BytesToSectors(length), bounce);
  }

  lemma RootAddWithRoot(fs: FS.State, r: FS.Inode, name: Name, s: nat, m: FS.Memory)
    ensures FS.RootAdd(WithRoot(fs, r), name, s, m)
         == (FS.RootAdd(fs, name, s, m).0, WithRoot(FS.RootAdd(fs, name, s, m).1, r))
  {
  }

  lemma InodeOpenWithRoot(fs: FS.State, r: FS.Inode, s: nat, memory: bool)
    requires s != FS.ROOT_DIR_SECTOR
    ensures FS.InodeOpen(WithRoot(fs, r), s, memory) == (FS.InodeOpen(fs, s, memory).0, WithRoot(FS.InodeOpen(fs, s, memory).1, r))
  {
    var hdr := HeaderOf(fs.disk, s);
    assert FS.Referenced(WithRoot(fs, r).inodes, s, hdr) == FS.Referenced(fs.inodes, s, hdr)[FS.ROOT_DIR_SECTOR := r];
  }

  lemma InodeCloseWithRoot(fs: FS.State, r: FS.Inode, s: nat, map1: bool, map2: bool)
    requires s != FS.ROOT_DIR_SECTOR && s in fs.inodes
    ensures FS.InodeClose(WithRoot(fs, r), s, map1, map2) == WithRoot(FS.InodeClose(fs, s, map1, map2), r)
  {
    var i := fs.inodes[s];
    var fs1 := fs.(inodes := FS.Dropped(fs.inodes, s));
    assert FS.Dropped(WithRoot(fs, r).inodes, s) == FS.Dropped(fs.inodes, s)[FS.ROOT_DIR_SECTOR := r];
    assert WithRoot(fs, r).(inodes := FS.Dropped(WithRoot(fs, r).inodes, s)) == WithRoot(fs1, r);
    ReleaseWithRoot(fs1, r, s, 1, map1);
    ReleaseWithRoot(FS.Release(fs1, s, 1, map1), r, i.hdr.start, BytesToSectors(i.hdr.length), map2);
  }

  lemma EraseWithRoot(fs: FS.State, r: FS.Inode, k: nat)
    requires k < |FS.Root(fs.disk)|
    ensures FS.RootErase(WithRoot(fs, r), k) == WithRoot(FS.RootErase(fs, k), r)
  {
  }

  lemma MarkWithRoot(fs: FS.State, r: FS.Inode, s: nat)
    requires s != FS.ROOT_DIR_SECTOR
    ensures FS.Marked(WithRoot(fs, r), s) == WithRoot(FS.Marked(fs, s), r)
  {
    if s in fs.inodes {
      var i := fs.inodes[s].(removed := true);
      assert fs.inodes[FS.ROOT_DIR_SECTOR := r][s := i] == fs.inodes[s := i][FS.ROOT_DIR_SECTOR := r];
    }
  }

  /** The free map file and the root directory lie within the device. */
  ghost predicate Mounted(fs: FS.State)
  {
    && FS.FREE_MAP_SECTOR in fs.inodes && FS.ROOT_DIR_SECTOR !in fs.inodes && |fs.used| == |fs.disk|
    && Fits(fs.disk, FS.FreeMapHeader(fs)) && Fits(fs.disk, HeaderOf(fs.disk, FS.ROOT_DIR_SECTOR))
  }

  /** The kernel in state fs, with the root directory open besides as `dir`. */
  ghost predicate Holding(k: Kernel, dir: InodeObject, fs: FS.State)
    reads k, k.openInodes
  {
    && k.Valid() && dir in k.openInodes && dir.sector == FS.ROOT_DIR_SECTOR && dir.openCnt == 1 && dir.denyCnt == 0 && !dir.removed
    && k.Abs() == WithRoot(fs, dir.Value())
    && dir.hdr == HeaderOf(fs.disk, FS.ROOT_DIR_SECTOR)
  }

  lemma HoldingFits(k: Kernel, dir: InodeObject, fs: FS.State)
    requires Holding(k, dir, fs) && Mounted(fs)
    ensures k.disk == fs.disk && k.used == fs.used && |k.used| == |k.disk|
    ensures Fits(k.disk, dir.hdr) && Fits(k.disk, k.freeMapInode.hdr)
  {
    assert k.table[FS.FREE_MAP_SECTOR] == k.freeMapInode.Value();
  }

  // ----- filesys_create

  /** A new inode was made on disk at s. */
  ghost function Made(fs: FS.State, s: nat, length: nat, m: FS.Memory): FS.State
  {
    FS.InodeCreate(fs, s, length, m.header, m.map2).1
  }

  /** inode_create and dir_add of a creation whose header sector is allocated. */
  ghost function Linked(fs: FS.State, s: nat, name: Name, length: nat, m: FS.Memory): (bool, FS.State)
  {
    if FS.InodeCreate(fs, s, length, m.header, m.map2).0 then FS.RootAdd(Made(fs, s, length, m), name, s, m)
    else (false, Made(fs, s, length, m))
  }

  lemma LinkedIsCreateAt(fs: FS.State, s: nat, name: Name, length: nat, m: FS.Memory)
    ensures FS.CreateAt(fs, s, name, length, m)
         == if Linked(fs, s, name, length, m).0 then Linked(fs, s, name, length, m)
            else (false, FS.Release(Linked(fs, s, name, length, m).1, s, 1, m.map3))
    ensures SameShape(Made(fs, s, length, m), Linked(fs, s, name, length, m).1)
  {
  }

  ghost predicate SameShape(fs: FS.State, fs': FS.State)
  {
    |fs'.disk| == |fs.disk| && fs'.used == fs.used && fs'.inodes == fs.inodes
  }

  method MakeAndLink(k: Kernel, dir: InodeObject, ghost fs: FS.State, s: nat, name: Name, length: nat, m: FS.Memory,
                     buffer: Entry) returns (success: bool, ghost stale: Entry)
    requires Holding(k, dir, fs) && Mounted(fs) && s < |fs.disk| && fs.used[s]
    requires Stage(fs, Made(fs, s, length, m), s)
    modifies k`disk, k`used
    ensures success == Linked(fs, s, name, length, m.(stale := stale)).0
    ensures k.Abs() == WithRoot(Linked(fs, s, name, length, m.(stale := stale)).1, dir.Value())
  {
    success, stale := false, buffer;
    var ok := MakeInode(k, dir, fs, s, length, m);
    if ok {
      success, stale := AddToRoot(k, dir, Made(fs, s, length, m), s, name, m, buffer);
    }
  }

  method MakeInode(k: Kernel, dir: InodeObject, ghost fs: FS.State, s: nat, length: nat, m: FS.Memory) returns (ok: bool)
    requires Holding(k, dir, fs) && Mounted(fs) && s < |fs.disk| && fs.used[s]
    requires Stage(fs, Made(fs, s, length, m), s)
    modifies k`disk, k`used
    ensures ok == FS.InodeCreate(fs, s, length, m.header, m.map2).0
    ensures Holding(k, dir, Made(fs, s, length, m))
  {
    HoldingFits(k, dir, fs);
    InodeCreateWithRoot(fs, dir.Value(), s, length, m.header, m.map2);
    ok := k.InodeCreate(s, length, m.header, m.map2);
  }

  method AddToRoot(k: Kernel, dir: InodeObject, ghost fs: FS.State, s: nat, name: Name, m: FS.Memory, buffer: Entry)
    returns (success: bool, ghost stale: Entry)
    requires Holding(k, dir, fs) && Mounted(fs)
    modifies k`disk
    ensures success == FS.RootAdd(fs, name, s, m.(stale := stale)).0
    ensures k.Abs() == WithRoot(FS.RootAdd(fs, name, s, m.(stale := stale)).1, dir.Value())
  {
    HoldingFits(k, dir, fs);
    success, stale := DirAdd(k, dir, name, s, m, buffer);
    RootAddWithRoot(fs, dir.Value(), name, s, m.(stale := stale));
  }

  /** A state of a creation at s: the root directory is where it was, and s is marked. */
  ghost predicate Stage(fs: FS.State, fs': FS.State, s: nat)
  {
    && Mounted(fs') && s < |fs'.used| && fs'.used[s]
    && HeaderOf(fs'.disk, FS.ROOT_DIR_SECTOR) == HeaderOf(fs.disk, FS.ROOT_DIR_SECTOR)
  }

  lemma StorageIsMounted(fs: FS.State)
    requires FS.StorageInv(fs)
    ensures Mounted(fs)
  {
    assert FS.ROOT_DIR_SECTOR in FS.Live(fs) && FS.FREE_MAP_SECTOR in FS.Live(fs);
  }

  lemma CoreIsMounted(fs: FS.State, fs': FS.State, live: set<nat>, s: nat)
    requires FSI.Core(fs', live) && FS.ROOT_DIR_SECTOR in live && fs'.inodes == fs.inodes && FS.ROOT_DIR_SECTOR !in fs.inodes
    requires SameHeaders(fs.disk, fs'.disk, live) && s < |fs'.used| && fs'.used[s]
    ensures Stage(fs, fs', s)
  {
  }

  lemma CreateStages(fs: FS.State, length: nat, m: FS.Memory)
    requires FS.StorageInv(fs) && length < 0x8000_0000
    ensures var (at, fs1) := FS.Allocate(fs, 1, m.map1);
      at.Some? ==> Stage(fs, fs1, at.value) && Stage(fs, Made(fs1, at.value, length, m), at.value)
  {
    var live := FS.Live(fs);
    var (at, fs1) := FS.Allocate(fs, 1, m.map1);
    FSI.AllocateKeeps(fs, 1, m.map1, live);
    if at.Some? {
      assert fs1.used[at.value] && !fs.used[at.value];
      CoreIsMounted(fs, fs1, live, at.value);
      FSI.NewSectorUnowned(fs, fs1, at.value, live);
      FSI.InodeCreateKeeps(fs1, at.value, length, m.header, m.map2, live);
      FSI.QuietTrans(fs, fs1, Made(fs1, at.value, length, m), live);
      CoreIsMounted(fs, Made(fs1, at.value, length, m), live, at.value);
    }
  }

  /** A creation whose header sector is allocated; a failure gives that sector back. */
  method CreateAt(k: Kernel, dir: InodeObject, ghost fs: FS.State, s: nat, name: Name, length: nat, m: FS.Memory,
                  buffer: Entry) returns (success: bool, ghost stale: Entry)
    requires Holding(k, dir, fs) && Stage(fs, fs, s) && Stage(fs, Made(fs, s, length, m), s)
    modifies k`disk, k`used
    ensures success == FS.CreateAt(fs, s, name, length, m.(stale := stale)).0
    ensures k.Abs() == WithRoot(FS.CreateAt(fs, s, name, length, m.(stale := stale)).1, dir.Value())
  {
    success, stale := MakeAndLink(k, dir, fs, s, name, length, m, buffer);
    LinkedIsCreateAt(fs, s, name, length, m.(stale := stale));
    if !success {
      GiveBackHeader(k, dir, Made(fs, s, length, m), Linked(fs, s, name, length, m.(stale := stale)).1, s, m.map3);
    }
  }

  method GiveBackHeader(k: Kernel, dir: InodeObject, ghost fs1: FS.State, ghost fs2: FS.State, s: nat, bounce: bool)
    requires k.Valid() && Mounted(fs1) && s < |fs1.used| && fs1.used[s]
    requires SameShape(fs1, fs2) && k.Abs() == WithRoot(fs2, dir.Value())
    modifies k`disk, k`used
    ensures k.Abs() == WithRoot(FS.Release(fs2, s, 1, bounce), dir.Value())
  {
    assert k.table[FS.FREE_MAP_SECTOR] == k.freeMapInode.Value();
    ReleaseWithRoot(fs2, dir.Value(), s, 1, bounce);
    k.FreeMapRelease(s, 1, bounce);
  }

  /** filesys_create between opening and closing the root directory. */
  method CreateIn(k: Kernel, dir: InodeObject, ghost fs: FS.State, name: Name, length: nat, m: FS.Memory, buffer: Entry)
    returns (success: bool, ghost stale: Entry)
    requires Holding(k, dir, fs) && Mounted(fs)
    requires var (at, fs1) := FS.Allocate(fs, 1, m.map1);
      at.Some? ==> Stage(fs, fs1, at.value) && Stage(fs, Made(fs1, at.value, length, m), at.value)
    modifies k`disk, k`used
    ensures k.Abs() == WithRoot(FS.CreateIn(fs, name, length, m.(stale := stale)).1, dir.Value())
    ensures success == FS.CreateIn(fs, name, length, m.(stale := stale)).0
  {
    success, stale := false, buffer;
    HoldingFits(k, dir, fs);
    AllocateWithRoot(fs, dir.Value(), 1, m.map1);
    var inode_sector := k.FreeMapAllocate(1, m.map1);
    if inode_sector.Some? {
      success, stale := CreateAt(k, dir, FS.Allocate(fs, 1, m.map1).1, inode_sector.value, name, length, m, buffer);
    }
  }

  /** dir_open_root: the root inode is opened, and given back if the handle cannot be allocated. */
  method DirOpenRoot(k: Kernel, inodeMemory: bool, dirMemory: bool) returns (dir: Dir?)
    requires k.Valid() && Mounted(k.Abs())
    modifies k, k.openInodes
    ensures k.Valid() && (dir != null <==> inodeMemory && dirMemory)
    ensures dir != null ==> fresh(dir) && fresh(dir.inode) && dir.next == 0 && Holding(k, dir.inode, old(k.Abs()))
    ensures dir != null ==> k.openInodes == [dir.inode] + old(k.openInodes)
    ensures dir == null ==> k.Abs() == old(k.Abs())
  {
    dir := null;
    ghost var fs := k.Abs();
    assert k.table[FS.FREE_MAP_SECTOR] == k.freeMapInode.Value();
    var inode := k.InodeOpen(FS.ROOT_DIR_SECTOR, inodeMemory);
    if inode != null {
      assert k.table[FS.ROOT_DIR_SECTOR] == inode.Value();
      assert Holding(k, inode, fs);
      dir := WrapRoot(k, inode, fs, dirMemory);
    }
  }

  /** dir_open of the root directory's inode. */
  method WrapRoot(k: Kernel, inode: InodeObject, ghost fs: FS.State, dirMemory: bool) returns (dir: Dir?)
    requires Holding(k, inode, fs) && Mounted(fs)
    modifies k, inode
    ensures k.Valid() && (dir != null <==> dirMemory)
    ensures dir != null ==> fresh(dir) && dir.inode == inode && dir.next == 0 && Holding(k, inode, fs) && k.openInodes == old(k.openInodes)
    ensures dir == null ==> k.Abs() == fs
  {
    dir := null;
    if dirMemory {
      dir := new Dir(inode);
    } else {
      CloseRoot(k, inode, fs);
    }
  }

  /** inode_close of the root directory's inode. */
  method CloseRoot(k: Kernel, inode: InodeObject, ghost fs: FS.State)
    requires k.Valid() && inode in k.openInodes && inode.sector == FS.ROOT_DIR_SECTOR && inode.openCnt == 1 && !inode.removed
    requires k.Abs() == WithRoot(fs, inode.Value()) && Mounted(fs)
    modifies k, inode
    ensures k.Valid() && k.Abs() == fs
    ensures forall o :: o in k.openInodes <==> o in old(k.openInodes) && o != inode
  {
    assert k.table[FS.FREE_MAP_SECTOR] == k.freeMapInode.Value();
    k.InodeClose(inode, false, false);
    assert WithRoot(fs, old(inode.Value())).inodes - {FS.ROOT_DIR_SECTOR} == fs.inodes;
  }

  /** Every intermediate state of a creation in fs, and the last, keep the root directory in place. */
  ghost predicate CreatePlan(fs: FS.State, name: Name, length: nat, m: FS.Memory)
  {
    && Mounted(fs)
    && (var (at, fs1) := FS.Allocate(fs, 1, m.map1);
        at.Some? ==> Stage(fs, fs1, at.value) && Stage(fs, Made(fs1, at.value, length, m), at.value))
    && forall stale :: Mounted(FS.CreateIn(fs, name, length, m.(stale := stale)).1)
  }

  ghost predicate RootStays(fs: FS.State, fs': FS.State)
  {
    Mounted(fs') && HeaderOf(fs'.disk, FS.ROOT_DIR_SECTOR) == HeaderOf(fs.disk, FS.ROOT_DIR_SECTOR)
  }

  lemma CreateIsPlanned(fs: FS.State, name: Name, length: nat, m: FS.Memory)
    requires FS.StorageInv(fs) && length < 0x8000_0000 && m.root
    ensures CreatePlan(fs, name, length, m)
  {
    StorageIsMounted(fs);
    CreateStages(fs, length, m);
    forall stale ensures Mounted(FS.CreateIn(fs, name, length, m.(stale := stale)).1) {
      CreateEnds(fs, name, length, m.(stale := stale));
    }
  }

  lemma CreateEnds(fs: FS.State, name: Name, length: nat, m: FS.Memory)
    requires FS.StorageInv(fs) && length < 0x8000_0000 && m.root
    ensures Mounted(FS.CreateIn(fs, name, length, m).1)
  {
    FSI.CreateKeepsStorage(fs, name, length, m);
    StorageIsMounted(FS.Create(fs, name, length, m).1);
  }

  method CreateAndClose(k: Kernel, dir: InodeObject, ghost fs: FS.State, name: Name, length: nat, m: FS.Memory, buffer: Entry)
    returns (success: bool, ghost stale: Entry)
    requires Holding(k, dir, fs) && CreatePlan(fs, name, length, m)
    modifies k, dir
    ensures k.Valid() && k.Abs() == FS.CreateIn(fs, name, length, m.(stale := stale)).1
    ensures success == FS.CreateIn(fs, name, length, m.(stale := stale)).0
  {
    success, stale := CreateIn(k, dir, fs, name, length, m, buffer);
    CloseRoot(k, dir, FS.CreateIn(fs, name, length, m.(stale := stale)).1);
  }

  method FilesysCreate(k: Kernel, name: Name, initialSize: nat, m: FS.Memory, inodeMemory: bool, dirMemory: bool,
                       buffer: Entry) returns (success: bool, ghost stale: Entry)
    requires k.Valid() && FS.StorageInv(k.Abs()) && initialSize < 0x8000_0000
    requires m.root == (inodeMemory && dirMemory)
    modifies k, k.openInodes
    ensures k.Valid() && k.Abs() == FS.Create(old(k.Abs()), name, initialSize, m.(stale := stale)).1
    ensures success == FS.Create(old(k.Abs()), name, initialSize, m.(stale := stale)).0
  {
    if m.root {
      CreateIsPlanned(k.Abs(), name, initialSize, m);
    }
    StorageIsMounted(k.Abs());
    success, stale := CreatePlanned(k, name, initialSize, m, inodeMemory, dirMemory, buffer);
  }

  method CreatePlanned(k: Kernel, name: Name, initialSize: nat, m: FS.Memory, inodeMemory: bool, dirMemory: bool,
                       buffer: Entry) returns (success: bool, ghost stale: Entry)
    requires k.Valid() && Mounted(k.Abs()) && m.root == (inodeMemory && dirMemory)
    requires m.root ==> CreatePlan(k.Abs(), name, initialSize, m)
    modifies k, k.openInodes
    ensures k.Valid() && k.Abs() == FS.Create(old(k.Abs()), name, initialSize, m.(stale := stale)).1
    ensures success == FS.Create(old(k.Abs()), name, initialSize, m.(stale := stale)).0
  {
    success, stale := false, buffer;
    ghost var fs := k.Abs();
    var dir := DirOpenRoot(k, inodeMemory, dirMemory);
    if dir != null {
      success, stale := CreateAndClose(k, dir.inode, fs, name, initialSize, m, buffer);
    }
  }

  // ----- filesys_open

  /** An open file (struct file). */
  class FileObject {
    const inode: InodeObject
    var pos: nat
    var deny: bool

    constructor (inode: InodeObject)
      ensures this.inode == inode && pos == 0 && !deny
    {
      this.inode, pos, deny := inode, 0, false;
    }
  }

  /** f is the object behind handle fd. */
  ghost predicate Handle(k: Kernel, fd: nat, f: FileObject)
    reads k`files, k`openInodes, f
  {
    fd in k.files && k.files[fd] == FS.File(f.inode.sector, f.pos, f.deny) && f.inode in k.openInodes
  }

  /** file_open of an inode just opened, which it takes over or closes again. */
  method FileOpen(k: Kernel, inode: InodeObject, ghost fd: nat, m: FS.Memory) returns (f: FileObject?)
    requires k.Valid() && Fits(k.disk, k.freeMapInode.hdr) && inode in k.openInodes && inode.sector > FS.ROOT_DIR_SECTOR
    requires inode.openCnt == 1 ==> !inode.removed
    modifies k, inode
    ensures k.Valid() && (f != null <==> m.handle) && (f != null ==> fresh(f) && Handle(k, fd, f))
    ensures (m.handle, k.Abs()) == FS.Wrap(old(k.Abs()), inode.sector, fd, m)
  {
    f := null;
    if m.handle {
      f := new FileObject(inode);
      k.files := k.files[fd := FS.File(inode.sector, 0, false)];
    } else {
      k.InodeClose(inode, m.map1, m.map2);
    }
  }

  /** dir_lookup in the open root directory. */
  method DirLookup(k: Kernel, dir: InodeObject, ghost fs: FS.State, name: Name, m: FS.Memory, buffer: Entry)
    returns (inode: InodeObject?)
    requires Holding(k, dir, fs) && Mounted(fs) && FS.DistinctSectors(FS.Root(fs.disk))
    modifies k, k.openInodes
    ensures var (s, fs1) := FS.LookupOpen(fs, name, m);
      && Holding(k, dir, fs1) && Mounted(fs1)
      && (inode != null <==> s.Some?) && (s.Some? ==> inode.sector == s.value && s.value > FS.ROOT_DIR_SECTOR)
    ensures inode != null ==> inode in k.openInodes && inode != dir && (fresh(inode) || inode in old(k.openInodes))
    ensures inode != null && inode.openCnt == 1 ==> !inode.removed
  {
    inode := null;
    HoldingFits(k, dir, fs);
    var found, e := Lookup(k, dir, name, m.seen, buffer);
    if found.Some? {
      FoundSector(FS.Root(fs.disk), found.value, m.seen, name);
      InodeOpenWithRoot(fs, dir.Value(), EntrySector(e), m.inode);
      inode := k.InodeOpen(EntrySector(e), m.inode);
      assert k.table[FS.ROOT_DIR_SECTOR] == dir.Value();
    }
  }

  lemma FoundSector(es: seq<Entry>, i: nat, seen: nat, name: Name)
    requires FS.DistinctSectors(es) && FindName(es[..FS.Cut(seen, |es|)], name) == Some(i)
    ensures i < |es| && InUse(es[i]) && EntrySector(es[i]) > FS.ROOT_DIR_SECTOR
  {
    assert es[..FS.Cut(seen, |es|)][i] == es[i];
  }

  method LookupAndClose(k: Kernel, dir: InodeObject, ghost fs: FS.State, name: Name, m: FS.Memory, buffer: Entry)
    returns (inode: InodeObject?)
    requires Holding(k, dir, fs) && Mounted(fs) && FS.DistinctSectors(FS.Root(fs.disk))
    modifies k, k.openInodes
    ensures var (s, fs1) := FS.LookupOpen(fs, name, m);
      && k.Valid() && k.Abs() == fs1 && Mounted(fs1)
      && (inode != null <==> s.Some?) && (s.Some? ==> inode.sector == s.value && s.value > FS.ROOT_DIR_SECTOR)
    ensures inode != null ==> inode in k.openInodes && (fresh(inode) || inode in old(k.openInodes))
    ensures inode != null && inode.openCnt == 1 ==> !inode.removed
  {
    inode := DirLookup(k, dir, fs, name, m, buffer);
    CloseRoot(k, dir, FS.LookupOpen(fs, name, m).1);
  }

  method FilesysOpen(k: Kernel, name: Name, ghost fd: nat, m: FS.Memory, inodeMemory: bool, dirMemory: bool, buffer: Entry)
    returns (file: FileObject?)
    requires k.Valid() && FS.StorageInv(k.Abs()) && m.root == (inodeMemory && dirMemory)
    modifies k, k.openInodes
    ensures k.Valid() && k.Abs() == FS.Open(old(k.Abs()), name, fd, m).1
    ensures file != null <==> FS.Open(old(k.Abs()), name, fd, m).0
    ensures file != null ==> fresh(file) && Handle(k, fd, file)
  {
    StorageIsMounted(k.Abs());
    file := OpenMounted(k, name, fd, m, inodeMemory, dirMemory, buffer);
  }

  method OpenMounted(k: Kernel, name: Name, ghost fd: nat, m: FS.Memory, inodeMemory: bool, dirMemory: bool, buffer: Entry)
    returns (file: FileObject?)
    requires k.Valid() && Mounted(k.Abs()) && FS.DistinctSectors(FS.Root(k.disk)) && m.root == (inodeMemory && dirMemory)
    modifies k, k.openInodes
    ensures k.Valid() && k.Abs() == FS.Open(old(k.Abs()), name, fd, m).1
    ensures file != null <==> FS.Open(old(k.Abs()), name, fd, m).0
    ensures file != null ==> fresh(file) && Handle(k, fd, file)
  {
    file := null;
    ghost var fs := k.Abs();
    var dir := DirOpenRoot(k, inodeMemory, dirMemory);
    if dir != null {
      file := OpenIn(k, dir.inode, fs, name, fd, m, buffer);
    }
  }

  method OpenIn(k: Kernel, dir: InodeObject, ghost fs: FS.State, name: Name, ghost fd: nat, m: FS.Memory, buffer: Entry)
    returns (file: FileObject?)
    requires Holding(k, dir, fs) && Mounted(fs) && FS.DistinctSectors(FS.Root(fs.disk)) && m.root
    modifies k, k.openInodes
    ensures k.Valid() && k.Abs() == FS.Open(fs, name, fd, m).1
    ensures file != null <==> FS.Open(fs, name, fd, m).0
    ensures file != null ==> fresh(file) && Handle(k, fd, file)
  {
    var inode := LookupAndClose(k, dir, fs, name, m, buffer);
    if inode == null {
      return null;
    }
    assert k.table[FS.FREE_MAP_SECTOR] == k.freeMapInode.Value();
    file := FileOpen(k, inode, fd, m);
  }

  // ----- filesys_remove

  /** The sectors of inode s can be given back. */
  ghost predicate Returnable(fs: FS.State, s: nat)
  {
    && s in fs.inodes && s > FS.ROOT_DIR_SECTOR && Run(fs.used, s, 1, true)
    && Run(fs.used, fs.inodes[s].hdr.start, BytesToSectors(fs.inodes[s].hdr.length), true) && !InData(fs.inodes[s].hdr, s)
  }

  /** inode_remove while the root directory is open. */
  method RemoveOpened(k: Kernel, dir: InodeObject, ghost fs: FS.State, inode: InodeObject)
    requires Holding(k, dir, fs) && Returnable(fs, inode.sector) && inode in k.openInodes
    modifies k`table, inode`removed
    ensures Holding(k, dir, FS.Marked(fs, inode.sector))
  {
    assert k.table[inode.sector] == inode.Value();
    k.InodeRemove(inode);
    MarkWithRoot(fs, dir.Value(), inode.sector);
  }

  /** inode_close while the root directory is open. */
  method CloseOpened(k: Kernel, dir: InodeObject, ghost fs: FS.State, inode: InodeObject, m: FS.Memory)
    requires Holding(k, dir, fs) && Mounted(fs) && inode in k.openInodes && Returnable(fs, inode.sector)
    modifies k, inode
    ensures k.Valid() && dir in k.openInodes && dir.Value() == old(dir.Value())
    ensures k.Abs() == WithRoot(FS.InodeClose(fs, inode.sector, m.map1, m.map2), dir.Value())
  {
    HoldingFits(k, dir, fs);
    assert k.table[inode.sector] == inode.Value();
    InodeCloseWithRoot(fs, dir.Value(), inode.sector, m.map1, m.map2);
    k.InodeClose(inode, m.map1, m.map2);
  }

  /** dir_remove from the erase on. */
  method Unlink(k: Kernel, dir: InodeObject, ghost fs: FS.State, i: nat, e: Entry, inode: InodeObject, m: FS.Memory)
    returns (success: bool)
    requires Holding(k, dir, fs) && Mounted(fs) && inode in k.openInodes && Returnable(fs, inode.sector)
    requires i < |FS.Root(fs.disk)| && e == FS.Root(fs.disk)[i]
    requires RootStays(fs, FS.RootErase(fs, i))
    modifies k, inode
    ensures success == m.stored && k.Valid() && dir in k.openInodes && dir.Value() == old(dir.Value())
    ensures k.Abs() == WithRoot(FS.InodeClose(if success then FS.Marked(FS.RootErase(fs, i), inode.sector) else fs,
                                              inode.sector, m.map1, m.map2), dir.Value())
  {
    HoldingFits(k, dir, fs);
    EraseWithRoot(fs, dir.Value(), i);
    success := EraseEntry(k, dir, i, e, m.stored);
    if success {
      RemoveOpened(k, dir, FS.RootErase(fs, i), inode);
      CloseOpened(k, dir, FS.Marked(FS.RootErase(fs, i), inode.sector), inode, m);
    } else {
      CloseOpened(k, dir, fs, inode, m);
    }
  }

  /** A removal of the name found at entry i keeps the root directory in place throughout. */
  ghost predicate RemovePlan(fs: FS.State, i: nat, m: FS.Memory)
    requires i < |FS.Root(fs.disk)|
  {
    var s := EntrySector(FS.Root(fs.disk)[i]);
    var (ok, fs1) := FS.InodeOpen(fs, s, m.inode);
    s > FS.ROOT_DIR_SECTOR &&
    (ok ==> Mounted(fs1) && Returnable(fs1, s) && RootStays(fs1, FS.RootErase(fs1, i)))
  }

  lemma RemoveIsPlanned(fs: FS.State, i: nat, m: FS.Memory)
    requires FS.StorageInv(fs) && i < |FS.Root(fs.disk)| && InUse(FS.Root(fs.disk)[i])
    ensures RemovePlan(fs, i, m)
  {
    var s := EntrySector(FS.Root(fs.disk)[i]);
    var (ok, fs1) := FS.InodeOpen(fs, s, m.inode);
    FST.NamedIsLive(fs, i);
    if ok {
      FSR.InodeOpenKeepsStorage(fs, s, m.inode);
      StorageIsMounted(fs1);
      OpenIsReturnable(fs1, s);
      FSI.RootPutKeeps(fs1, i, Erased(FS.Root(fs1.disk)[i]), FS.Live(fs1));
      FST.RootEraseUnfolds(fs1, i);
      assert FS.ROOT_DIR_SECTOR in FS.Live(fs1);
    }
  }

  lemma OpenIsReturnable(fs: FS.State, s: nat)
    requires FS.StorageInv(fs) && s in fs.inodes && s > FS.ROOT_DIR_SECTOR
    ensures Returnable(fs, s)
  {
    FSR.ExtentMarked(fs.disk, fs.used, FS.Live(fs), s);
  }

  lemma RemoveEnds(fs: FS.State, name: Name, m: FS.Memory)
    requires FS.Inv(fs) && m.root
    ensures Mounted(FS.RemoveIn(fs, name, m).1)
  {
    FST.RemoveKeeps(fs, name, m);
    StorageIsMounted(FS.Remove(fs, name, m).1);
  }

  /** dir_remove in the open root directory. */
  method DirRemove(k: Kernel, dir: InodeObject, ghost fs: FS.State, name: Name, m: FS.Memory, buffer: Entry)
    returns (success: bool)
    requires Holding(k, dir, fs) && Mounted(fs)
    requires forall i | 0 <= i < |FS.Root(fs.disk)| && InUse(FS.Root(fs.disk)[i]) :: RemovePlan(fs, i, m)
    modifies k, k.openInodes
    ensures success == FS.RemoveIn(fs, name, m).0 && k.Valid() && dir in k.openInodes && dir.Value() == old(dir.Value())
    ensures k.Abs() == WithRoot(FS.RemoveIn(fs, name, m).1, dir.Value())
  {
    success := false;
    HoldingFits(k, dir, fs);
    var found, e := Lookup(k, dir, name, m.seen, buffer);
    if found.Some? {
      assert FS.Root(fs.disk)[..FS.Cut(m.seen, |FS.Root(fs.disk)|)][found.value] == e;
      assert RemovePlan(fs, found.value, m);
      var s := EntrySector(e);
      InodeOpenWithRoot(fs, dir.Value(), s, m.inode);
      var inode := k.InodeOpen(s, m.inode);
      if inode != null {
        ghost var fs1 := FS.InodeOpen(fs, s, m.inode).1;
        assert k.table[FS.ROOT_DIR_SECTOR] == dir.Value();
        assert Holding(k, dir, fs1);
        success := Unlink(k, dir, fs1, found.value, e, inode, m);
      }
    }
  }

  /** The removal of `name`, wherever it is found, keeps the root directory in place. */
  ghost predicate RemovePlans(fs: FS.State, name: Name, m: FS.Memory)
  {
    && Mounted(FS.RemoveIn(fs, name, m).1)
    && forall i | 0 <= i < |FS.Root(fs.disk)| && InUse(FS.Root(fs.disk)[i]) :: RemovePlan(fs, i, m)
  }

  method RemoveAndClose(k: Kernel, dir: InodeObject, ghost fs: FS.State, name: Name, m: FS.Memory, buffer: Entry)
    returns (success: bool)
    requires Holding(k, dir, fs) && Mounted(fs) && RemovePlans(fs, name, m)
    modifies k, k.openInodes
    ensures k.Valid() && success == FS.RemoveIn(fs, name, m).0 && k.Abs() == FS.RemoveIn(fs, name, m).1
  {
    success := DirRemove(k, dir, fs, name, m, buffer);
    CloseRoot(k, dir, FS.RemoveIn(fs, name, m).1);
  }

  method FilesysRemove(k: Kernel, name: Name, m: FS.Memory, inodeMemory: bool, dirMemory: bool, buffer: Entry)
    returns (success: bool)
    requires k.Valid() && FS.Inv(k.Abs()) && m.root == (inodeMemory && dirMemory)
    modifies k, k.openInodes
    ensures k.Valid() && k.Abs() == FS.Remove(old(k.Abs()), name, m).1
    ensures success == FS.Remove(old(k.Abs()), name, m).0
  {
    ghost var fs := k.Abs();
    StorageIsMounted(fs);
    if m.root {
      RemoveEnds(fs, name, m);
      forall i | 0 <= i < |FS.Root(fs.disk)| && InUse(FS.Root(fs.disk)[i]) ensures RemovePlan(fs, i, m) {
        RemoveIsPlanned(fs, i, m);
      }
    }
    success := RemoveMounted(k, name, m, inodeMemory, dirMemory, buffer);
  }

  method RemoveMounted(k: Kernel, name: Name, m: FS.Memory, inodeMemory: bool, dirMemory: bool, buffer: Entry)
    returns (success: bool)
    requires k.Valid() && Mounted(k.Abs()) && m.root == (inodeMemory && dirMemory)
    requires m.root ==> RemovePlans(k.Abs(), name, m)
    modifies k, k.openInodes
    ensures k.Valid() && k.Abs() == FS.Remove(old(k.Abs()), name, m).1
    ensures success == FS.Remove(old(k.Abs()), name, m).0
  {
    success := false;
    ghost var fs := k.Abs();
    var dir := DirOpenRoot(k, inodeMemory, dirMemory);
    if dir != null {
      success := RemoveAndClose(k, dir.inode, fs, name, m, buffer);
    }
  }

  // ----- file.c

  /** file_reopen: the same inode once more, under a new handle. */
  method FileReopen(k: Kernel, f: FileObject, ghost fd: nat, ghost fd': nat, m: FS.Memory) returns (g: FileObject?)
    requires k.Valid() && Mounted(k.Abs()) && Handle(k, fd, f) && f.inode.sector > FS.ROOT_DIR_SECTOR
    requires f.inode.hdr == HeaderOf(k.disk, f.inode.sector)
    modifies k, f.inode
    ensures k.Valid() && k.Abs() == FS.Reopen(old(k.Abs()), fd, fd', m).1
    ensures g != null <==> FS.Reopen(old(k.Abs()), fd, fd', m).0
    ensures g != null ==> fresh(g) && Handle(k, fd', g)
  {
    assert k.table[FS.FREE_MAP_SECTOR] == k.freeMapInode.Value();
    k.InodeReopen(f.inode);
    g := FileOpen(k, f.inode, fd', m);
  }

  /** The assertions of inode_deny_write and inode_allow_write; the free map file never denies. */
  ghost predicate DenyAssertions(k: Kernel, f: FileObject)
    reads f, f.inode
  {
    && (f.deny ==> 0 < f.inode.denyCnt <= f.inode.openCnt) && (!f.deny ==> f.inode.denyCnt < f.inode.openCnt)
    && f.inode != k.freeMapInode
  }

  /** They hold for every user handle in every state that satisfies the invariant. */
  lemma DenyAssertionsHold(k: Kernel, fd: nat, f: FileObject)
    requires k.Valid() && FS.CountInv(k.table, k.files) && Handle(k, fd, f) && fd != FS.FREE_MAP_FD
    ensures DenyAssertions(k, f)
  {
    FSR.DenyAssertsHold(k.table, k.files, fd);
    assert k.table[f.inode.sector] == f.inode.Value();
  }

  /** What setting or clearing the deny flag amounts to when it changes. */
  lemma DenyUnfolds(fs: FS.State, fs': FS.State, fd: nat, f: FS.File, i: FS.Inode, deny: bool)
    requires fd in fs.files && fs.files[fd] == f && f.sector in fs.inodes && fs.inodes[f.sector] == i
    requires f.deny != deny && (deny || i.denyCnt > 0)
    requires fs' == fs.(files := fs.files[fd := f.(deny := deny)],
                        inodes := fs.inodes[f.sector := i.(denyCnt := if deny then i.denyCnt + 1 else i.denyCnt - 1)])
    ensures fs' == FS.SetDeny(fs, fd, deny)
  {
  }

  method FileDenyWrite(k: Kernel, f: FileObject, ghost fd: nat)
    requires k.Valid() && Handle(k, fd, f) && DenyAssertions(k, f)
    modifies k`table, k`files, f`deny, f.inode`denyCnt
    ensures k.Valid() && Handle(k, fd, f) && k.Abs() == FS.SetDeny(old(k.Abs()), fd, true)
  {
    ghost var fs, file, i := k.Abs(), k.files[fd], f.inode.Value();
    assert k.table[f.inode.sector] == i;
    if !f.deny {
      f.deny := true;
      k.files := k.files[fd := k.files[fd].(deny := true)];
      k.InodeDenyWrite(f.inode);
      DenyUnfolds(fs, k.Abs(), fd, file, i, true);
    }
  }

  method FileAllowWrite(k: Kernel, f: FileObject, ghost fd: nat)
    requires k.Valid() && Handle(k, fd, f) && DenyAssertions(k, f)
    modifies k`table, k`files, f`deny, f.inode`denyCnt
    ensures k.Valid() && Handle(k, fd, f) && k.Abs() == FS.SetDeny(old(k.Abs()), fd, false)
  {
    ghost var fs, file, i := k.Abs(), k.files[fd], f.inode.Value();
    assert k.table[f.inode.sector] == i;
    if f.deny {
      f.deny := false;
      k.files := k.files[fd := k.files[fd].(deny := false)];
      k.InodeAllowWrite(f.inode);
      DenyUnfolds(fs, k.Abs(), fd, file, i, false);
    }
  }

  /** file_close: stop denying writes, drop the reference, forget the handle. */
  method FileClose(k: Kernel, f: FileObject, ghost fd: nat, m: FS.Memory)
    requires k.Valid() && Mounted(k.Abs()) && Handle(k, fd, f) && DenyAssertions(k, f) && Returnable(k.Abs(), f.inode.sector)
    modifies k, f`deny, f.inode
    ensures k.Valid() && k.Abs() == FS.Close(old(k.Abs()), fd, m)
    ensures forall o :: o in k.openInodes <==> o in old(k.openInodes) && (o != f.inode || old(f.inode.openCnt) > 1)
  {
    assert k.table[f.inode.sector] == f.inode.Value() && k.table[FS.FREE_MAP_SECTOR] == k.freeMapInode.Value();
    FileAllowWrite(k, f, fd);
    k.files := k.files - {fd};
    k.InodeClose(f.inode, m.map1, m.map2);
  }

  method FileRead(k: Kernel, f: FileObject, ghost fd: nat, size: int, bounce: bool) returns (buffer: seq<Byte>)
    requires k.Valid() && Handle(k, fd, f) && Fits(k.disk, f.inode.hdr)
    modifies k`files, f`pos
    ensures Handle(k, fd, f) && k.Abs() == FS.Read(old(k.Abs()), fd, size, bounce).1
    ensures buffer == FS.Read(old(k.Abs()), fd, size, bounce).0
  {
    assert k.table[f.inode.sector] == f.inode.Value();
    buffer := k.InodeReadAt(f.inode, size, f.pos, bounce);
    f.pos := f.pos + |buffer|;
    k.files := k.files[fd := k.files[fd].(pos := f.pos)];
  }

  method FileWrite(k: Kernel, f: FileObject, ghost fd: nat, data: seq<Byte>, bounce: bool) returns (written: nat)
    requires k.Valid() && Handle(k, fd, f) && Fits(k.disk, f.inode.hdr)
    modifies k`disk, k`files, f`pos
    ensures Handle(k, fd, f) && k.Abs() == FS.Write(old(k.Abs()), fd, data, bounce).1
    ensures written == FS.Write(old(k.Abs()), fd, data, bounce).0
  {
    assert k.table[f.inode.sector] == f.inode.Value();
    written := k.InodeWriteAt(f.inode, data, f.pos, bounce);
    if f.inode.denyCnt > 0 {
      PatchNothing(old(k.disk), f.inode.hdr, f.pos);
      assert data[..0] == [];
      assert k.files[fd := k.files[fd].(pos := f.pos)] == k.files;
    }
    f.pos := f.pos + written;
    k.files := k.files[fd := k.files[fd].(pos := f.pos)];
  }

  /** In every state a run can reach, the calls above may be made on every open file: none of the
      assertions in their way can fire. */
  lemma HandleIsUsable(k: Kernel, fd: nat, f: FileObject)
    requires k.Valid() && FS.Inv(k.Abs()) && Handle(k, fd, f) && fd != FS.FREE_MAP_FD
    ensures Mounted(k.Abs()) && DenyAssertions(k, f) && Returnable(k.Abs(), f.inode.sector)
    ensures f.inode.hdr == HeaderOf(k.disk, f.inode.sector) && Fits(k.disk, f.inode.hdr)
  {
    StorageIsMounted(k.Abs());
    DenyAssertionsHold(k, fd, f);
    OpenIsReturnable(k.Abs(), f.inode.sector);
    OpenFits(k.Abs(), f.inode.sector);
    assert k.table[f.inode.sector] == f.inode.Value();
  }

  lemma OpenFits(fs: FS.State, s: nat)
    requires FS.StorageInv(fs) && s in fs.inodes
    ensures fs.inodes[s].hdr == HeaderOf(fs.disk, s) && Fits(fs.disk, fs.inodes[s].hdr)
  {
    assert s in FS.Live(fs);
  }
}
