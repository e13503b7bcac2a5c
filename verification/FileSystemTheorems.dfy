/** The main results about the file system: what every run of operations keeps, and what one
    operation does to the names and bytes a user sees. */
module FileSystemTheorems {
  import opened Disk
  import opened Bitmap
  import opened Geometry
  import opened Directory
  import opened FileSystem
  import opened FileSystemInvariants
  import opened FileSystemRuns

  /** Every file that is named or open, the free map and the root directory aside. */
  ghost function UserFiles(fs: State): set<nat>
  {
    Live(fs) - {FREE_MAP_SECTOR, ROOT_DIR_SECTOR}
  }

  // ----- one operation

  lemma CreateKeeps(fs: State, name: Name, length: nat, m: Memory)
    requires Inv(fs) && length < 0x8000_0000
    ensures var fs' := Create(fs, name, length, m).1; Inv(fs') && SameFiles(fs.disk, fs'.disk, UserFiles(fs))
  {
    CreateKeepsStorage(fs, name, length, m);
  }

  lemma NamedIsLive(fs: State, i: nat)
    requires DistinctSectors(Root(fs.disk)) && i < |Root(fs.disk)| && InUse(Root(fs.disk)[i])
    ensures EntrySector(Root(fs.disk)[i]) in UserFiles(fs)
  {
    assert Root(fs.disk)[i] in Root(fs.disk);
  }

  lemma OpenKeeps(fs: State, name: Name, fd: nat, m: Memory)
    requires Inv(fs) && fd !in fs.files
    ensures var fs' := Open(fs, name, fd, m).1; Inv(fs') && fs'.disk == fs.disk && fs'.used == fs.used
  {
    var es := Root(fs.disk);
    var found := FindName(es[..Cut(m.seen, |es|)], name);
    if m.root && found.Some? {
      assert es[found.value] == es[..Cut(m.seen, |es|)][found.value];
      NamedIsLive(fs, found.value);
      NewHandleKeeps(fs, EntrySector(es[found.value]), fd, m);
    }
  }

  /** Opening an inode and wrapping it in a handle, as dir_lookup and file_open do together. */
  lemma NewHandleKeeps(fs: State, s: nat, fd: nat, m: Memory)
    requires Inv(fs) && fd !in fs.files && s in UserFiles(fs)
    ensures var (ok, fs1) := InodeOpen(fs, s, m.inode);
      ok ==> if m.handle then Inv(fs1.(files := fs1.files[fd := File(s, 0, false)]))
             else InodeClose(fs1, s, m.map1, m.map2) == fs
  {
    var (ok, fs1) := InodeOpen(fs, s, m.inode);
    if ok {
      if m.handle {
        InodeOpenKeepsStorage(fs, s, m.inode);
        CountsAfterOpen(fs, fd, s, m.inode);
        FilesChange(fs1, fs1.files[fd := File(s, 0, false)]);
      } else {
        OpenThenClose(fs, s, m.inode, m.map1, m.map2);
      }
    }
  }

  lemma FilesChange(fs: State, files': map<nat, File>)
    requires StorageInv(fs)
    ensures StorageInv(fs.(files := files'))
  {
    assert Live(fs.(files := files')) == Live(fs);
  }

  lemma ReopenKeeps(fs: State, fd: nat, fd': nat, m: Memory)
    requires Inv(fs) && fd in fs.files && fd != FREE_MAP_FD && fd' !in fs.files
    ensures var fs' := Reopen(fs, fd, fd', m).1; Inv(fs') && fs'.disk == fs.disk && fs'.used == fs.used
  {
    assert fs.files[fd].sector in Live(fs);
    NewHandleKeeps(fs, fs.files[fd].sector, fd', m);
  }

  lemma DenyKeeps(fs: State, fd: nat, deny: bool)
    requires Inv(fs) && fd in fs.files && fd != FREE_MAP_FD
    ensures Inv(SetDeny(fs, fd, deny))
  {
    var fs' := SetDeny(fs, fd, deny);
    CountsAfterDeny(fs, fd, deny);
    DenyChanges(fs, fd, deny);
    assert forall s | s in fs.inodes :: s in Live(fs);
    TableChange(fs, fs'.inodes);
    FilesChange(fs.(inodes := fs'.inodes), fs'.files);
    assert fs' == fs.(inodes := fs'.inodes).(files := fs'.files);
  }

  /** The state of a file_close before inode_close. */
  function Closing(fs: State, fd: nat): State
    requires fd in fs.files
  {
    var fs1 := SetDeny(fs, fd, false);
    fs1.(files := fs1.files - {fd})
  }

  lemma CloseUnfolds(fs: State, fd: nat, m: Memory)
    requires fd in fs.files
    ensures Close(fs, fd, m) == InodeClose(Closing(fs, fd), fs.files[fd].sector, m.map1, m.map2)
  {
  }

  lemma ClosingTables(fs: State, fd: nat)
    requires CountInv(fs.inodes, fs.files) && fd in fs.files
    ensures var fs1, s := Closing(fs, fd), fs.files[fd].sector;
      && fs1.disk == fs.disk && fs1.used == fs.used && fs1.files == fs.files - {fd}
      && fs1.inodes.Keys == fs.inodes.Keys && s in fs1.inodes
      && fs1.inodes[s].removed == fs.inodes[s].removed && fs1.inodes[s].openCnt == fs.inodes[s].openCnt
  {
    DenyChanges(fs, fd, false);
  }

  lemma ClosingKeeps(fs: State, fd: nat)
    requires Inv(fs) && fd in fs.files && fd != FREE_MAP_FD
    ensures var fs1 := Closing(fs, fd);
      && StorageInv(fs1) && Live(fs1) == Live(fs)
      && fs.files[fd].sector in fs1.inodes && CountInv(Dropped(fs1.inodes, fs.files[fd].sector), fs1.files)
  {
    var fs1 := SetDeny(fs, fd, false);
    DenyKeeps(fs, fd, false);
    DenyChanges(fs, fd, false);
    CountsAfterClose(fs1.inodes, fs1.files, fd);
    FilesChange(fs1, fs1.files - {fd});
    ClosingTables(fs, fd);
  }

  lemma CloseKeeps(fs: State, fd: nat, m: Memory)
    requires Inv(fs) && fd in fs.files && fd != FREE_MAP_FD
    ensures var fs' := Close(fs, fd, m); Inv(fs') && SameFiles(fs.disk, fs'.disk, UserFiles(fs))
  {
    CloseUnfolds(fs, fd, m);
    ClosingKeeps(fs, fd);
    ClosingTables(fs, fd);
    InodeCloseKeepsStorage(Closing(fs, fd), fs.files[fd].sector, m.map1, m.map2);
  }

  lemma RemoveKeeps(fs: State, name: Name, m: Memory)
    requires Inv(fs)
    ensures var fs' := Remove(fs, name, m).1; Inv(fs') && SameFiles(fs.disk, fs'.disk, UserFiles(fs))
  {
    var es := Root(fs.disk);
    var found := FindName(es[..Cut(m.seen, |es|)], name);
    if m.root && found.Some? {
      var s := EntrySector(es[found.value]);
      assert es[found.value] == es[..Cut(m.seen, |es|)][found.value];
      NamedIsLive(fs, found.value);
      var (ok, fs1) := InodeOpen(fs, s, m.inode);
      if ok {
        if m.stored {
          UnlinkKeeps(fs, found.value, m);
        } else {
          OpenThenClose(fs, s, m.inode, m.map1, m.map2);
        }
      }
    }
  }

  /** The state of a removal after the entry is erased and the inode marked. */
  ghost function Unlinked(fs: State, k: nat, memory: bool): State
    requires k < |Root(fs.disk)| && EntrySector(Root(fs.disk)[k]) in InodeOpen(fs, EntrySector(Root(fs.disk)[k]), memory).1.inodes
  {
    var s := EntrySector(Root(fs.disk)[k]);
    Marked(RootErase(InodeOpen(fs, s, memory).1, k), s)
  }

  /** Opening, marking removed and closing again leaves only the mark, if the inode stays open. */
  lemma MarkedOnly(inodes: map<nat, Inode>, after: map<nat, Inode>, s: nat, hdr: Header)
    requires s in inodes ==> inodes[s].openCnt > 0
    requires after == Referenced(inodes, s, hdr)
    ensures Dropped(after[s := after[s].(removed := true)], s)
         == if s in inodes then inodes[s := inodes[s].(removed := true)] else inodes
  {
    var marked := after[s := after[s].(removed := true)];
    if s in inodes {
      assert Dropped(marked, s) == inodes[s := inodes[s].(removed := true)];
    } else {
      assert Dropped(marked, s) == inodes;
    }
  }

  lemma MarkKeepsCounts(inodes: map<nat, Inode>, files: map<nat, File>, s: nat)
    requires CountInv(inodes, files)
    ensures CountInv(if s in inodes then inodes[s := inodes[s].(removed := true)] else inodes, files)
  {
  }

  lemma UnlinkKeeps(fs: State, k: nat, m: Memory)
    requires Inv(fs) && k < |Root(fs.disk)| && InUse(Root(fs.disk)[k])
    requires InodeOpen(fs, EntrySector(Root(fs.disk)[k]), m.inode).0
    ensures var s := EntrySector(Root(fs.disk)[k]);
      var fs' := InodeClose(Unlinked(fs, k, m.inode), s, m.map1, m.map2);
      Inv(fs') && SameFiles(fs.disk, fs'.disk, UserFiles(fs)) && RootBytes(fs'.disk) == RootBytes(Unlinked(fs, k, m.inode).disk)
  {
    var s := EntrySector(Root(fs.disk)[k]);
    NamedIsLive(fs, k);
    UnlinkedStorage(fs, k, m.inode);
    UnlinkedInodes(fs, k, m.inode);
    var fs3 := Unlinked(fs, k, m.inode);
    InodeCloseKeepsStorage(fs3, s, m.map1, m.map2);
    MarkKeepsCounts(fs.inodes, fs.files, s);
    UserFilesThrough(fs.disk, fs3.disk, InodeClose(fs3, s, m.map1, m.map2).disk, Live(fs));
  }

  lemma UnlinkedInodes(fs: State, k: nat, memory: bool)
    requires k < |Root(fs.disk)| && InodeOpen(fs, EntrySector(Root(fs.disk)[k]), memory).0
    requires var s := EntrySector(Root(fs.disk)[k]); s in fs.inodes ==> fs.inodes[s].openCnt > 0
    ensures var s := EntrySector(Root(fs.disk)[k]);
      Dropped(Unlinked(fs, k, memory).inodes, s) == if s in fs.inodes then fs.inodes[s := fs.inodes[s].(removed := true)] else fs.inodes
  {
    var s := EntrySector(Root(fs.disk)[k]);
    MarkedOnly(fs.inodes, InodeOpen(fs, s, memory).1.inodes, s, HeaderOf(fs.disk, s));
  }

  lemma UserFilesThrough(d0: Device, d1: Device, d2: Device, live: set<nat>)
    requires ROOT_DIR_SECTOR in live
    requires SameFiles(d0, d1, live - {ROOT_DIR_SECTOR}) && SameFiles(d1, d2, live - {FREE_MAP_SECTOR})
    ensures SameFiles(d0, d2, live - {FREE_MAP_SECTOR, ROOT_DIR_SECTOR}) && RootBytes(d2) == RootBytes(d1)
  {
    assert ROOT_DIR_SECTOR in live - {FREE_MAP_SECTOR};
  }

  lemma UnlinkedStorage(fs: State, k: nat, memory: bool)
    requires StorageInv(fs) && k < |Root(fs.disk)| && InUse(Root(fs.disk)[k])
    requires InodeOpen(fs, EntrySector(Root(fs.disk)[k]), memory).0
    ensures var s := EntrySector(Root(fs.disk)[k]);
      var fs3 := Unlinked(fs, k, memory);
      && StorageInv(fs3) && fs3.files == fs.files && Live(fs3) == Live(fs)
      && s in fs3.inodes
      && SameFiles(fs.disk, fs3.disk, Live(fs) - {ROOT_DIR_SECTOR})
      && RootBytes(fs3.disk) == PutSlot(RootBytes(fs.disk), k, Erased(Root(fs.disk)[k]))
  {
    var s := EntrySector(Root(fs.disk)[k]);
    NamedIsLive(fs, k);
    InodeOpenKeepsStorage(fs, s, memory);
    EraseAndMark(InodeOpen(fs, s, memory).1, k, s);
  }

  lemma EraseAndMark(fs: State, k: nat, s: nat)
    requires StorageInv(fs) && k < |Root(fs.disk)| && InUse(Root(fs.disk)[k])
    requires s == EntrySector(Root(fs.disk)[k]) && s in fs.inodes && s > ROOT_DIR_SECTOR
    ensures var fs' := Marked(RootErase(fs, k), s);
      && StorageInv(fs') && fs'.files == fs.files && Live(fs') == Live(fs)
      && SameFiles(fs.disk, fs'.disk, Live(fs) - {ROOT_DIR_SECTOR})
      && RootBytes(fs'.disk) == PutSlot(RootBytes(fs.disk), k, Erased(Root(fs.disk)[k]))
  {
    ErasedStorage(fs, k, s);
    MarkRemoved(RootErase(fs, k), s);
  }

  lemma MarkRemoved(fs: State, s: nat)
    requires StorageInv(fs) && s in fs.inodes && s > ROOT_DIR_SECTOR && s !in NamedBy(Root(fs.disk))
    ensures StorageInv(Marked(fs, s)) && Live(Marked(fs, s)) == Live(fs)
  {
    var fs' := Marked(fs, s);
    assert fs'.inodes.Keys == fs.inodes.Keys;
    TableChange(fs, fs'.inodes);
  }

  /** Erasing the entry of an open inode. */
  lemma ErasedStorage(fs: State, k: nat, s: nat)
    requires StorageInv(fs) && k < |Root(fs.disk)| && InUse(Root(fs.disk)[k])
    requires s == EntrySector(Root(fs.disk)[k]) && s in fs.inodes
    ensures var fs' := RootErase(fs, k);
      && StorageInv(fs') && Live(fs') == Live(fs) && s !in NamedBy(Root(fs'.disk))
      && SameFiles(fs.disk, fs'.disk, Live(fs) - {ROOT_DIR_SECTOR})
      && RootBytes(fs'.disk) == PutSlot(RootBytes(fs.disk), k, Erased(Root(fs.disk)[k]))
  {
    RootPutKeeps(fs, k, Erased(Root(fs.disk)[k]), Live(fs));
    RootEraseUnfolds(fs, k);
    var fs' := RootErase(fs, k);
    ErasedFields(Root(fs.disk)[k]);
    PutDistinct(Root(fs.disk), k, Erased(Root(fs.disk)[k]));
    ErasedLive(fs, fs', s);
    SettleStorage(fs, fs');
  }

  lemma RootEraseUnfolds(fs: State, k: nat)
    requires k < |Root(fs.disk)|
    ensures RootErase(fs, k) == fs.(disk := RootPut(fs.disk, k, Erased(Root(fs.disk)[k])))
  {
    var e := Erased(Root(fs.disk)[k]);
    assert e[..20] == e;
  }

  lemma ErasedLive(fs: State, fs': State, s: nat)
    requires s in fs.inodes && fs'.inodes == fs.inodes && NamedBy(Root(fs'.disk)) == NamedBy(Root(fs.disk)) - {s}
    ensures Live(fs') == Live(fs)
  {
  }

  /** The state after a permitted write, in two steps. */
  ghost function Wrote(fs: State, fd: nat, data: seq<Byte>): State
    requires fd in fs.files && fs.files[fd].sector in fs.inodes
  {
    var f := fs.files[fd];
    fs.(disk := Patched(fs.disk, fs.inodes[f.sector].hdr, f.pos, data))
  }

  /** How many bytes a transfer of `size` bytes through handle fd moves. */
  function Reach(fs: State, fd: nat, size: int, bounce: bool): nat
    requires fd in fs.files && fs.files[fd].sector in fs.inodes
  {
    Transferred(size, fs.files[fd].pos, fs.inodes[fs.files[fd].sector].hdr.length, bounce)
  }

  /** Where such a transfer leaves the handle's position. */
  function After(fs: State, fd: nat, size: int, bounce: bool): nat
    requires fd in fs.files && fs.files[fd].sector in fs.inodes
  {
    fs.files[fd].pos + Reach(fs, fd, size, bounce)
  }

  lemma WriteEnds(fs: State, fd: nat, data: seq<Byte>, bounce: bool)
    requires fd in fs.files && fs.files[fd].sector in fs.inodes && fs.inodes[fs.files[fd].sector].denyCnt == 0
    ensures Write(fs, fd, data, bounce).0 == Reach(fs, fd, |data|, bounce)
    ensures Write(fs, fd, data, bounce).1
         == Moved(Wrote(fs, fd, data[..Reach(fs, fd, |data|, bounce)]), fd, After(fs, fd, |data|, bounce))
  {
  }

  function Moved(fs: State, fd: nat, pos: nat): State
    requires fd in fs.files
  {
    fs.(files := fs.files[fd := fs.files[fd].(pos := pos)])
  }

  lemma WriteKeeps(fs: State, fd: nat, data: seq<Byte>, bounce: bool)
    requires Inv(fs) && fd in fs.files && fd != FREE_MAP_FD
    ensures Inv(Write(fs, fd, data, bounce).1)
    ensures SameFiles(fs.disk, Write(fs, fd, data, bounce).1.disk, UserFiles(fs) - {fs.files[fd].sector})
  {
    if fs.inodes[fs.files[fd].sector].denyCnt == 0 {
      WriteStores(fs, fd, data[..Reach(fs, fd, |data|, bounce)]);
      PositionKeeps(Wrote(fs, fd, data[..Reach(fs, fd, |data|, bounce)]), fd, After(fs, fd, |data|, bounce));
      WriteEnds(fs, fd, data, bounce);
    } else {
      WriteDenied(fs, fd, data, bounce);
    }
  }

  lemma WriteDenied(fs: State, fd: nat, data: seq<Byte>, bounce: bool)
    requires fd in fs.files && fs.files[fd].sector in fs.inodes && fs.inodes[fs.files[fd].sector].denyCnt > 0
    ensures Write(fs, fd, data, bounce).0 == 0 && Write(fs, fd, data, bounce).1 == fs
  {
  }

  lemma WriteStores(fs: State, fd: nat, data: seq<Byte>)
    requires Inv(fs) && fd in fs.files && fd != FREE_MAP_FD
    ensures var fs' := Wrote(fs, fd, data);
      Inv(fs') && SameFiles(fs.disk, fs'.disk, UserFiles(fs) - {fs.files[fd].sector})
  {
    var s := fs.files[fd].sector;
    assert s in Live(fs);
    PatchIsLocal(fs.disk, fs.used, Live(fs), s, fs.files[fd].pos, data);
    SettleWrite(fs, Wrote(fs, fd, data), s);
  }

  lemma PositionKeeps(fs: State, fd: nat, pos: nat)
    requires Inv(fs) && fd in fs.files && fd != FREE_MAP_FD
    ensures Inv(Moved(fs, fd, pos))
  {
    FilesChange(fs, fs.files[fd := fs.files[fd].(pos := pos)]);
    PositionKeepsCounts(fs.inodes, fs.files, fd, pos);
  }

  lemma PositionKeepsCounts(inodes: map<nat, Inode>, files: map<nat, File>, fd: nat, pos: nat)
    requires CountInv(inodes, files) && fd in files && fd != FREE_MAP_FD
    ensures CountInv(inodes, files[fd := files[fd].(pos := pos)])
  {
    var files' := files[fd := files[fd].(pos := pos)];
    forall s | s in inodes
      ensures inodes[s].openCnt == |Openers(files', s)| && inodes[s].denyCnt == |Deniers(files', s)|
    {
      OpenersUpdate(files, fd, files'[fd], s);
    }
  }
}
