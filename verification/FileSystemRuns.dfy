/** Every run of the file system: the invariant is kept by each operation, no operation disturbs
    another file, and the counters decide deletion and write permission. */
module FileSystemRuns {
  import opened Disk
  import opened Bitmap
  import opened Geometry
  import opened Directory
  import opened FileSystem
  import opened FileSystemInvariants

  // ----- reference counts and handles

  lemma OpenersAdd(files: map<nat, File>, fd: nat, f: File, s: nat)
    requires fd !in files
    ensures |Openers(files[fd := f], s)| == |Openers(files, s)| + if s == f.sector then 1 else 0
    ensures |Deniers(files[fd := f], s)| == |Deniers(files, s)| + if s == f.sector && f.deny then 1 else 0
  {
    var files' := files[fd := f];
    if s == f.sector {
      assert Openers(files', s) == Openers(files, s) + {fd};
    } else {
      assert Openers(files', s) == Openers(files, s);
    }
    if s == f.sector && f.deny {
      assert Deniers(files', s) == Deniers(files, s) + {fd};
    } else {
      assert Deniers(files', s) == Deniers(files, s);
    }
  }

  lemma OpenersRemove(files: map<nat, File>, fd: nat, s: nat)
    requires fd in files
    ensures |Openers(files - {fd}, s)| == |Openers(files, s)| - if s == files[fd].sector then 1 else 0
    ensures |Deniers(files - {fd}, s)| == |Deniers(files, s)| - if s == files[fd].sector && files[fd].deny then 1 else 0
  {
    var rest := files - {fd};
    assert rest[fd := files[fd]] == files;
    OpenersAdd(rest, fd, files[fd], s);
  }

  /** Replacing a handle by one on the same inode: openers stay, deniers follow the flag. */
  lemma OpenersUpdate(files: map<nat, File>, fd: nat, f: File, s: nat)
    requires fd in files && f.sector == files[fd].sector
    ensures |Openers(files[fd := f], s)| == |Openers(files, s)|
    ensures |Deniers(files[fd := f], s)| == |Deniers(files, s)|
      + (if s == f.sector && f.deny then 1 else 0) - (if s == f.sector && files[fd].deny then 1 else 0)
  {
    OpenersRemove(files, fd, s);
    assert files[fd := f] == (files - {fd})[fd := f];
    OpenersAdd(files - {fd}, fd, f, s);
  }

  lemma NoOpeners(inodes: map<nat, Inode>, files: map<nat, File>, s: nat)
    requires CountInv(inodes, files) && s !in inodes
    ensures Openers(files, s) == {} && Deniers(files, s) == {}
  {
  }

  lemma CountsAfterOpen(fs: State, fd: nat, s: nat, memory: bool)
    requires CountInv(fs.inodes, fs.files) && fd !in fs.files && s > ROOT_DIR_SECTOR
    requires InodeOpen(fs, s, memory).0
    ensures CountInv(InodeOpen(fs, s, memory).1.inodes, fs.files[fd := File(s, 0, false)])
  {
    var inodes, files := InodeOpen(fs, s, memory).1.inodes, fs.files[fd := File(s, 0, false)];
    forall t | t in inodes
      ensures inodes[t].openCnt == |Openers(files, t)| && inodes[t].denyCnt == |Deniers(files, t)|
    {
      OpenersAdd(fs.files, fd, File(s, 0, false), t);
      if s !in fs.inodes { NoOpeners(fs.inodes, fs.files, s); }
    }
  }

  lemma CountsAfterClose(inodes: map<nat, Inode>, files: map<nat, File>, fd: nat)
    requires CountInv(inodes, files) && fd in files && fd != FREE_MAP_FD && !files[fd].deny
    ensures CountInv(Dropped(inodes, files[fd].sector), files - {fd})
  {
    var s, files' := files[fd].sector, files - {fd};
    var inodes' := Dropped(inodes, s);
    OpenersRemove(files, fd, s);
    forall t | t in inodes'
      ensures inodes'[t].openCnt == |Openers(files', t)| && inodes'[t].denyCnt == |Deniers(files', t)|
    {
      OpenersRemove(files, fd, t);
    }
    forall fd' | fd' in files' ensures files'[fd'].sector in inodes' {
      if files'[fd'].sector == s { assert fd' in Openers(files', s); }
    }
  }

  lemma DenyChanges(fs: State, fd: nat, deny: bool)
    requires CountInv(fs.inodes, fs.files) && fd in fs.files
    ensures var fs' := SetDeny(fs, fd, deny);
      && fs'.files == fs.files[fd := fs.files[fd].(deny := deny)]
      && fs'.disk == fs.disk && fs'.used == fs.used && fs'.inodes.Keys == fs.inodes.Keys
      && forall s | s in fs.inodes ::
           && fs'.inodes[s] == fs.inodes[s].(denyCnt := fs'.inodes[s].denyCnt)
           && fs'.inodes[s].denyCnt == fs.inodes[s].denyCnt
                + (if s == fs.files[fd].sector && deny then 1 else 0)
                - (if s == fs.files[fd].sector && fs.files[fd].deny then 1 else 0)
  {
    var f := fs.files[fd];
    if f.deny {
      assert fd in Deniers(fs.files, f.sector);
    }
  }

  lemma CountsAfterDeny(fs: State, fd: nat, deny: bool)
    requires CountInv(fs.inodes, fs.files) && fd in fs.files && fd != FREE_MAP_FD
    ensures CountInv(SetDeny(fs, fd, deny).inodes, SetDeny(fs, fd, deny).files)
  {
    var fs' := SetDeny(fs, fd, deny);
    DenyChanges(fs, fd, deny);
    forall t | t in fs'.inodes
      ensures fs'.inodes[t].openCnt == |Openers(fs'.files, t)| && fs'.inodes[t].denyCnt == |Deniers(fs'.files, t)|
    {
      OpenersUpdate(fs.files, fd, fs.files[fd].(deny := deny), t);
    }
  }

  /** The assertions in inode_deny_write and inode_allow_write never fire. */
  lemma DenyAssertsHold(inodes: map<nat, Inode>, files: map<nat, File>, fd: nat)
    requires CountInv(inodes, files) && fd in files
    ensures var i := inodes[files[fd].sector];
      && i.denyCnt <= i.openCnt
      && (!files[fd].deny ==> i.denyCnt + 1 <= i.openCnt)
      && (files[fd].deny ==> 0 < i.denyCnt)
  {
    var s := files[fd].sector;
    SubsetSize(Deniers(files, s), Openers(files, s));
    if files[fd].deny {
      assert fd in Deniers(files, s);
    } else {
      SubsetSize(Deniers(files, s) + {fd}, Openers(files, s));
    }
  }

  lemma {:induction false} SubsetSize(a: set<nat>, b: set<nat>)
    requires a <= b
    ensures |a| <= |b|
  {
    if a != {} {
      var x :| x in a;
      SubsetSize(a - {x}, b - {x});
    }
  }

  /** Writes are refused exactly while some open file denies them. */
  lemma WritesRefusedIff(inodes: map<nat, Inode>, files: map<nat, File>, s: nat)
    requires CountInv(inodes, files) && s in inodes
    ensures inodes[s].denyCnt > 0 <==> exists fd :: fd in files && files[fd].sector == s && files[fd].deny
  {
    if inodes[s].denyCnt > 0 {
      var fd :| fd in Deniers(files, s);
    }
    if fd :| fd in files && files[fd].sector == s && files[fd].deny {
      assert fd in Deniers(files, s);
    }
  }

  // ----- opening and closing inodes

  /** A change of the inode table alone. */
  lemma TableChange(fs: State, inodes': map<nat, Inode>)
    requires StorageInv(fs) && FREE_MAP_SECTOR in inodes' && ROOT_DIR_SECTOR !in inodes'
    requires forall s | s in inodes' ::
               && s in Live(fs) && inodes'[s].hdr == HeaderOf(fs.disk, s)
               && (inodes'[s].removed ==> s > ROOT_DIR_SECTOR && s !in NamedBy(Root(fs.disk)))
    ensures StorageInv(fs.(inodes := inodes')) && Live(fs.(inodes := inodes')) <= Live(fs)
  {
    var fs' := fs.(inodes := inodes');
    assert Live(fs') <= Live(fs);
    SoundAfterForget(fs.disk, fs.used, Live(fs), Live(fs'));
  }

  lemma ReferenceKeepsStorage(fs: State, s: nat)
    requires StorageInv(fs) && s in Live(fs) && s > ROOT_DIR_SECTOR
    ensures StorageInv(fs.(inodes := Referenced(fs.inodes, s, HeaderOf(fs.disk, s))))
    ensures Live(fs.(inodes := Referenced(fs.inodes, s, HeaderOf(fs.disk, s)))) == Live(fs)
  {
    TableChange(fs, Referenced(fs.inodes, s, HeaderOf(fs.disk, s)));
    SameLive(fs, s, fs.(inodes := Referenced(fs.inodes, s, HeaderOf(fs.disk, s))));
  }

  lemma SameLive(fs: State, s: nat, fs': State)
    requires s in Live(fs) && fs'.disk == fs.disk && fs'.inodes.Keys == fs.inodes.Keys + {s}
    ensures Live(fs') == Live(fs)
  {
  }

  lemma InodeOpenKeepsStorage(fs: State, s: nat, memory: bool)
    requires StorageInv(fs) && s in Live(fs) && s > ROOT_DIR_SECTOR
    ensures StorageInv(InodeOpen(fs, s, memory).1) && Live(InodeOpen(fs, s, memory).1) == Live(fs)
  {
    ReferenceKeepsStorage(fs, s);
  }

  /** A failed open leaves no trace. */
  lemma OpenThenClose(fs: State, s: nat, memory: bool, map1: bool, map2: bool)
    requires InodeOpen(fs, s, memory).0 && (s in fs.inodes ==> fs.inodes[s].openCnt > 0)
    ensures InodeClose(InodeOpen(fs, s, memory).1, s, map1, map2) == fs
  {
    var fs1 := InodeOpen(fs, s, memory).1;
    if s in fs.inodes {
      assert fs1.inodes[s := fs.inodes[s]] == fs.inodes;
    } else {
      assert fs1.inodes - {s} == fs.inodes;
    }
  }

  /** What closing inode s does to the device and the free map. */
  ghost predicate ClosedStorage(fs: State, fs': State, s: nat, freed: bool)
    requires s in fs.inodes
  {
    && StorageInv(fs') && fs'.files == fs.files
    && SameFiles(fs.disk, fs'.disk, Live(fs) - {FREE_MAP_SECTOR}) && SameHeaders(fs.disk, fs'.disk, Live(fs))
    && |fs'.used| == |fs.used|
    && forall x | 0 <= x < |fs.used| :: fs'.used[x] == (fs.used[x] && !(freed && Owns(fs.disk, s, x)))
  }

  /** Dropping a reference: storage stays sound, and the sectors of a removed file are given back
      exactly when its last reference goes. */
  lemma InodeCloseKeepsStorage(fs: State, s: nat, map1: bool, map2: bool)
    requires StorageInv(fs) && s in fs.inodes && s > ROOT_DIR_SECTOR
    ensures var fs' := InodeClose(fs, s, map1, map2);
      && fs'.inodes == Dropped(fs.inodes, s)
      && ClosedStorage(fs, fs', s, fs.inodes[s].removed && fs.inodes[s].openCnt <= 1)
  {
    var i := fs.inodes[s];
    TableChange(fs, Dropped(fs.inodes, s));
    if i.openCnt <= 1 && i.removed {
      GiveBack(fs, s, map1, map2);
    }
  }

  /** Both releases of the last close find every bit set, and together they clear the extent. */
  lemma GiveBack(fs: State, s: nat, map1: bool, map2: bool)
    requires StorageInv(fs) && s in fs.inodes && s > ROOT_DIR_SECTOR && fs.inodes[s].removed
    ensures var h := fs.inodes[s].hdr;
      var fs1 := fs.(inodes := fs.inodes - {s});
      var fs2 := Release(fs1, s, 1, map1);
      var fs3 := Release(fs2, h.start, BytesToSectors(h.length), map2);
      && Run(fs1.used, s, 1, true) && Run(fs2.used, h.start, BytesToSectors(h.length), true)
      && fs3.inodes == fs1.inodes && ClosedStorage(fs, fs3, s, true)
  {
    var h := fs.inodes[s].hdr;
    var fs1 := fs.(inodes := fs.inodes - {s});
    StartGiving(fs, s);
    ExtentMarked(fs.disk, fs.used, Live(fs), s);
    ReleaseOwned(fs1, s, 1, map1, Live(fs), s);
    var fs2 := Release(fs1, s, 1, map1);
    GiveData(fs2, h, map2, Live(fs), s);
    GivenBack(fs, fs1, Release(fs2, h.start, BytesToSectors(h.length), map2), s);
  }

  lemma GiveData(fs: State, h: Header, bounce: bool, live: set<nat>, s: nat)
    requires Giving(fs, live, s) && h == HeaderOf(fs.disk, s) && Run(fs.used, h.start, BytesToSectors(h.length), true)
    ensures var fs' := Release(fs, h.start, BytesToSectors(h.length), bounce);
      && Giving(fs', live, s) && fs'.inodes == fs.inodes && fs'.files == fs.files
      && fs'.used == SetRun(fs.used, h.start, BytesToSectors(h.length), false)
      && SameHeaders(fs.disk, fs'.disk, live) && SameFiles(fs.disk, fs'.disk, live - {FREE_MAP_SECTOR})
  {
    ReleaseOwned(fs, h.start, BytesToSectors(h.length), bounce, live, s);
  }

  lemma StartGiving(fs: State, s: nat)
    requires StorageInv(fs) && s in fs.inodes && s > ROOT_DIR_SECTOR && fs.inodes[s].removed
    ensures Giving(fs.(inodes := fs.inodes - {s}), Live(fs), s) && fs.inodes[s].hdr == HeaderOf(fs.disk, s)
  {
    var live := Live(fs);
    SoundAfterForget(fs.disk, fs.used, live, live - {s});
    assert Owns(fs.disk, s, s);
  }

  lemma ExtentMarked(disk: Device, used: seq<bool>, live: set<nat>, s: nat)
    requires Sound(disk, used, live) && s in live
    ensures var h := HeaderOf(disk, s);
      && Run(used, s, 1, true) && Run(used, h.start, BytesToSectors(h.length), true)
      && Run(SetRun(used, s, 1, false), h.start, BytesToSectors(h.length), true)
  {
    var h := HeaderOf(disk, s);
    assert Owns(disk, s, s);
    forall x | h.start <= x < h.start + BytesToSectors(h.length) ensures used[x] && x != s {
      assert Owns(disk, s, x);
    }
  }

  lemma GivenBack(fs: State, fs1: State, fs3: State, s: nat)
    requires StorageInv(fs) && s in fs.inodes && s > ROOT_DIR_SECTOR && fs.inodes[s].removed
    requires fs1 == fs.(inodes := fs.inodes - {s})
    requires fs3.inodes == fs1.inodes && fs3.files == fs.files && Core(fs3, Live(fs) - {s})
    requires SameHeaders(fs.disk, fs3.disk, Live(fs)) && SameFiles(fs.disk, fs3.disk, Live(fs) - {FREE_MAP_SECTOR})
    requires |fs3.used| == |fs.used|
    requires forall x | 0 <= x < |fs.used| :: fs3.used[x] == (fs.used[x] && !Owns(fs.disk, s, x))
    ensures ClosedStorage(fs, fs3, s, true)
  {
    assert ROOT_DIR_SECTOR in Live(fs) - {FREE_MAP_SECTOR};
    assert Root(fs3.disk) == Root(fs.disk);
    LiveWithout(fs, fs3, s);
    assert forall t | t in fs3.inodes :: t in Live(fs);
  }

  lemma LiveWithout(fs: State, fs': State, s: nat)
    requires s in fs.inodes && s > ROOT_DIR_SECTOR && fs'.inodes == fs.inodes - {s}
    requires Root(fs'.disk) == Root(fs.disk) && s !in NamedBy(Root(fs.disk))
    ensures Live(fs') == Live(fs) - {s}
  {
  }

  /** An intermediate state in which the extent of s is being given back. */
  ghost predicate Giving(fs: State, live: set<nat>, s: nat)
  {
    && Core(fs, live - {s}) && s in live && s > ROOT_DIR_SECTOR
    && s < |fs.disk| && Fits(fs.disk, HeaderOf(fs.disk, s)) && !InData(HeaderOf(fs.disk, s), s)
    && (forall x | Owns(fs.disk, s, x) :: x < |fs.used|)
    && forall t, x | t in live && t != s && Owns(fs.disk, t, x) :: !Owns(fs.disk, s, x)
  }

  /** Saving the free map leaves a file alone whose extent the free map file does not meet. */
  lemma SaveLeaves(fs: State, bounce: bool, s: nat)
    requires s < |fs.disk| && Fits(fs.disk, HeaderOf(fs.disk, s)) && Fits(fs.disk, FreeMapHeader(fs))
    requires forall x | Owns(fs.disk, s, x) :: !InData(FreeMapHeader(fs), x)
    ensures SameHeaders(fs.disk, SaveBitmap(fs, bounce).1.disk, {s})
    ensures SameFiles(fs.disk, SaveBitmap(fs, bounce).1.disk, {s})
  {
    assert Owns(fs.disk, s, s);
    assert forall x | InData(HeaderOf(fs.disk, s), x) :: Owns(fs.disk, s, x);
    PatchedOther(fs.disk, FreeMapHeader(fs), 0,
      BitmapBytes(fs.used)[..Transferred(|BitmapBytes(fs.used)|, 0, FreeMapHeader(fs).length, bounce)], HeaderOf(fs.disk, s));
  }

  /** Releasing sectors of s keeps the rest of the live set sound, and even the bytes of s. */
  lemma ReleaseOwned(fs: State, start: nat, cnt: nat, bounce: bool, live: set<nat>, s: nat)
    requires Giving(fs, live, s) && Run(fs.used, start, cnt, true)
    requires forall x | start <= x < start + cnt :: Owns(fs.disk, s, x)
    ensures var fs' := Release(fs, start, cnt, bounce);
      && Giving(fs', live, s) && fs'.inodes == fs.inodes && fs'.files == fs.files
      && fs'.used == SetRun(fs.used, start, cnt, false)
      && SameHeaders(fs.disk, fs'.disk, live) && SameFiles(fs.disk, fs'.disk, live - {FREE_MAP_SECTOR})
  {
    ReleaseKeeps(fs, start, cnt, bounce, live - {s});
    assert forall x | InData(FreeMapHeader(fs), x) :: Owns(fs.disk, FREE_MAP_SECTOR, x);
    SaveLeaves(fs.(used := SetRun(fs.used, start, cnt, false)), bounce, s);
    SameOwners(fs.disk, Release(fs, start, cnt, bounce).disk, live);
  }
}
