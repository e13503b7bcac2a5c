/** The file system as a state machine: the operations of filesys.c, free-map.c, inode.c and
    file.c as functions of the state (Project2/src/filesys).  Failures to allocate memory are
    explicit arguments; the functions are total, and a failed ASSERT leaves the state alone. */
module FileSystem {
  import opened Disk
  import opened Bitmap
  import opened Geometry
  import opened Directory

  const FREE_MAP_SECTOR: nat := 0
  const ROOT_DIR_SECTOR: nat := 1
  /** The handle through which the kernel keeps the free map file open. */
  const FREE_MAP_FD: nat := 0

  datatype Inode = Inode(openCnt: nat, removed: bool, denyCnt: nat, hdr: Header)
  datatype File = File(sector: nat, pos: nat, deny: bool)

  /** Device contents, free map, open inodes by sector, open files by handle. */
  datatype State = State(disk: Device, used: seq<bool>, inodes: map<nat, Inode>, files: map<nat, File>)

  /** Which allocations one operation gets: the inode and handle structures, the bounce buffers
      of its successive free-map writes, and the directory scans (entries read before a read
      fails) and entry write, with the bytes its entry buffer held. */
  datatype Memory = Memory(root: bool, inode: bool, handle: bool, header: bool,
                           map1: bool, map2: bool, map3: bool,
                           seen: nat, tried: nat, stored: bool, stale: Entry)

  // ----- what the state means

  ghost function RootBytes(disk: Device): seq<Byte>
  {
    Content(disk, HeaderOf(disk, ROOT_DIR_SECTOR))
  }

  ghost function Root(disk: Device): seq<Entry>
  {
    Entries(RootBytes(disk))
  }

  ghost function NamedBy(es: seq<Entry>): set<nat>
  {
    set e | e in es && InUse(e) :: EntrySector(e)
  }

  ghost function Live(fs: State): set<nat>
  {
    {FREE_MAP_SECTOR, ROOT_DIR_SECTOR} + fs.inodes.Keys + NamedBy(Root(fs.disk))
  }

  ghost predicate DistinctSectors(es: seq<Entry>)
  {
    && (forall i, j | 0 <= i < j < |es| && InUse(es[i]) && InUse(es[j]) :: EntrySector(es[i]) != EntrySector(es[j]))
    && forall i | 0 <= i < |es| && InUse(es[i]) :: EntrySector(es[i]) > ROOT_DIR_SECTOR
  }

  ghost function Openers(files: map<nat, File>, s: nat): set<nat>
  {
    set fd | fd in files && files[fd].sector == s
  }

  ghost function Deniers(files: map<nat, File>, s: nat): set<nat>
  {
    set fd | fd in files && files[fd].sector == s && files[fd].deny
  }

  /** Sector ownership, cached headers, directory and deletion state. */
  ghost predicate StorageInv(fs: State)
  {
    && Sound(fs.disk, fs.used, Live(fs))
    && DistinctSectors(Root(fs.disk))
    && FREE_MAP_SECTOR in fs.inodes && ROOT_DIR_SECTOR !in fs.inodes
    && (forall s | s in fs.inodes :: fs.inodes[s].hdr == HeaderOf(fs.disk, s))
    && (forall s | s in fs.inodes && fs.inodes[s].removed :: s > ROOT_DIR_SECTOR && s !in NamedBy(Root(fs.disk)))
  }

  /** Reference counts agree with the handles that exist. */
  ghost predicate CountInv(inodes: map<nat, Inode>, files: map<nat, File>)
  {
    && FREE_MAP_FD in files && files[FREE_MAP_FD].sector == FREE_MAP_SECTOR && !files[FREE_MAP_FD].deny
    && (forall fd | fd in files && fd != FREE_MAP_FD :: files[fd].sector > ROOT_DIR_SECTOR)
    && (forall fd | fd in files :: files[fd].sector in inodes)
    && (forall s | s in inodes :: inodes[s].openCnt > 0)
    && (forall s {:trigger Openers(files, s)} {:trigger Deniers(files, s)} | s in inodes ::
          inodes[s].openCnt == |Openers(files, s)| && inodes[s].denyCnt == |Deniers(files, s)|)
  }

  ghost predicate Inv(fs: State)
  {
    StorageInv(fs) && CountInv(fs.inodes, fs.files)
  }

  /** The listed inodes have the same headers and the same bytes in both devices. */
  ghost predicate SameFiles(disk: Device, disk': Device, live: set<nat>)
  {
    forall s | s in live :: HeaderOf(disk', s) == HeaderOf(disk, s)
                            && Content(disk', HeaderOf(disk', s)) == Content(disk, HeaderOf(disk, s))
  }

  // ----- the free map

  function Bit(used: seq<bool>, i: nat): nat { if i < |used| && used[i] then 1 else 0 }

  function BitmapByte(used: seq<bool>, k: nat): Byte
  {
    Bit(used, 8 * k) + 2 * Bit(used, 8 * k + 1) + 4 * Bit(used, 8 * k + 2) + 8 * Bit(used, 8 * k + 3)
    + 16 * Bit(used, 8 * k + 4) + 32 * Bit(used, 8 * k + 5) + 64 * Bit(used, 8 * k + 6) + 128 * Bit(used, 8 * k + 7)
  }

  /** The bitmap as bitmap_write stores it: least significant bit first, whole 32-bit words. */
  function BitmapBytes(used: seq<bool>): seq<Byte>
  {
    seq((|used| + 31) / 32 * 4, k requires 0 <= k => BitmapByte(used, k))
  }

  function FreeMapHeader(fs: State): Header
  {
    if FREE_MAP_SECTOR in fs.inodes then fs.inodes[FREE_MAP_SECTOR].hdr else Header(0, 0)
  }

  /** bitmap_write to the free map file: a write at offset 0 that may stop short. */
  ghost function SaveBitmap(fs: State, bounce: bool): (bool, State)
  {
    var bytes, h := BitmapBytes(fs.used), FreeMapHeader(fs);
    var n := Transferred(|bytes|, 0, h.length, bounce);
    (n == |bytes|, fs.(disk := Patched(fs.disk, h, 0, bytes[..n])))
  }

  ghost function Allocate(fs: State, cnt: nat, bounce: bool): (Option<nat>, State)
  {
    var at := FirstClear(fs.used, cnt);
    if at.None? then (None, fs)
    else
      var (ok, marked) := SaveBitmap(fs.(used := SetRun(fs.used, at.value, cnt, true)), bounce);
      if ok then (at, marked) else (None, marked.(used := fs.used))
  }

  ghost function Release(fs: State, start: nat, cnt: nat, bounce: bool): State
  {
    if Run(fs.used, start, cnt, true) then SaveBitmap(fs.(used := SetRun(fs.used, start, cnt, false)), bounce).1
    else fs
  }

  // ----- inodes

  /** The header first, then zeros over every data sector. */
  ghost function Formatted(disk: Device, sector: nat, h: Header): (d: Device)
    ensures |d| == |disk|
    ensures forall x | 0 <= x < |disk| ::
              d[x] == if InData(h, x) then ZeroSector() else if x == sector then EncodeHeader(h) else disk[x]
  {
    seq(|disk|, x requires 0 <= x < |disk| =>
      if InData(h, x) then ZeroSector() else if x == sector then EncodeHeader(h) else disk[x])
  }

  ghost function InodeCreate(fs: State, sector: nat, length: nat, header: bool, bounce: bool): (bool, State)
  {
    if !header then (false, fs)
    else
      var (at, fs1) := Allocate(fs, BytesToSectors(length), bounce);
      if at.None? then (false, fs1)
      else (true, fs1.(disk := Formatted(fs1.disk, sector, Header(at.value, length))))
  }

  /** The inode table after one more reference to s. */
  function Referenced(inodes: map<nat, Inode>, s: nat, hdr: Header): map<nat, Inode>
  {
    inodes[s := if s in inodes then inodes[s].(openCnt := inodes[s].openCnt + 1) else Inode(1, false, 0, hdr)]
  }

  function InodeOpen(fs: State, s: nat, memory: bool): (bool, State)
  {
    if s in fs.inodes || memory then (true, fs.(inodes := Referenced(fs.inodes, s, HeaderOf(fs.disk, s))))
    else (false, fs)
  }

  /** The inode table after one reference to s was dropped. */
  function Dropped(inodes: map<nat, Inode>, s: nat): map<nat, Inode>
    requires s in inodes
  {
    if inodes[s].openCnt > 1 then inodes[s := inodes[s].(openCnt := inodes[s].openCnt - 1)] else inodes - {s}
  }

  ghost function InodeClose(fs: State, s: nat, map1: bool, map2: bool): State
  {
    if s !in fs.inodes then fs
    else
      var i := fs.inodes[s];
      var fs1 := fs.(inodes := Dropped(fs.inodes, s));
      if i.openCnt > 1 || !i.removed then fs1
      else Release(Release(fs1, s, 1, map1), i.hdr.start, BytesToSectors(i.hdr.length), map2)
  }

  // ----- the root directory

  function Cut(n: nat, limit: nat): nat { if n < limit then n else limit }

  /** dir_add on the root directory. */
  ghost function RootAdd(fs: State, name: Name, sector: nat, m: Memory): (bool, State)
  {
    var es := Root(fs.disk);
    if !ValidName(name) || FindName(es[..Cut(m.seen, |es|)], name).Some? || !m.stored then (false, fs)
    else
      var k := FindFree(es[..Cut(m.tried, |es|)]);
      var n := if k < |es| then 20 else |RootBytes(fs.disk)| % 20;
      (k < |es|,
       fs.(disk := Patched(fs.disk, HeaderOf(fs.disk, ROOT_DIR_SECTOR), 20 * k, NewEntry(m.stale, name, sector)[..n])))
  }

  /** dir_remove's erase of entry k of the root directory. */
  ghost function RootErase(fs: State, k: nat): State
    requires k < |Root(fs.disk)|
  {
    fs.(disk := Patched(fs.disk, HeaderOf(fs.disk, ROOT_DIR_SECTOR), 20 * k, Erased(Root(fs.disk)[k])))
  }

  // ----- operations

  ghost function Create(fs: State, name: Name, length: nat, m: Memory): (bool, State)
  {
    if !m.root then (false, fs) else CreateIn(fs, name, length, m)
  }

  /** filesys_create with the root directory open. */
  ghost function CreateIn(fs: State, name: Name, length: nat, m: Memory): (bool, State)
  {
    var (at, fs1) := Allocate(fs, 1, m.map1);
    if at.None? then (false, fs1) else CreateAt(fs1, at.value, name, length, m)
  }

  /** The rest of filesys_create once a header sector is allocated. */
  ghost function CreateAt(fs: State, s: nat, name: Name, length: nat, m: Memory): (bool, State)
  {
    var (made, fs1) := InodeCreate(fs, s, length, m.header, m.map2);
    if !made then (false, Release(fs1, s, 1, m.map3)) else LinkAt(fs1, s, name, m)
  }

  /** The rest of filesys_create once the inode exists on disk. */
  ghost function LinkAt(fs: State, s: nat, name: Name, m: Memory): (bool, State)
  {
    var (added, fs1) := RootAdd(fs, name, s, m);
    if !added then (false, Release(fs1, s, 1, m.map3)) else (true, fs1)
  }

  /** dir_lookup on the root directory: the sector of the inode it opened, if any. */
  ghost function LookupOpen(fs: State, name: Name, m: Memory): (Option<nat>, State)
  {
    var es := Root(fs.disk);
    var found := FindName(es[..Cut(m.seen, |es|)], name);
    if found.None? then (None, fs)
    else
      var (ok, fs1) := InodeOpen(fs, EntrySector(es[found.value]), m.inode);
      if ok then (Some(EntrySector(es[found.value])), fs1) else (None, fs)
  }

  ghost function Open(fs: State, name: Name, fd: nat, m: Memory): (bool, State)
  {
    if !m.root then (false, fs)
    else
      var (s, fs1) := LookupOpen(fs, name, m);
      if s.None? then (false, fs) else Wrap(fs1, s.value, fd, m)
  }

  /** file_open of an inode just opened. */
  ghost function Wrap(fs: State, s: nat, fd: nat, m: Memory): (bool, State)
  {
    if m.handle then (true, fs.(files := fs.files[fd := File(s, 0, false)]))
    else (false, InodeClose(fs, s, m.map1, m.map2))
  }

  /** file_reopen: a second handle on the same inode. */
  ghost function Reopen(fs: State, fd: nat, fd': nat, m: Memory): (bool, State)
    requires fd in fs.files
  {
    var s := fs.files[fd].sector;
    var (ok, fs1) := InodeOpen(fs, s, m.inode);
    if !ok then (false, fs) else Wrap(fs1, s, fd', m)
  }

  function SetDeny(fs: State, fd: nat, deny: bool): State
    requires fd in fs.files
  {
    var f := fs.files[fd];
    if f.deny == deny || f.sector !in fs.inodes then fs
    else
      var i := fs.inodes[f.sector];
      if !deny && i.denyCnt == 0 then fs
      else
        fs.(files := fs.files[fd := f.(deny := deny)],
            inodes := fs.inodes[f.sector := i.(denyCnt := if deny then i.denyCnt + 1 else i.denyCnt - 1)])
  }

  ghost function Close(fs: State, fd: nat, m: Memory): State
    requires fd in fs.files
  {
    var fs1 := SetDeny(fs, fd, false);
    InodeClose(fs1.(files := fs1.files - {fd}), fs.files[fd].sector, m.map1, m.map2)
  }

  ghost function Remove(fs: State, name: Name, m: Memory): (bool, State)
  {
    if !m.root then (false, fs) else RemoveIn(fs, name, m)
  }

  /** dir_remove on the root directory. */
  ghost function RemoveIn(fs: State, name: Name, m: Memory): (bool, State)
  {
    var es := Root(fs.disk);
    var found := FindName(es[..Cut(m.seen, |es|)], name);
    if found.None? then (false, fs)
    else
      var s := EntrySector(es[found.value]);
      var (ok, fs1) := InodeOpen(fs, s, m.inode);
      if !ok then (false, fs)
      else if !m.stored || s !in fs1.inodes then (false, InodeClose(fs1, s, m.map1, m.map2))
      else (true, InodeClose(Marked(RootErase(fs1, found.value), s), s, m.map1, m.map2))
  }

  function Marked(fs: State, s: nat): State
  {
    if s in fs.inodes then fs.(inodes := fs.inodes[s := fs.inodes[s].(removed := true)]) else fs
  }

  /** file_write: the number of bytes written and the new state. */
  ghost function Write(fs: State, fd: nat, data: seq<Byte>, bounce: bool): (nat, State)
    requires fd in fs.files
  {
    var f := fs.files[fd];
    if f.sector !in fs.inodes || fs.inodes[f.sector].denyCnt > 0 then (0, fs)
    else
      var h := fs.inodes[f.sector].hdr;
      var n := Transferred(|data|, f.pos, h.length, bounce);
      (n, fs.(disk := Patched(fs.disk, h, f.pos, data[..n]), files := fs.files[fd := f.(pos := f.pos + n)]))
  }

  /** file_read: the bytes read and the new state. */
  ghost function Read(fs: State, fd: nat, size: int, bounce: bool): (seq<Byte>, State)
    requires fd in fs.files
  {
    var f := fs.files[fd];
    if f.sector !in fs.inodes then ([], fs)
    else
      var h := fs.inodes[f.sector].hdr;
      var n := Transferred(size, f.pos, h.length, bounce);
      var c := Content(fs.disk, h);
      (if f.pos <= |c| then c[f.pos..f.pos + n] else [], fs.(files := fs.files[fd := f.(pos := f.pos + n)]))
  }
}
