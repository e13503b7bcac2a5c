/** The file system as it is written: a device, a free map and a list of shared open inodes that
    the operations update in place.  Every method is proved against its function in FileSystem. */
module FileSystemCode {
  import opened Disk
  import opened Bitmap
  import opened Geometry
  import opened Directory
  import FS = FileSystem

  class InodeObject {
    const sector: nat
    const hdr: Header
    var openCnt: nat
    var removed: bool
    var denyCnt: nat

    constructor (sector: nat, hdr: Header)
      ensures this.sector == sector && this.hdr == hdr && openCnt == 1 && !removed && denyCnt == 0
    {
      this.sector, this.hdr := sector, hdr;
      openCnt, removed, denyCnt := 1, false, 0;
    }

    function Value(): FS.Inode
      reads this
    {
      FS.Inode(openCnt, removed, denyCnt, hdr)
    }
  }

  class Kernel {
    var disk: Device
    var used: seq<bool>
    var openInodes: seq<InodeObject>
    /** The inode behind free_map_file. */
    const freeMapInode: InodeObject
    /** The open-inode list as a table by sector, and the open files by handle. */
    ghost var table: map<nat, FS.Inode>
    ghost var files: map<nat, FS.File>

    /** At most one open inode per sector, each with a reference; the free map file is open. */
    ghost predicate Valid()
      reads this`openInodes, this`table, openInodes
    {
      && Distinct(openInodes)
      && table.Keys == Sectors(openInodes)
      && (forall o | o in openInodes :: o.openCnt > 0 && o.sector in table && table[o.sector] == o.Value())
      && freeMapInode in openInodes && freeMapInode.sector == FS.FREE_MAP_SECTOR && freeMapInode.denyCnt == 0
    }

    ghost function Abs(): FS.State
      reads this
    {
      FS.State(disk, used, table, files)
    }

    /** Mounting a formatted device whose free map file holds `used`. */
    constructor (disk: Device, used: seq<bool>)
      ensures Valid() && fresh(openInodes)
      ensures Abs() == FS.State(disk, used, map[FS.FREE_MAP_SECTOR := FS.Inode(1, false, 0, HeaderOf(disk, FS.FREE_MAP_SECTOR))],
                                map[FS.FREE_MAP_FD := FS.File(FS.FREE_MAP_SECTOR, 0, false)])
    {
      var inode := new InodeObject(FS.FREE_MAP_SECTOR, HeaderOf(disk, FS.FREE_MAP_SECTOR));
      this.disk, this.used, freeMapInode := disk, used, inode;
      openInodes := [inode];
      table := map[FS.FREE_MAP_SECTOR := FS.Inode(1, false, 0, HeaderOf(disk, FS.FREE_MAP_SECTOR))];
      files := map[FS.FREE_MAP_FD := FS.File(FS.FREE_MAP_SECTOR, 0, false)];
    }

    // ----- inode_read_at and inode_write_at

    /** Reads from the inode into a buffer, sector by sector, through a bounce buffer unless a
        whole sector is wanted. */
    method InodeReadAt(inode: InodeObject, size0: int, offset0: nat, bounceMemory: bool) returns (buffer: seq<Byte>)
      requires Fits(disk, inode.hdr)
      ensures |buffer| == Transferred(size0, offset0, inode.hdr.length, bounceMemory)
      ensures buffer == [] || (offset0 + |buffer| <= inode.hdr.length
                               && buffer == Content(disk, inode.hdr)[offset0..offset0 + |buffer|])
    {
      ghost var c := Content(disk, inode.hdr);
      buffer := [];
      var size, offset := size0, offset0;
      var bounce := false;
      while size > 0
        invariant offset == offset0 + |buffer| && size == size0 - |buffer|
        invariant if offset <= |c| then buffer == c[offset0..offset] else buffer == []
        invariant bounce ==> bounceMemory
        invariant Transferred(size0, offset0, inode.hdr.length, bounceMemory)
               == |buffer| + Transferred(size, offset, inode.hdr.length, bounceMemory)
      {
        var sector_idx := inode.hdr.start + offset / SECTOR_SIZE;
        var sector_ofs := offset % SECTOR_SIZE;
        var inode_left := inode.hdr.length - offset;
        var sector_left := SECTOR_SIZE - sector_ofs;
        var chunk_size := Least(size, Least(inode_left, sector_left));
        if chunk_size <= 0 {
          break;
        }
        var rest, next := size - chunk_size, offset + chunk_size;
        ChunkOf(size, offset, inode.hdr.length, bounceMemory, chunk_size, rest, next);
        var chunk: seq<Byte>;
        if sector_ofs == 0 && chunk_size == SECTOR_SIZE {
          chunk := disk[sector_idx];
        } else {
          if !bounce {
            bounce := bounceMemory;
            if !bounce {
              break;
            }
          }
          chunk := disk[sector_idx][sector_ofs..sector_ofs + chunk_size];
        }
        ChunkIsContent(disk, inode.hdr, offset, chunk, next);
        buffer := buffer + chunk;
        size, offset := rest, next;
      }
    }

    /** Writes data through to the device, reading a sector first when part of it stays. */
    method InodeWriteAt(inode: InodeObject, data: seq<Byte>, offset0: nat, bounceMemory: bool) returns (written: nat)
      requires Fits(disk, inode.hdr)
      modifies this`disk
      ensures written == if inode.denyCnt > 0 then 0 else Transferred(|data|, offset0, inode.hdr.length, bounceMemory)
      ensures disk == Patched(old(disk), inode.hdr, offset0, data[..written])
    {
      written := 0;
      PatchNothing(disk, inode.hdr, offset0);
      if inode.denyCnt > 0 {
        return;
      }
      ghost var disk0, done := disk, data[..written];
      var size, offset := |data|, offset0;
      var bounce := false;
      while size > 0
        invariant offset == offset0 + written && 0 <= size == |data| - written
        invariant written == 0 || offset <= inode.hdr.length
        invariant Fits(disk0, inode.hdr) && done == data[..written]
        invariant disk == Patched(disk0, inode.hdr, offset0, done)
        invariant bounce ==> bounceMemory
        invariant Transferred(|data|, offset0, inode.hdr.length, bounceMemory)
               == written + Transferred(size, offset, inode.hdr.length, bounceMemory)
      {
        var sector_ofs := offset % SECTOR_SIZE;
        var inode_left := inode.hdr.length - offset;
        var sector_left := SECTOR_SIZE - sector_ofs;
        var chunk_size := Least(size, Least(inode_left, sector_left));
        if chunk_size <= 0 {
          break;
        }
        var rest, next := size - chunk_size, offset + chunk_size;
        ChunkOf(size, offset, inode.hdr.length, bounceMemory, chunk_size, rest, next);
        if !(sector_ofs == 0 && chunk_size == SECTOR_SIZE) && !bounce {
          bounce := bounceMemory;
          if !bounce {
            break;
          }
        }
        var chunk := data[written..written + chunk_size];
        WriteChunk(inode.hdr, offset, chunk, disk0, offset0, done);
        assert done + chunk == data[..written + chunk_size];
        done := done + chunk;
        size, offset, written := rest, next, written + chunk_size;
      }
    }

    /** One round: a whole sector is written directly, part of one through the bounce buffer. */
    method WriteChunk(h: Header, offset: nat, chunk: seq<Byte>, ghost disk0: Device, ghost offset0: nat, ghost done: seq<Byte>)
      requires Fits(disk0, h) && disk == Patched(disk0, h, offset0, done) && offset == offset0 + |done|
      requires |chunk| > 0 && offset + |chunk| <= h.length && offset % SECTOR_SIZE + |chunk| <= SECTOR_SIZE
      modifies this`disk
      ensures disk == Patched(disk0, h, offset0, done + chunk)
    {
      var sector_idx := h.start + offset / SECTOR_SIZE;
      var sector_ofs := offset % SECTOR_SIZE;
      var sector: Sector;
      if sector_ofs == 0 && |chunk| == SECTOR_SIZE {
        sector := chunk;
      } else {
        sector := BounceSector(disk[sector_idx], sector_ofs, chunk);
      }
      PatchedStep(disk0, h, offset0, done, chunk, sector_idx, sector_ofs, sector);
      disk := disk[sector_idx := sector];
    }

    // ----- free-map.c

    method SaveBitmap(bounce: bool) returns (ok: bool)
      requires Valid() && Fits(disk, freeMapInode.hdr)
      modifies this`disk
      ensures Abs() == FS.SaveBitmap(old(Abs()), bounce).1
      ensures ok == FS.SaveBitmap(old(Abs()), bounce).0
    {
      var bytes := FS.BitmapBytes(used);
      var written := InodeWriteAt(freeMapInode, bytes, 0, bounce);
      ok := written == |bytes|;
    }

    method FreeMapAllocate(cnt: nat, bounce: bool) returns (sector: Option<nat>)
      requires Valid() && Fits(disk, freeMapInode.hdr)
      modifies this`disk, this`used
      ensures Abs() == FS.Allocate(old(Abs()), cnt, bounce).1
      ensures sector == FS.Allocate(old(Abs()), cnt, bounce).0
    {
      sector, used := ScanAndFlip(used, cnt);
      if sector.Some? {
        var ok := SaveBitmap(bounce);
        if !ok {
          used := SetRun(used, sector.value, cnt, false);
          assert used == old(used);
          sector := None;
        }
      }
    }

    /** The precondition is the assertion in free_map_release. */
    method FreeMapRelease(sector: nat, cnt: nat, bounce: bool)
      requires Valid() && Fits(disk, freeMapInode.hdr)
      requires Run(used, sector, cnt, true)
      modifies this`disk, this`used
      ensures Abs() == FS.Release(old(Abs()), sector, cnt, bounce)
    {
      used := SetRun(used, sector, cnt, false);
      var _ := SaveBitmap(bounce);
    }

    // ----- inode.c

    method InodeCreate(sector: nat, length: nat, header: bool, bounce: bool) returns (success: bool)
      requires Valid() && Fits(disk, freeMapInode.hdr) && |used| == |disk| && sector < |disk| && used[sector]
      modifies this`disk, this`used
      ensures Abs() == FS.InodeCreate(old(Abs()), sector, length, header, bounce).1
      ensures success == FS.InodeCreate(old(Abs()), sector, length, header, bounce).0
    {
      success := false;
      if header {
        var at := FreeMapAllocate(BytesToSectors(length), bounce);
        if at.Some? {
          WriteNewInode(sector, Header(at.value, length));
          success := true;
        }
      }
    }

    /** The header, then zeros over the data sectors one by one. */
    method WriteNewInode(sector: nat, h: Header)
      requires sector < |disk| && Fits(disk, h) && !InData(h, sector)
      modifies this`disk
      ensures disk == FS.Formatted(old(disk), sector, h)
    {
      disk := disk[sector := EncodeHeader(h)];
      var i := h.start;
      while i < h.start + BytesToSectors(h.length)
        invariant h.start <= i <= h.start + BytesToSectors(h.length) && |disk| == old(|disk|)
        invariant forall x | 0 <= x < |disk| ::
          disk[x] == if h.start <= x < i then ZeroSector() else if x == sector then EncodeHeader(h) else old(disk[x])
      {
        disk := disk[i := ZeroSector()];
        i := i + 1;
      }
    }

    /** The open-inode list is searched first, so an inode opened twice is the same object. */
    method InodeOpen(sector: nat, memory: bool) returns (inode: InodeObject?)
      requires Valid()
      modifies this`openInodes, this`table, openInodes
      ensures Valid() && Abs() == FS.InodeOpen(old(Abs()), sector, memory).1
      ensures inode != null <==> FS.InodeOpen(old(Abs()), sector, memory).0
      ensures inode != null ==> inode in openInodes && inode.sector == sector
      ensures openInodes == old(openInodes) || (inode != null && fresh(inode) && openInodes == [inode] + old(openInodes))
    {
      inode := FindOpen(sector);
      if inode != null {
        InodeReopen(inode);
      } else if memory {
        inode := new InodeObject(sector, HeaderOf(disk, sector));
        ListPushFront(inode);
      }
    }

    /** The search through the open-inode list. */
    method FindOpen(sector: nat) returns (inode: InodeObject?)
      requires Valid()
      ensures inode != null ==> inode in openInodes && inode.sector == sector
      ensures inode == null ==> sector !in Sectors(openInodes)
    {
      var i := 0;
      while i < |openInodes|
        invariant 0 <= i <= |openInodes|
        invariant forall j | 0 <= j < i :: openInodes[j].sector != sector
      {
        if openInodes[i].sector == sector {
          return openInodes[i];
        }
        i := i + 1;
      }
      inode := null;
    }

    method ListPushFront(inode: InodeObject)
      requires Valid() && inode.sector !in Sectors(openInodes) && inode.Value() == FS.Inode(1, false, 0, HeaderOf(disk, inode.sector))
      modifies this`openInodes, this`table
      ensures Valid() && openInodes == [inode] + old(openInodes)
      ensures table == FS.Referenced(old(table), inode.sector, HeaderOf(disk, inode.sector)) && inode.sector !in old(table)
    {
      table := FS.Referenced(table, inode.sector, HeaderOf(disk, inode.sector));
      SectorsPush(inode, openInodes);
      openInodes := [inode] + openInodes;
    }

    /** Drops a reference; the last one takes the inode off the list and, if it was removed, gives
        its sectors back.  The preconditions are the assertions in free_map_release. */
    method InodeClose(inode: InodeObject, map1: bool, map2: bool)
      requires Valid() && Fits(disk, freeMapInode.hdr) && inode in openInodes && inode != freeMapInode
      requires inode.openCnt == 1 && inode.removed ==> Marked(inode.sector, inode.hdr)
      modifies this`disk, this`used, this`openInodes, this`table, inode
      ensures Valid() && Abs() == FS.InodeClose(old(Abs()), inode.sector, map1, map2)
      ensures forall o :: o in openInodes <==> o in old(openInodes) && (o != inode || old(inode.openCnt) > 1)
    {
      ghost var fs, i := Abs(), inode.Value();
      var last := DropReference(inode);
      CloseUnfolds(fs, inode.sector, i, map1, map2);
      assert Abs() == fs.(inodes := FS.Dropped(fs.inodes, inode.sector));
      if last && inode.removed {
        ReleaseSectors(inode.sector, inode.hdr, map1, map2);
      }
    }

    method DropReference(inode: InodeObject) returns (last: bool)
      requires Valid() && inode in openInodes && inode != freeMapInode
      modifies this`openInodes, this`table, inode`openCnt
      ensures Valid() && table == FS.Dropped(old(table), inode.sector) && last == (old(inode.openCnt) == 1)
      ensures old(table)[inode.sector] == old(inode.Value())
      ensures forall o :: o in openInodes <==> o in old(openInodes) && (o != inode || !last)
    {
      inode.openCnt := inode.openCnt - 1;
      last := inode.openCnt == 0;
      if last {
        ListRemove(inode);
      } else {
        Refresh(inode);
      }
    }

    /** The invariant, but for the table entry of one inode. */
    ghost predicate ValidBut(inode: InodeObject)
      reads this`openInodes, this`table, openInodes
    {
      && inode in openInodes && Distinct(openInodes) && table.Keys == Sectors(openInodes)
      && (forall o | o in openInodes && o != inode :: o.openCnt > 0 && o.sector in table && table[o.sector] == o.Value())
      && freeMapInode in openInodes && freeMapInode.sector == FS.FREE_MAP_SECTOR && freeMapInode.denyCnt == 0
    }

    /** Brings the table entry of an inode up to date. */
    ghost method Refresh(inode: InodeObject)
      requires ValidBut(inode) && inode.openCnt > 0
      modifies this`table
      ensures Valid() && table == old(table)[inode.sector := inode.Value()]
    {
      assert inode.sector in Sectors(openInodes);
      table := table[inode.sector := inode.Value()];
    }

    ghost predicate Marked(sector: nat, h: Header)
      reads this`used
    {
      Run(used, sector, 1, true) && Run(used, h.start, BytesToSectors(h.length), true) && !InData(h, sector)
    }

    method ReleaseSectors(sector: nat, h: Header, map1: bool, map2: bool)
      requires Valid() && Fits(disk, freeMapInode.hdr) && Marked(sector, h)
      modifies this`disk, this`used
      ensures Abs() == FS.Release(FS.Release(old(Abs()), sector, 1, map1), h.start, BytesToSectors(h.length), map2)
    {
      FreeMapRelease(sector, 1, map1);
      FreeMapRelease(h.start, BytesToSectors(h.length), map2);
    }

    /** list_remove of an inode whose last reference is gone. */
    method ListRemove(inode: InodeObject)
      requires inode in openInodes && inode != freeMapInode && Distinct(openInodes)
      requires forall o | o in openInodes && o != inode :: o.openCnt > 0 && o.sector in table && table[o.sector] == o.Value()
      requires table.Keys == Sectors(openInodes)
      requires freeMapInode in openInodes && freeMapInode.sector == FS.FREE_MAP_SECTOR && freeMapInode.denyCnt == 0
      modifies this`openInodes, this`table
      ensures Valid() && table == old(table) - {inode.sector}
      ensures forall o :: o in openInodes <==> o in old(openInodes) && o != inode
    {
      var k :| 0 <= k < |openInodes| && openInodes[k] == inode;
      openInodes := openInodes[..k] + openInodes[k + 1..];
      RemovedAt(old(openInodes), k, openInodes);
      table := table - {inode.sector};
    }

    /** A reopened inode is the same object. */
    method InodeReopen(inode: InodeObject)
      requires Valid() && inode in openInodes
      modifies this`table, inode`openCnt
      ensures Valid() && table == FS.Referenced(old(table), inode.sector, inode.hdr) && inode.openCnt == old(inode.openCnt) + 1
    {
      inode.openCnt := inode.openCnt + 1;
      Refresh(inode);
    }

    /** The precondition is the assertion in inode_deny_write. */
    method InodeDenyWrite(inode: InodeObject)
      requires Valid() && inode in openInodes && inode != freeMapInode && inode.denyCnt < inode.openCnt
      modifies this`table, inode`denyCnt
      ensures Valid() && table == old(table)[inode.sector := old(table)[inode.sector].(denyCnt := old(inode.denyCnt) + 1)]
    {
      inode.denyCnt := inode.denyCnt + 1;
      Refresh(inode);
    }

    /** The precondition is the assertions in inode_allow_write. */
    method InodeAllowWrite(inode: InodeObject)
      requires Valid() && inode in openInodes && inode != freeMapInode && 0 < inode.denyCnt <= inode.openCnt
      modifies this`table, inode`denyCnt
      ensures Valid() && table == old(table)[inode.sector := old(table)[inode.sector].(denyCnt := old(inode.denyCnt) - 1)]
    {
      inode.denyCnt := inode.denyCnt - 1;
      Refresh(inode);
    }

    method InodeRemove(inode: InodeObject)
      requires Valid() && inode in openInodes
      modifies this`table, inode`removed
      ensures Valid() && table == old(table)[inode.sector := old(table)[inode.sector].(removed := true)]
    {
      inode.removed := true;
      Refresh(inode);
    }
  }

  lemma CloseUnfolds(fs: FS.State, s: nat, i: FS.Inode, map1: bool, map2: bool)
    requires s in fs.inodes && fs.inodes[s] == i
    ensures var fs1 := fs.(inodes := FS.Dropped(fs.inodes, s));
      FS.InodeClose(fs, s, map1, map2) == if i.openCnt > 1 || !i.removed then fs1
        else FS.Release(FS.Release(fs1, s, 1, map1), i.hdr.start, BytesToSectors(i.hdr.length), map2)
  {
  }

  ghost predicate Distinct(os: seq<InodeObject>)
  {
    forall i, j | 0 <= i < j < |os| :: os[i].sector != os[j].sector
  }

  ghost function Sectors(os: seq<InodeObject>): set<nat>
  {
    set o | o in os :: o.sector
  }

  lemma SectorsPush(o: InodeObject, os: seq<InodeObject>)
    requires Distinct(os) && o.sector !in Sectors(os)
    ensures Distinct([o] + os) && Sectors([o] + os) == {o.sector} + Sectors(os)
  {
    assert o in [o] + os;
    assert forall p | p in os :: p in [o] + os;
  }

  lemma RemovedAt(all: seq<InodeObject>, k: nat, rest: seq<InodeObject>)
    requires k < |all| && rest == all[..k] + all[k + 1..] && Distinct(all)
    ensures Distinct(rest) && Sectors(rest) == Sectors(all) - {all[k].sector}
    ensures forall o :: o in rest <==> o in all && o != all[k]
  {
    forall o | o in all && o != all[k] ensures o in rest {
      var i :| 0 <= i < |all| && all[i] == o;
      assert rest[if i < k then i else i - 1] == o;
    }
    forall o | o in rest ensures o in all && o.sector != all[k].sector {
      var i :| 0 <= i < |rest| && rest[i] == o;
      assert all[if i < k then i else i + 1] == o;
    }
  }

  /** The bounce buffer of a partial write: the sector is read first unless nothing of it stays. */
  method BounceSector(was: Sector, at: nat, chunk: seq<Byte>) returns (s: Sector)
    requires at + |chunk| <= 512
    ensures forall j | 0 <= j < 512 :: s[j] == if at <= j < at + |chunk| then chunk[j - at] else was[j]
  {
    if at > 0 || |chunk| < SECTOR_SIZE - at {
      s := was;
    } else {
      s := ZeroSector();
    }
    s := CopyInto(s, at, chunk);
  }

  /** memcpy of a chunk into a sector-sized buffer. */
  function CopyInto(s: Sector, at: nat, chunk: seq<Byte>): (r: Sector)
    requires at + |chunk| <= 512
    ensures forall j | 0 <= j < 512 :: r[j] == if at <= j < at + |chunk| then chunk[j - at] else s[j]
  {
    s[..at] + chunk + s[at + |chunk|..]
  }

  // ----- chunk arithmetic

  /** One chunk of a transfer: it stays in one sector of the file, and what is left to transfer is
      what the rest of the transfer moves; a partial chunk needs the bounce buffer. */
  lemma ChunkOf(size: int, offset: nat, length: nat, bounce: bool, chunk: int, rest: int, next: int)
    requires size > 0 && chunk > 0 && rest == size - chunk && next == offset + chunk
    requires chunk == Least(size, Least(length - offset, SECTOR_SIZE - offset % SECTOR_SIZE))
    ensures next <= length && offset / 512 < BytesToSectors(length) && next >= 0
    ensures (offset % 512 == 0 && chunk == 512) || bounce ==>
              Transferred(size, offset, length, bounce) == chunk + Transferred(rest, next, length, bounce)
    ensures !((offset % 512 == 0 && chunk == 512) || bounce) ==> Transferred(size, offset, length, bounce) == 0
  {
    if chunk == 512 {
      SameRemainder(Least(size, length - offset));
      SameRemainder(offset + 512);
    }
  }

  lemma SameRemainder(a: int)
    ensures a % 512 == (a - 512) % 512
  {
  }

  function Least(a: int, b: int): int { if a < b then a else b }

  lemma ChunkIsContent(disk: Device, h: Header, offset: nat, chunk: seq<Byte>, next: nat)
    requires Fits(disk, h) && next == offset + |chunk| <= h.length && offset % 512 + |chunk| <= 512
    requires h.start + offset / 512 < |disk|
    requires chunk == disk[h.start + offset / 512][offset % 512..offset % 512 + |chunk|]
    ensures chunk == Content(disk, h)[offset..next]
  {
    forall i | 0 <= i < |chunk| ensures chunk[i] == Content(disk, h)[offset + i] {
      assert (offset + i) / 512 == offset / 512 && (offset + i) % 512 == offset % 512 + i;
    }
  }
}
