/** The loops of directory.c over an open directory inode: every entry is fetched with
    inode_read_at into one entry buffer (Project2/src/filesys/directory.c).  A scan stops at the
    first short read, which happens at the end of file or when no bounce buffer can be had. */
module DirectoryCode {
  import opened Disk
  import opened Bitmap
  import opened Directory
  import opened FileSystemCode
  import FS = FileSystem

  /** The entries of an open directory. */
  ghost function EntriesOf(disk: Device, h: Header): seq<Entry>
  {
    Entries(Content(disk, h))
  }

  /** inode_read_at of one entry: a short read overwrites only the front of the buffer. */
  method ReadEntry(k: Kernel, dir: InodeObject, i: nat, bounce: bool, buffer: Entry) returns (whole: bool, e: Entry)
    requires Fits(k.disk, dir.hdr)
    ensures whole <==> bounce && i < Slots(Content(k.disk, dir.hdr))
    ensures whole ==> e == EntriesOf(k.disk, dir.hdr)[i]
  {
    var got := k.InodeReadAt(dir, ENTRY_SIZE, 20 * i, bounce);
    OneEntry(20, i, dir.hdr.length, bounce);
    whole := |got| == 20;
    e := got + buffer[|got|..];
  }

  /** A transfer of one entry moves all of it exactly when the entry is there and memory is. */
  lemma OneEntry(size: nat, i: nat, length: nat, bounce: bool)
    requires size == 20
    ensures Transferred(20, 20 * i, length, bounce) == if !bounce then 0 else if i < length / 20 then 20
                                                        else if i == length / 20 then length % 20 else 0
  {
  }

  /** lookup: the first entry in use under `name`, among the first `limit` entries. */
  method Lookup(k: Kernel, dir: InodeObject, name: Name, limit: nat, buffer: Entry) returns (found: Option<nat>, e: Entry)
    requires Fits(k.disk, dir.hdr)
    ensures var es := EntriesOf(k.disk, dir.hdr);
      && found == FindName(es[..FS.Cut(limit, |es|)], name)
      && (found.Some? ==> found.value < |es| && e == es[found.value])
  {
    ghost var es := EntriesOf(k.disk, dir.hdr);
    var i, whole := 0, true;
    whole, e := ReadEntry(k, dir, 0, 0 < limit, buffer);
    while whole
      invariant 0 <= i <= FS.Cut(limit, |es|)
      invariant whole <==> i < FS.Cut(limit, |es|)
      invariant whole ==> e == es[i]
      invariant forall j | 0 <= j < i :: !Holds(es[j], name)
      decreases |es| - i, whole
    {
      if Holds(e, name) {
        found := Some(i);
        assert Holds(es[..FS.Cut(limit, |es|)][i], name);
        return;
      }
      i := i + 1;
      whole, e := ReadEntry(k, dir, i, i < limit, e);
    }
    found := None;
  }

  /** The search for a free slot in dir_add. */
  method FreeSlot(k: Kernel, dir: InodeObject, limit: nat, buffer: Entry) returns (i: nat, e: Entry)
    requires Fits(k.disk, dir.hdr)
    ensures var es := EntriesOf(k.disk, dir.hdr); i == FindFree(es[..FS.Cut(limit, |es|)])
  {
    ghost var es := EntriesOf(k.disk, dir.hdr);
    i := 0;
    var whole;
    whole, e := ReadEntry(k, dir, 0, 0 < limit, buffer);
    while whole && InUse(e)
      invariant 0 <= i <= FS.Cut(limit, |es|)
      invariant whole <==> i < FS.Cut(limit, |es|)
      invariant whole ==> e == es[i]
      invariant forall j | 0 <= j < i :: InUse(es[j])
      decreases |es| - i, whole
    {
      i := i + 1;
      whole, e := ReadEntry(k, dir, i, i < limit, e);
    }
    FirstFree(es[..FS.Cut(limit, |es|)], i);
  }

  lemma FirstFree(es: seq<Entry>, i: nat)
    requires i <= |es| && (i < |es| ==> !InUse(es[i])) && forall j | 0 <= j < i :: InUse(es[j])
    ensures FindFree(es) == i
  {
  }

  /** dir_add.  `stale` is what the entry buffer held when the new entry was built in it. */
  method DirAdd(k: Kernel, dir: InodeObject, name: Name, sector: nat, m: FS.Memory, buffer: Entry)
    returns (success: bool, ghost stale: Entry)
    requires Fits(k.disk, dir.hdr) && dir.denyCnt == 0
    requires dir.hdr == FS.Geometry.HeaderOf(k.disk, FS.ROOT_DIR_SECTOR)
    modifies k`disk
    ensures k.Abs() == FS.RootAdd(old(k.Abs()), name, sector, m.(stale := stale)).1
    ensures success == FS.RootAdd(old(k.Abs()), name, sector, m.(stale := stale)).0
  {
    success, stale := false, buffer;
    if !ValidName(name) {
      return;
    }
    var found, e := Lookup(k, dir, name, m.seen, buffer);
    if found.Some? {
      return;
    }
    var i;
    i, e := FreeSlot(k, dir, m.tried, e);
    stale := e;
    e := NewEntry(e, name, sector);
    var written := k.InodeWriteAt(dir, e, 20 * i, m.stored);
    success := written == 20;
    OneEntry(20, i, dir.hdr.length, m.stored);
    if !m.stored {
      assert e[..0] == [];
      PatchNothing(old(k.disk), dir.hdr, 20 * i);
    }
  }

  /** The lookup and erase of dir_remove, and its last lines for the open inode. */
  method EraseEntry(k: Kernel, dir: InodeObject, i: nat, e: Entry, stored: bool) returns (success: bool)
    requires Fits(k.disk, dir.hdr) && dir.denyCnt == 0
    requires dir.hdr == FS.Geometry.HeaderOf(k.disk, FS.ROOT_DIR_SECTOR)
    requires i < |FS.Root(k.disk)| && e == FS.Root(k.disk)[i]
    modifies k`disk
    ensures success == stored
    ensures k.Abs() == if stored then FS.RootErase(old(k.Abs()), i) else old(k.Abs())
  {
    var erased := Erased(e);
    var written := k.InodeWriteAt(dir, erased, 20 * i, stored);
    success := written == 20;
    OneEntry(20, i, dir.hdr.length, stored);
    assert erased[..20] == erased;
    if !stored {
      assert erased[..0] == [];
      PatchNothing(old(k.disk), dir.hdr, 20 * i);
    }
  }

  /** `name` is the name of the first entry in use at or after `from`, and `to` is the index after
      it; or there is none among the entries that could be read. */
  ghost predicate NextName(es: seq<Entry>, from: nat, to: nat, name: Option<Name>)
  {
    && from <= to
    && (if name.Some? then from < to <= |es| && Holds(es[to - 1], name.value) else to == if from < |es| then |es| else from)
    && forall j | from <= j < (if name.Some? then to - 1 else |es|) :: !InUse(es[j])
  }

  /** An open directory handle. */
  class Dir {
    const inode: InodeObject
    /** Index of the next entry; the source keeps the byte offset, 20 times as much. */
    var next: nat

    constructor (inode: InodeObject)
      ensures this.inode == inode && next == 0
    {
      this.inode, next := inode, 0;
    }

    /** dir_readdir: the name of the next entry in use.  The read of entry `limit` gets no bounce
        buffer; it looks like the end of the directory. */
    method ReadDir(k: Kernel, limit: nat, buffer: Entry) returns (name: Option<Name>)
      requires Fits(k.disk, inode.hdr)
      modifies this`next
      ensures var es := EntriesOf(k.disk, inode.hdr); NextName(es[..FS.Cut(limit, |es|)], old(next), next, name)
    {
      ghost var es := EntriesOf(k.disk, inode.hdr);
      ghost var n := FS.Cut(limit, |es|);
      var whole, e := ReadEntry(k, inode, next, next < limit, buffer);
      while whole
        invariant old(next) <= next && (old(next) < n ==> next <= n) && (old(next) >= n ==> next == old(next))
        invariant whole <==> next < n
        invariant whole ==> e == es[next]
        invariant forall j | old(next) <= j < next :: j < n && !InUse(es[j])
        decreases n - next, whole
      {
        next := next + 1;
        if InUse(e) {
          name := Some(EntryName(e));
          return;
        }
        whole, e := ReadEntry(k, inode, next, next < limit, e);
      }
      name := None;
    }
  }

  lemma {:induction false} ListingSkips(es: seq<Entry>, from: nat, to: nat)
    requires from <= to <= |es| && forall j | from <= j < to :: !InUse(es[j])
    ensures Listing(es, from) == Listing(es, to)
    decreases |es| - from
  {
    if from < to {
      ListingSkips(es, from + 1, to);
    }
  }

  /** The names read so far are those of the entries before `from`. */
  ghost predicate Listed(es: seq<Entry>, names: seq<Name>, from: nat)
  {
    from <= |es| && Listing(es, 0) == names + Listing(es, from)
  }

  lemma ListedNext(es: seq<Entry>, names: seq<Name>, from: nat, to: nat, name: Name)
    requires Listed(es, names, from) && NextName(es, from, to, Some(name))
    ensures Listed(es, names + [name], to)
  {
    ListingSkips(es, from, to - 1);
  }

  lemma ListedAll(es: seq<Entry>, names: seq<Name>, from: nat)
    requires Listed(es, names, from) && NextName(es, from, |es|, None)
    ensures names == Listing(es, 0)
  {
    ListingSkips(es, from, |es|);
  }

  /** Reading a fresh handle until dir_readdir finds nothing more lists the entries before the first
      refused read.  By ListsEachNameOnce and CutListing that is every bound name exactly once, or
      not, depending on whether an entry in use comes later. */
  method ListAll(k: Kernel, dir: Dir, limit: nat, buffer: Entry) returns (names: seq<Name>)
    requires Fits(k.disk, dir.inode.hdr) && dir.next == 0
    modifies dir`next
    ensures var es := EntriesOf(k.disk, dir.inode.hdr);
      && names == Listing(es[..FS.Cut(limit, |es|)], 0)
      && (names == Listing(es, 0) <==> forall j | limit <= j < |es| :: !InUse(es[j]))
  {
    ghost var all := EntriesOf(k.disk, dir.inode.hdr);
    ghost var es := all[..FS.Cut(limit, |all|)];
    names := [];
    ghost var from := dir.next;
    var name := dir.ReadDir(k, limit, buffer);
    while name.Some?
      invariant NextName(es, from, dir.next, name) && Listed(es, names, from)
      decreases |es| - dir.next, name.Some?
    {
      ListedNext(es, names, from, dir.next, name.value);
      names, from := names + [name.value], dir.next;
      name := dir.ReadDir(k, limit, buffer);
    }
    ListedAll(es, names, from);
    CutListing(all, FS.Cut(limit, |all|));
  }
}
