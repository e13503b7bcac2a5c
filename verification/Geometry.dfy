/** Who owns which sector: the disjointness at the heart of the file system.  A set of live
    inodes owns its header sectors and the data sectors their headers name. */
module Geometry {
  import opened Disk
  import opened Bitmap

  function HeaderOf(disk: Device, s: nat): Header
  {
    if s < |disk| then DecodeHeader(disk[s]) else Header(0, 0)
  }

  predicate Owns(disk: Device, s: nat, x: int)
  {
    x == s || InData(HeaderOf(disk, s), x)
  }

  /** Every live inode's extent is in range and marked, and no two extents meet. */
  ghost predicate Sound(disk: Device, used: seq<bool>, live: set<nat>)
  {
    && |disk| == |used| < 0x1_0000_0000
    && (forall s | s in live :: s < |disk| && Fits(disk, HeaderOf(disk, s)) && !InData(HeaderOf(disk, s), s))
    && (forall s, x {:trigger Owns(disk, s, x)} | s in live && Owns(disk, s, x) :: used[x])
    && (forall s, t, x {:trigger Owns(disk, s, x), Owns(disk, t, x)} |
          s in live && t in live && Owns(disk, s, x) && Owns(disk, t, x) :: s == t)
  }

  ghost predicate SameHeaders(disk: Device, disk': Device, live: set<nat>)
  {
    |disk'| == |disk| && forall s | s in live && s < |disk| :: disk'[s] == disk[s]
  }

  lemma SoundAfterWrite(disk: Device, used: seq<bool>, live: set<nat>, disk': Device)
    requires Sound(disk, used, live) && SameHeaders(disk, disk', live)
    ensures Sound(disk', used, live)
  {
    forall s, x | s in live && Owns(disk', s, x) ensures Owns(disk, s, x) {}
  }

  lemma SoundAfterMark(disk: Device, used: seq<bool>, live: set<nat>, used': seq<bool>)
    requires Sound(disk, used, live) && |used'| == |used| && forall x | 0 <= x < |used| :: used[x] ==> used'[x]
    ensures Sound(disk, used', live)
  {
  }

  lemma SoundAfterForget(disk: Device, used: seq<bool>, live: set<nat>, live': set<nat>)
    requires Sound(disk, used, live) && live' <= live
    ensures Sound(disk, used, live')
  {
  }

  /** Releasing a run that no live inode owns. */
  lemma SoundAfterRelease(disk: Device, used: seq<bool>, live: set<nat>, start: nat, cnt: nat)
    requires Sound(disk, used, live) && start + cnt <= |used|
    requires forall s, x | s in live && start <= x < start + cnt :: !Owns(disk, s, x)
    ensures Sound(disk, SetRun(used, start, cnt, false), live)
  {
  }

  /** Sectors found clear in the bitmap belong to no live inode: nothing reachable is ever
      handed out again. */
  lemma ClearIsUnowned(disk: Device, used: seq<bool>, live: set<nat>, start: nat, cnt: nat)
    requires Sound(disk, used, live) && Run(used, start, cnt, false)
    ensures forall s, x | s in live && start <= x < start + cnt :: !Owns(disk, s, x)
  {
  }

  /** A new inode whose header sector and data sectors were unowned and are now marked. */
  lemma SoundAfterAdd(disk: Device, used: seq<bool>, live: set<nat>, s: nat, h: Header)
    requires Sound(disk, used, live) && s < |disk| && HeaderOf(disk, s) == h
    requires Fits(disk, h) && !InData(h, s)
    requires used[s] && forall x | InData(h, x) :: used[x]
    requires forall t | t in live :: !Owns(disk, t, s)
    requires forall t, x | t in live && InData(h, x) :: !Owns(disk, t, x)
    ensures Sound(disk, used, live + {s})
  {
    forall t, t', x | t in live + {s} && t' in live + {s} && Owns(disk, t, x) && Owns(disk, t', x)
      ensures t == t'
    {
    }
  }

  /** Writing data of one live inode touches no live header and no other live inode's bytes. */
  lemma PatchIsLocal(disk: Device, used: seq<bool>, live: set<nat>, s: nat, offset: nat, data: seq<Byte>)
    requires Sound(disk, used, live) && s in live
    ensures var disk' := Patched(disk, HeaderOf(disk, s), offset, data);
      && SameHeaders(disk, disk', live) && Sound(disk', used, live)
      && forall t | t in live && t != s :: HeaderOf(disk', t) == HeaderOf(disk, t)
                 && Content(disk', HeaderOf(disk', t)) == Content(disk, HeaderOf(disk, t))
  {
    var h := HeaderOf(disk, s);
    var disk' := Patched(disk, h, offset, data);
    forall t | t in live ensures disk'[t] == disk[t] {
      assert Owns(disk, t, t);
      assert InData(h, t) ==> Owns(disk, s, t);
    }
    SoundAfterWrite(disk, used, live, disk');
    forall t | t in live && t != s
      ensures HeaderOf(disk', t) == HeaderOf(disk, t) && Content(disk', HeaderOf(disk', t)) == Content(disk, HeaderOf(disk, t))
    {
      var g := HeaderOf(disk, t);
      forall x | InData(g, x) ensures !InData(h, x) {
        assert Owns(disk, t, x);
        assert InData(h, x) ==> Owns(disk, s, x);
      }
      PatchedOther(disk, h, offset, data, g);
    }
  }
}
