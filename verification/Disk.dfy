/** The block device and the on-disk inode: sectors of bytes, headers, and the flat byte
    array that a header's data sectors hold (Project2/src/filesys/inode.c). */
module Disk {
  const SECTOR_SIZE: int := 512
  const INODE_MAGIC: int := 0x494e_4f44

  type Byte = b: int | 0 <= b < 256
  type Sector = s: seq<Byte> | |s| == 512 witness seq(512, _ => 0)
  type Device = seq<Sector>

  function ZeroSector(): (s: Sector)
    ensures forall j | 0 <= j < 512 :: s[j] == 0
  {
    seq(512, _ => 0)
  }

  /** The part of the on-disk inode that varies: first data sector and size in bytes. */
  datatype Header = Header(start: nat, length: nat)

  function BytesToSectors(size: nat): nat
  {
    (size + SECTOR_SIZE - 1) / SECTOR_SIZE
  }

  // ----- header codec

  function Word(x: nat): (w: seq<Byte>)
    ensures |w| == 4
  {
    [x % 256, x / 256 % 256, x / 0x1_0000 % 256, x / 0x100_0000 % 256]
  }

  function WordAt(s: seq<Byte>, i: nat): nat
    requires i + 4 <= |s|
  {
    (s[i] as int) + 256 * (s[i + 1] as int) + 0x1_0000 * (s[i + 2] as int) + 0x100_0000 * (s[i + 3] as int)
  }

  lemma Digits(x: nat)
    requires x < 0x1_0000_0000
    ensures x % 256 + 256 * (x / 256 % 256) + 0x1_0000 * (x / 0x1_0000 % 256) + 0x100_0000 * (x / 0x100_0000 % 256) == x
  {
    assert x / 0x1_0000 == x / 256 / 256 && x / 0x100_0000 == x / 256 / 256 / 256;
  }

  lemma WordRoundTrip(x: nat, before: seq<Byte>, after: seq<Byte>)
    requires x < 0x1_0000_0000
    ensures WordAt(before + Word(x) + after, |before|) == x
  {
    var s, n := before + Word(x) + after, |before|;
    assert s[n..n + 4] == Word(x);
    assert s[n] == s[n..n + 4][0] && s[n + 1] == s[n..n + 4][1] && s[n + 2] == s[n..n + 4][2] && s[n + 3] == s[n..n + 4][3];
    Digits(x);
  }

  function EncodeHeader(h: Header): Sector
  {
    Word(h.start) + Word(h.length) + Word(INODE_MAGIC) + seq(500, _ => 0)
  }

  function DecodeHeader(s: Sector): Header
  {
    Header(WordAt(s, 0), WordAt(s, 4))
  }

  lemma HeaderRoundTrip(h: Header)
    requires h.start < 0x1_0000_0000 && h.length < 0x1_0000_0000
    ensures DecodeHeader(EncodeHeader(h)) == h
  {
    var tail: seq<Byte> := Word(INODE_MAGIC) + seq(500, _ => 0);
    assert EncodeHeader(h) == [] + Word(h.start) + (Word(h.length) + tail);
    WordRoundTrip(h.start, [], Word(h.length) + tail);
    assert EncodeHeader(h) == Word(h.start) + Word(h.length) + tail;
    WordRoundTrip(h.length, Word(h.start), tail);
  }

  // ----- a file as a flat byte array

  ghost predicate Fits(disk: Device, h: Header)
  {
    h.start + BytesToSectors(h.length) <= |disk|
  }

  predicate InData(h: Header, x: int)
  {
    h.start <= x < h.start + BytesToSectors(h.length)
  }

  /** The bytes of the file whose header is h (zeros past the end of the device). */
  ghost function Content(disk: Device, h: Header): (c: seq<Byte>)
    ensures |c| == h.length
    ensures Fits(disk, h) ==> forall i | 0 <= i < h.length :: c[i] == disk[h.start + i / 512][i % 512]
  {
    seq(h.length, i requires 0 <= i < h.length =>
      if h.start + i / 512 < |disk| then disk[h.start + i / 512][i % 512] else 0)
  }

  /** Bytes that a transfer of `size` bytes at `offset` moves.  Without memory for a bounce
      buffer it stops before the first chunk that is not a whole sector. */
  function Transferred(size: int, offset: nat, length: nat, bounce: bool): nat
  {
    var left := if offset < length then length - offset else 0;
    var full := if size < 0 then 0 else if size < left then size else left;
    if bounce then full
    else if offset % 512 == 0 then full - full % 512
    else 0
  }

  /** Slice update of a flat byte array. */
  function Splice(c: seq<Byte>, offset: nat, data: seq<Byte>): seq<Byte>
    requires offset + |data| <= |c|
  {
    c[..offset] + data + c[offset + |data|..]
  }

  /** One sector of file h, number k within the file, after `data` replaced the bytes at `offset`. */
  ghost function PatchedSector(old512: Sector, k: nat, offset: nat, data: seq<Byte>): (s: Sector)
    ensures forall j | 0 <= j < 512 ::
              s[j] == if offset <= 512 * k + j < offset + |data| then data[512 * k + j - offset] else old512[j]
  {
    seq(512, j requires 0 <= j < 512 =>
      if offset <= 512 * k + j < offset + |data| then data[512 * k + j - offset] else old512[j])
  }

  /** The device after `data` replaced the bytes at `offset` of file h. */
  ghost function Patched(disk: Device, h: Header, offset: nat, data: seq<Byte>): (d: Device)
    ensures |d| == |disk|
    ensures forall x | 0 <= x < |disk| ::
              d[x] == if InData(h, x) then PatchedSector(disk[x], x - h.start, offset, data) else disk[x]
  {
    seq(|disk|, x requires 0 <= x < |disk| =>
      if InData(h, x) then PatchedSector(disk[x], x - h.start, offset, data) else disk[x])
  }

  /** Patching a file's sectors is a slice update of its bytes. */
  lemma PatchedContent(disk: Device, h: Header, offset: nat, data: seq<Byte>)
    requires Fits(disk, h) && (data == [] || offset + |data| <= h.length)
    ensures Content(Patched(disk, h, offset, data), h)
         == if data == [] then Content(disk, h) else Splice(Content(disk, h), offset, data)
  {
    var was, now := Content(disk, h), Content(Patched(disk, h, offset, data), h);
    forall i | 0 <= i < h.length
      ensures now[i] == if offset <= i < offset + |data| then data[i - offset] else was[i]
    {
      PatchedByte(disk, h, offset, data, i);
    }
    IsSplice(was, now, offset, data);
  }

  lemma IsSplice(was: seq<Byte>, now: seq<Byte>, offset: nat, data: seq<Byte>)
    requires |was| == |now| && (data == [] || offset + |data| <= |was|)
    requires forall i | 0 <= i < |was| :: now[i] == if offset <= i < offset + |data| then data[i - offset] else was[i]
    ensures now == if data == [] then was else Splice(was, offset, data)
  {
  }

  lemma PatchedByte(disk: Device, h: Header, offset: nat, data: seq<Byte>, i: nat)
    requires Fits(disk, h) && i < h.length
    ensures InData(h, h.start + i / 512)
    ensures Patched(disk, h, offset, data)[h.start + i / 512][i % 512]
         == if offset <= i < offset + |data| then data[i - offset] else disk[h.start + i / 512][i % 512]
  {
    var k, j := i / 512, i % 512;
    assert 512 * k + j == i;
    assert InData(h, h.start + k);
    assert Patched(disk, h, offset, data)[h.start + k] == PatchedSector(disk[h.start + k], k, offset, data);
  }

  /** Patching one file leaves every byte of a file with disjoint data sectors alone. */
  lemma PatchedOther(disk: Device, h: Header, offset: nat, data: seq<Byte>, g: Header)
    requires Fits(disk, h) && Fits(disk, g)
    requires forall x | InData(g, x) :: !InData(h, x)
    ensures Content(Patched(disk, h, offset, data), g) == Content(disk, g)
  {
    var d := Patched(disk, h, offset, data);
    forall i | 0 <= i < g.length
      ensures Content(d, g)[i] == Content(disk, g)[i]
    {
      assert InData(g, g.start + i / 512);
    }
  }

  /** The bytes after the end of file in the last data sector are kept. */
  lemma PatchedSlack(disk: Device, h: Header, offset: nat, data: seq<Byte>, x: nat, j: nat)
    requires Fits(disk, h) && offset + |data| <= h.length
    requires InData(h, x) && j < 512 && 512 * (x - h.start) + j >= h.length
    ensures Patched(disk, h, offset, data)[x][j] == disk[x][j]
  {
  }

  /** One loop step of a write: extending the patched bytes by a chunk that stays within sector x
      rewrites exactly that sector. */
  lemma PatchedStep(disk: Device, h: Header, offset: nat, data: seq<Byte>, chunk: seq<Byte>, x: nat, at: nat, sector: Sector)
    requires Fits(disk, h) && offset + |data| + |chunk| <= h.length && |chunk| > 0 && at + |chunk| <= 512
    requires x >= h.start && offset + |data| == 512 * (x - h.start) + at
    requires x < |disk|
    requires forall j | 0 <= j < 512 ::
      sector[j] == if at <= j < at + |chunk| then chunk[j - at] else Patched(disk, h, offset, data)[x][j]
    ensures Patched(disk, h, offset, data + chunk) == Patched(disk, h, offset, data)[x := sector]
  {
    var was := Patched(disk, h, offset, data);
    var now := Patched(disk, h, offset, data + chunk);
    assert InData(h, x);
    forall y | 0 <= y < |disk|
      ensures now[y] == was[x := sector][y]
    {
      if InData(h, y) {
        forall j | 0 <= j < 512 ensures now[y][j] == was[x := sector][y][j] {
          PatchedStepByte(disk, h, offset, data, chunk, x, at, y, j);
        }
      }
    }
  }

  lemma PatchedStepByte(disk: Device, h: Header, offset: nat, data: seq<Byte>, chunk: seq<Byte>, x: nat, at: nat,
                        y: nat, j: nat)
    requires x >= h.start && offset + |data| == 512 * (x - h.start) + at && at + |chunk| <= 512
    requires InData(h, y) && y < |disk| && j < 512
    ensures Patched(disk, h, offset, data + chunk)[y][j]
         == if y == x && at <= j < at + |chunk| then chunk[j - at] else Patched(disk, h, offset, data)[y][j]
  {
    var i := 512 * (y - h.start) + j;
    assert offset + |data| <= i < offset + |data| + |chunk| <==> y == x && at <= j < at + |chunk|;
    assert Patched(disk, h, offset, data + chunk)[y] == PatchedSector(disk[y], y - h.start, offset, data + chunk);
    assert Patched(disk, h, offset, data)[y] == PatchedSector(disk[y], y - h.start, offset, data);
  }

  lemma PatchNothing(disk: Device, h: Header, offset: nat)
    ensures Patched(disk, h, offset, []) == disk
  {
    forall x | 0 <= x < |disk| ensures Patched(disk, h, offset, [])[x] == disk[x] {
      if InData(h, x) {
        assert PatchedSector(disk[x], x - h.start, offset, []) == disk[x];
      }
    }
  }
}
