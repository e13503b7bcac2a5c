/** The ELF loader: which segments it accepts, and the memory image it builds from them
    (Project2/src/userprog/process.c), after the program header section of the ELF specification,
    pages 2-2 to 2-4. */
module Elf {
  import opened Disk
  import opened Bitmap

  const PGSIZE: int := 4096
  const PHYS_BASE: int := 0xc000_0000
  const PT_LOAD: int := 1
  const PT_DYNAMIC: int := 2
  const PT_INTERP: int := 3
  const PT_SHLIB: int := 5
  const PF_W: int := 2
  const EHDR_SIZE: int := 52
  const PHDR_SIZE: int := 32

  // ----- headers

  datatype Phdr = Phdr(kind: nat, offset: nat, vaddr: nat, filesz: nat, memsz: nat, flags: nat)

  predicate IsWord(x: nat) { x < 0x1_0000_0000 }

  predicate InWords(ph: Phdr)
  {
    IsWord(ph.kind) && IsWord(ph.offset) && IsWord(ph.vaddr) && IsWord(ph.filesz) && IsWord(ph.memsz) && IsWord(ph.flags)
  }

  /** The Elf32_Phdr in a buffer. */
  function DecodePhdr(b: seq<Byte>): (ph: Phdr)
    requires |b| == PHDR_SIZE
    ensures InWords(ph)
  {
    Phdr(WordAt(b, 0), WordAt(b, 4), WordAt(b, 8), WordAt(b, 16), WordAt(b, 20), WordAt(b, 24))
  }

  function HalfAt(b: seq<Byte>, i: nat): nat
    requires i + 2 <= |b|
  {
    (b[i] as int) + 256 * (b[i + 1] as int)
  }

  /** The checks on the Elf32_Ehdr. */
  predicate GoodEhdr(b: seq<Byte>)
    requires |b| == EHDR_SIZE
  {
    && b[..7] == [0x7f, 'E' as int, 'L' as int, 'F' as int, 1, 1, 1]
    && HalfAt(b, 16) == 2 && HalfAt(b, 18) == 3 && WordAt(b, 20) == 1 && HalfAt(b, 42) == PHDR_SIZE && HalfAt(b, 44) <= 1024
  }

  /** A word assigned to off_t. */
  function AsOffset(x: nat): int { if x < 0x8000_0000 then x else x - 0x1_0000_0000 }

  function PhoffOf(b: seq<Byte>): int
    requires |b| == EHDR_SIZE
  {
    AsOffset(WordAt(b, 28))
  }

  function PhnumOf(b: seq<Byte>): nat
    requires |b| == EHDR_SIZE
  {
    HalfAt(b, 44)
  }

  // ----- validate_segment

  function PgOfs(a: nat): nat { a % PGSIZE }

  function PageBase(a: nat): nat { a - a % PGSIZE }

  /** The region of a segment, in unbounded arithmetic: offset and address agree within a page, the
      offset is within the file, the sizes are in order, and the region lies in user space, above
      page 0 and strictly below PHYS_BASE. */
  predicate Acceptable(ph: Phdr, length: nat)
  {
    && PgOfs(ph.offset) == PgOfs(ph.vaddr) && ph.offset <= length && ph.filesz <= ph.memsz && 0 < ph.memsz
    && PGSIZE <= ph.vaddr && ph.vaddr + ph.memsz < PHYS_BASE
  }

  /** validate_segment, with its sums modulo 2^32, accepts exactly the acceptable segments. */
  method ValidateSegment(ph: Phdr, length: nat) returns (ok: bool)
    requires InWords(ph) && length < 0x8000_0000
    ensures ok <==> Acceptable(ph, length)
  {
    var end := (ph.vaddr + ph.memsz) % 0x1_0000_0000;
    if PgOfs(ph.offset) != PgOfs(ph.vaddr) {
      return false;
    }
    if ph.offset > length {
      return false;
    }
    if ph.memsz < ph.filesz {
      return false;
    }
    if ph.memsz == 0 {
      return false;
    }
    if ph.vaddr >= PHYS_BASE {
      return false;
    }
    if end >= PHYS_BASE {
      return false;
    }
    if end < ph.vaddr {
      return false;
    }
    if ph.vaddr < PGSIZE {
      return false;
    }
    ok := true;
  }

  // ----- the memory image

  datatype Page = Page(bytes: PageBytes, writable: bool)

  type PageBytes = s: seq<Byte> | |s| == 4096 witness seq(4096, _ => 0)

  /** User memory by page, as the page directory maps it. */
  type Space = map<nat, Page>

  function RoundUp(x: nat): nat { (x + PGSIZE - 1) / PGSIZE * PGSIZE }

  /** Bytes of the segment to be read, from the start of its first page. */
  function ReadBytes(ph: Phdr): nat { if ph.filesz > 0 then PgOfs(ph.vaddr) + ph.filesz else 0 }

  /** Bytes of all pages that the segment covers. */
  function SpanBytes(ph: Phdr): nat { RoundUp(PgOfs(ph.vaddr) + ph.memsz) }

  lemma SpanFits(ph: Phdr, length: nat)
    requires Acceptable(ph, length)
    ensures SpanBytes(ph) % PGSIZE == 0 && ReadBytes(ph) <= SpanBytes(ph) && PageBase(ph.vaddr) + SpanBytes(ph) <= PHYS_BASE
    ensures PgOfs(ph.vaddr) + ph.memsz <= SpanBytes(ph) < 0x1_0000_0000
  {
  }

  /** Byte x of a segment that starts at file offset ofs, counted from the start of its first page. */
  function SegmentByte(file: seq<Byte>, ofs: nat, read: nat, x: int): Byte
  {
    if 0 <= x < read && ofs + x < |file| then file[ofs + x] else 0
  }

  /** Page k of such a segment. */
  function SegmentPage(file: seq<Byte>, ofs: nat, read: nat, k: int): (c: PageBytes)
    ensures forall j | 0 <= j < PGSIZE :: c[j] == SegmentByte(file, ofs, read, PGSIZE * k + j)
  {
    seq(PGSIZE, j requires 0 <= j < PGSIZE =>
      if 0 <= PGSIZE * k + j < read && ofs + (PGSIZE * k + j) < |file| then file[ofs + (PGSIZE * k + j)] else 0)
  }

  /** space' is space with n pages of a segment added from page `first` on, none of which was mapped. */
  ghost predicate Adds(space: Space, space': Space, file: seq<Byte>, ofs: nat, first: nat, read: nat, n: nat, writable: bool)
  {
    && (forall p: nat :: p in space' <==> p in space || first <= p < first + n)
    && (forall p: nat | p in space :: !(first <= p < first + n) && p in space' && space'[p] == space[p])
    && forall p: nat | first <= p < first + n :: p in space' && space'[p] == Page(SegmentPage(file, ofs, read, p - first), writable)
  }

  lemma AddsOne(space: Space, space': Space, file: seq<Byte>, ofs: nat, first: nat, read: nat, n: nat, writable: bool, p: nat)
    requires Adds(space, space', file, ofs, first, read, n, writable) && p == first + n && p !in space'
    ensures Adds(space, space'[p := Page(SegmentPage(file, ofs, read, n), writable)], file, ofs, first, read, n + 1, writable)
  {
  }

  /** How many bytes are still to be read before page k. */
  function Unread(read: nat, k: nat): nat { if PGSIZE * k < read then read - PGSIZE * k else 0 }

  lemma PageIsSegment(file: seq<Byte>, ofs: nat, read: nat, k: nat, data: seq<Byte>)
    requires |data| == if Unread(read, k) < PGSIZE then Unread(read, k) else PGSIZE
    requires data == [] || (ofs + PGSIZE * k + |data| <= |file| && data == file[ofs + PGSIZE * k..ofs + PGSIZE * k + |data|])
    ensures data + seq(PGSIZE - |data|, _ => 0) == SegmentPage(file, ofs, read, k)
  {
    var page := data + seq(PGSIZE - |data|, _ => 0);
    forall j | 0 <= j < PGSIZE ensures page[j] == SegmentByte(file, ofs, read, PGSIZE * k + j) {
    }
  }

  class Process {
    var space: Space

    constructor ()
      ensures space == map[]
    {
      space := map[];
    }

    /** install_page: fails on a page that is mapped, or if no page table can be had. */
    method InstallPage(upage: nat, page: Page) returns (ok: bool)
      modifies this
      ensures ok ==> upage / PGSIZE !in old(space) && space == old(space)[upage / PGSIZE := page]
      ensures !ok ==> space == old(space)
    {
      var table: bool := *;
      ok := upage / PGSIZE !in space && table;
      if ok {
        space := space[upage / PGSIZE := page];
      }
    }

    /** load_segment.  The counters never go below zero, and the loop ends. */
    method LoadSegment(file: seq<Byte>, ofs: nat, upage0: nat, read0: nat, zero0: nat, writable: bool) returns (ok: bool)
      requires (read0 + zero0) % PGSIZE == 0 && upage0 % PGSIZE == 0 && ofs % PGSIZE == 0
      modifies this
      ensures ok ==> Adds(old(space), space, file, ofs, upage0 / PGSIZE, read0, (read0 + zero0) / PGSIZE, writable)
      ensures ok ==> read0 == 0 || ofs + read0 <= |file|
    {
      var pos, upage, read_bytes, zero_bytes := ofs, upage0, read0, zero0;
      ghost var k, first := 0, upage0 / PGSIZE;
      while read_bytes > 0 || zero_bytes > 0
        invariant 0 <= pos && 0 <= zero_bytes && read_bytes == Unread(read0, k) && upage == PGSIZE * (first + k)
        invariant read_bytes + zero_bytes == read0 + zero0 - PGSIZE * k
        invariant read_bytes > 0 ==> pos == ofs + PGSIZE * k
        invariant read_bytes == 0 ==> read0 == 0 || ofs + read0 <= |file|
        invariant Adds(old(space), space, file, ofs, first, read0, k, writable)
        decreases read_bytes + zero_bytes
      {
        var page_read_bytes := if read_bytes < PGSIZE then read_bytes else PGSIZE;
        var page_zero_bytes := PGSIZE - page_read_bytes;
        var kpage := FillPage(file, pos, page_read_bytes);
        if kpage.None? {
          return false;
        }
        PageIsSegment(file, ofs, read0, k, kpage.value[..page_read_bytes]);
        assert kpage.value == kpage.value[..page_read_bytes] + seq(page_zero_bytes, _ => 0);
        ghost var before := space;
        ok := InstallPage(upage, Page(kpage.value, writable));
        if !ok {
          return false;
        }
        AddsOne(old(space), before, file, ofs, first, read0, k, writable, upage / PGSIZE);
        pos := pos + page_read_bytes;
        read_bytes := read_bytes - page_read_bytes;
        zero_bytes := zero_bytes - page_zero_bytes;
        upage := upage + PGSIZE;
        k := k + 1;
      }
      ok := true;
    }
  }

  /** A frame with n bytes read from the file and zeros after them, if memory and the disk allow. */
  method FillPage(file: seq<Byte>, pos: nat, n: nat) returns (kpage: Option<PageBytes>)
    requires n <= PGSIZE
    ensures kpage.Some? ==>
      && (n == 0 || (pos + n <= |file| && kpage.value[..n] == file[pos..pos + n]))
      && forall j | n <= j < PGSIZE :: kpage.value[j] == 0
  {
    var frame: bool := *;
    if !frame {
      return None;
    }
    var bounce: bool := *;
    var data := FileRead(file, pos, n, bounce);
    if |data| != n {
      return None;
    }
    kpage := Some(data + seq(PGSIZE - n, _ => 0));
  }

  /** file_read at the file's position. */
  method FileRead(file: seq<Byte>, pos: nat, size: nat, bounce: bool) returns (data: seq<Byte>)
    ensures |data| == Transferred(size, pos, |file|, bounce)
    ensures data == [] || (pos + |data| <= |file| && data == file[pos..pos + |data|])
  {
    var n := Transferred(size, pos, |file|, bounce);
    data := if n == 0 then [] else file[pos..pos + n];
  }

  // ----- a loaded segment

  function ByteOf(space: Space, a: nat): Option<Byte>
  {
    if a / PGSIZE in space then Some(space[a / PGSIZE].bytes[a % PGSIZE]) else None
  }

  /** The byte that the ELF specification puts at address a of a segment. */
  function ImageByte(file: seq<Byte>, ph: Phdr, a: nat): Byte
    requires ph.vaddr <= a && ph.offset + ph.filesz <= |file|
  {
    if a - ph.vaddr < ph.filesz then file[ph.offset + (a - ph.vaddr)] else 0
  }

  predicate IsWritable(ph: Phdr) { ph.flags / PF_W % 2 == 1 }

  /** The image of a segment: its file bytes, then zeros, on pages with its permission. */
  ghost predicate Loaded(space: Space, file: seq<Byte>, ph: Phdr)
  {
    && ph.offset + ph.filesz <= |file|
    && forall a: nat | ph.vaddr <= a < ph.vaddr + ph.memsz ::
         ByteOf(space, a) == Some(ImageByte(file, ph, a)) && space[a / PGSIZE].writable == IsWritable(ph)
  }

  /** Pages that a segment covers. */
  predicate Covers(ph: Phdr, p: nat)
  {
    ph.vaddr / PGSIZE <= p < ph.vaddr / PGSIZE + SpanBytes(ph) / PGSIZE
  }

  /** The new pages of a segment, as load_segment adds them. */
  ghost predicate AddsSegment(space: Space, space': Space, file: seq<Byte>, ph: Phdr)
  {
    && Adds(space, space', file, PageBase(ph.offset), ph.vaddr / PGSIZE, ReadBytes(ph), SpanBytes(ph) / PGSIZE, IsWritable(ph))
    && (ReadBytes(ph) == 0 || PageBase(ph.offset) + ReadBytes(ph) <= |file|)
  }

  lemma SegmentIsLoaded(space: Space, space': Space, file: seq<Byte>, ph: Phdr)
    requires Acceptable(ph, |file|) && AddsSegment(space, space', file, ph)
    ensures Loaded(space', file, ph)
  {
    forall a: nat | ph.vaddr <= a < ph.vaddr + ph.memsz
      ensures ByteOf(space', a) == Some(ImageByte(file, ph, a)) && space'[a / PGSIZE].writable == IsWritable(ph)
    {
      ByteIsLoaded(space, space', file, ph, a);
    }
  }

  lemma ByteIsLoaded(space: Space, space': Space, file: seq<Byte>, ph: Phdr, a: nat)
    requires Acceptable(ph, |file|) && ph.vaddr <= a < ph.vaddr + ph.memsz && AddsSegment(space, space', file, ph)
    ensures ph.offset + ph.filesz <= |file| && a / PGSIZE in space' && space'[a / PGSIZE].writable == IsWritable(ph)
    ensures ByteOf(space', a) == Some(ImageByte(file, ph, a))
  {
    var i, first := a - ph.vaddr, ph.vaddr / PGSIZE;
    SpanFits(ph, |file|);
    assert PGSIZE * (a / PGSIZE - first) + a % PGSIZE == PgOfs(ph.vaddr) + i;
    assert first <= a / PGSIZE < first + SpanBytes(ph) / PGSIZE;
    assert ByteOf(space', a) == Some(SegmentByte(file, PageBase(ph.offset), ReadBytes(ph), PgOfs(ph.vaddr) + i));
  }

  /** Later pages leave a loaded segment alone. */
  lemma StaysLoaded(space: Space, space': Space, file: seq<Byte>, ph: Phdr)
    requires Loaded(space, file, ph) && forall p: nat | p in space :: p in space' && space'[p] == space[p]
    ensures Loaded(space', file, ph)
  {
    forall a: nat | ph.vaddr <= a < ph.vaddr + ph.memsz
      ensures ByteOf(space', a) == Some(ImageByte(file, ph, a)) && space'[a / PGSIZE].writable == IsWritable(ph)
    {
      assert ByteOf(space, a) == Some(ImageByte(file, ph, a));
    }
  }

  // ----- load

  predicate Ignored(kind: nat) { kind != PT_LOAD && kind != PT_DYNAMIC && kind != PT_INTERP && kind != PT_SHLIB }

  /** Program header i of a file whose table is at phoff. */
  function PhdrAt(file: seq<Byte>, phoff: nat, i: nat): Phdr
    requires phoff + PHDR_SIZE * (i + 1) <= |file|
  {
    DecodePhdr(file[phoff + PHDR_SIZE * i..phoff + PHDR_SIZE * i + PHDR_SIZE])
  }

  /** Page p is one of the pages of a loadable segment. */
  predicate Provides(ph: Phdr, p: nat) { ph.kind == PT_LOAD && Covers(ph, p) }

  ghost predicate HeaderDone(space: Space, file: seq<Byte>, ph: Phdr)
  {
    if ph.kind == PT_LOAD then Acceptable(ph, |file|) && Loaded(space, file, ph) else Ignored(ph.kind)
  }

  /** The image of the segments hs: every loadable one is there, each page comes from one of them,
      and none from two. */
  ghost predicate Image(space: Space, file: seq<Byte>, hs: seq<Phdr>)
  {
    && (forall i | 0 <= i < |hs| :: HeaderDone(space, file, hs[i]))
    && (forall i, j, p: nat | 0 <= i < j < |hs| && Provides(hs[i], p) :: !Provides(hs[j], p))
    && forall p: nat :: p in space <==> exists i :: 0 <= i < |hs| && Provides(hs[i], p)
  }

  lemma ImageIgnores(space: Space, file: seq<Byte>, hs: seq<Phdr>, ph: Phdr)
    requires Image(space, file, hs) && Ignored(ph.kind)
    ensures Image(space, file, hs + [ph])
  {
    var hs' := hs + [ph];
    forall p: nat ensures p in space <==> exists i :: 0 <= i < |hs'| && Provides(hs'[i], p) {
      if p in space {
        var i :| 0 <= i < |hs| && Provides(hs[i], p);
        assert Provides(hs'[i], p);
      }
      if i :| 0 <= i < |hs'| && Provides(hs'[i], p) {
        assert i < |hs| && Provides(hs[i], p);
      }
    }
  }

  lemma ImageLoads(space: Space, space': Space, file: seq<Byte>, hs: seq<Phdr>, ph: Phdr)
    requires Image(space, file, hs) && ph.kind == PT_LOAD && Acceptable(ph, |file|) && AddsSegment(space, space', file, ph)
    ensures Image(space', file, hs + [ph])
  {
    var hs' := hs + [ph];
    SegmentIsLoaded(space, space', file, ph);
    forall i | 0 <= i < |hs'| ensures HeaderDone(space', file, hs'[i]) {
      if i < |hs| {
        assert HeaderDone(space, file, hs[i]);
        if hs[i].kind == PT_LOAD { StaysLoaded(space, space', file, hs[i]); }
      }
    }
    forall i, p: nat | 0 <= i < |hs| && Provides(hs[i], p) ensures !Provides(ph, p) {
      assert p in space;
    }
    forall p: nat ensures p in space' <==> exists i :: 0 <= i < |hs'| && Provides(hs'[i], p) {
      if p in space' {
        if p in space {
          var i :| 0 <= i < |hs| && Provides(hs[i], p);
          assert Provides(hs'[i], p);
        } else {
          assert Provides(hs'[|hs|], p);
        }
      }
      if i :| 0 <= i < |hs'| && Provides(hs'[i], p) {
        assert i < |hs| ==> Provides(hs[i], p);
      }
    }
  }

  const STACK_PAGE: nat := 0xb_ffff

  /** The program headers that the executable header announces. */
  ghost predicate AreHeaders(file: seq<Byte>, hs: seq<Phdr>)
  {
    && EHDR_SIZE <= |file| && GoodEhdr(file[..EHDR_SIZE]) && |hs| == PhnumOf(file[..EHDR_SIZE])
    && HeadersFrom(file, PhoffOf(file[..EHDR_SIZE]), hs)
  }

  ghost predicate HeadersFrom(file: seq<Byte>, phoff: int, hs: seq<Phdr>)
  {
    forall i {:trigger hs[i]} | 0 <= i < |hs| :: 0 <= phoff && phoff + PHDR_SIZE * (i + 1) <= |file| && hs[i] == PhdrAt(file, phoff, i)
  }

  /** One program header: ignored, refused, or loaded. */
  method LoadHeader(p: Process, file: seq<Byte>, ph: Phdr, ghost hs: seq<Phdr>) returns (ok: bool)
    requires Image(p.space, file, hs) && InWords(ph) && |file| < 0x8000_0000
    modifies p
    ensures ok ==> Image(p.space, file, hs + [ph])
  {
    if ph.kind == PT_DYNAMIC || ph.kind == PT_INTERP || ph.kind == PT_SHLIB {
      return false;
    }
    if ph.kind != PT_LOAD {
      ImageIgnores(p.space, file, hs, ph);
      return true;
    }
    ok := ValidateSegment(ph, |file|);
    if !ok {
      return false;
    }
    SpanFits(ph, |file|);
    var writable := IsWritable(ph);
    var read_bytes := ReadBytes(ph);
    var zero_bytes := SpanBytes(ph) - read_bytes;
    ghost var before := p.space;
    ok := p.LoadSegment(file, PageBase(ph.offset), PageBase(ph.vaddr), read_bytes, zero_bytes, writable);
    if ok {
      assert PageBase(ph.vaddr) / PGSIZE == ph.vaddr / PGSIZE;
      ImageLoads(before, p.space, file, hs, ph);
    }
  }

  /** setup_stack. */
  method SetupStack(p: Process) returns (ok: bool)
    modifies p
    ensures ok ==> STACK_PAGE !in old(p.space) && p.space == old(p.space)[STACK_PAGE := Page(seq(4096, _ => 0), true)]
    ensures !ok ==> p.space == old(p.space)
  {
    var frame: bool := *;
    ok := false;
    if frame {
      ok := p.InstallPage(PHYS_BASE - PGSIZE, Page(seq(4096, _ => 0), true));
    }
  }

  /** load: after success, user memory is the image of all segments of the file and a stack page of
      zeros, each page mapped once. */
  method Load(p: Process, file: seq<Byte>) returns (ok: bool, entry: nat, ghost hs: seq<Phdr>, ghost image: Space)
    requires p.space == map[] && |file| < 0x8000_0000
    modifies p
    ensures ok ==> AreHeaders(file, hs) && entry == WordAt(file, 24) && Image(image, file, hs)
    ensures ok ==> STACK_PAGE !in image && p.space == image[STACK_PAGE := Page(seq(4096, _ => 0), true)]
  {
    ok, entry, hs, image := false, 0, [], map[];
    var bounce: bool := *;
    var ehdr := FileRead(file, 0, EHDR_SIZE, bounce);
    if |ehdr| != EHDR_SIZE || !GoodEhdr(ehdr) {
      return;
    }
    assert ehdr == file[..EHDR_SIZE];
    var file_ofs := PhoffOf(ehdr);
    var i := 0;
    while i < PhnumOf(ehdr)
      invariant 0 <= i <= PhnumOf(ehdr) && |hs| == i && file_ofs == PhoffOf(ehdr) + PHDR_SIZE * i
      invariant HeadersFrom(file, PhoffOf(ehdr), hs) && Image(p.space, file, hs)
    {
      if file_ofs < 0 || file_ofs > |file| {
        return;
      }
      bounce := *;
      var b := FileRead(file, file_ofs, PHDR_SIZE, bounce);
      if |b| != PHDR_SIZE {
        return;
      }
      var phdr := DecodePhdr(b);
      var done := LoadHeader(p, file, phdr, hs);
      if !done {
        return;
      }
      HeadersNext(file, PhoffOf(ehdr), hs, b);
      hs := hs + [phdr];
      file_ofs := file_ofs + PHDR_SIZE;
      i := i + 1;
    }
    image := p.space;
    ok := SetupStack(p);
    entry := WordAt(ehdr, 24);
  }

  lemma HeadersNext(file: seq<Byte>, phoff: int, hs: seq<Phdr>, b: seq<Byte>)
    requires HeadersFrom(file, phoff, hs) && |b| == PHDR_SIZE && 0 <= phoff + PHDR_SIZE * |hs|
    requires phoff + PHDR_SIZE * |hs| + PHDR_SIZE <= |file|
    requires b == file[phoff + PHDR_SIZE * |hs|..phoff + PHDR_SIZE * |hs| + PHDR_SIZE]
    requires |hs| == 0 ==> 0 <= phoff
    ensures HeadersFrom(file, phoff, hs + [DecodePhdr(b)])
  {
    if |hs| > 0 {
      var first := hs[0];
      assert 0 <= phoff;
    }
    var hs' := hs + [DecodePhdr(b)];
    forall i | 0 <= i < |hs'| ensures 0 <= phoff && phoff + PHDR_SIZE * (i + 1) <= |file| && hs'[i] == PhdrAt(file, phoff, i) {
      if i < |hs| {
        assert hs[i] == PhdrAt(file, phoff, i);
      }
    }
  }
}
