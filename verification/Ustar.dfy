/** The ustar header codec: building and parsing a 512-byte archive header
    (Project2/src/lib/ustar.c), after the "pax" utility of the Single UNIX Specification. */
module Ustar {
  import opened Disk
  import opened Bitmap
  import opened Directory
  import opened Printf
  import opened Nonlinear

  const HEADER_SIZE: int := 512
  const CHKSUM_START: int := 148
  const CHKSUM_END: int := 156
  const ULONG_MAX: int := 0xffff_ffff
  const MTIME: nat := 1136102400

  datatype FileType = Regular | Directory

  datatype Parsed = Eof | File(name: Name, kind: FileType, size: nat) | Failed(error: ParseError)

  datatype ParseError = NotUstar | BadVersion | CorruptChecksum | ChecksumMismatch | NameTooLong
    | UnimplementedType | CorruptSize | FileTooLarge

  // ----- names

  const SLASH: Byte := '/' as int
  const DOT: Byte := '.' as int

  /** The name starts with "/", "./" or "../". */
  predicate Antisocial(name: Name)
  {
    || (|name| >= 1 && name[0] == SLASH)
    || (|name| >= 2 && name[0] == DOT && name[1] == SLASH)
    || (|name| >= 3 && name[0] == DOT && name[1] == DOT && name[2] == SLASH)
  }

  /** A name that stays within the directory it is extracted to, as far as its prefix goes. */
  predicate Safe(name: Name)
  {
    name != [] && name != [DOT, DOT] && !Antisocial(name)
  }

  /** strchr(name, '/') + 1. */
  function AfterSlash(name: Name): (r: Name)
    ensures |r| <= |name| && r == name[|name| - |r|..]
    ensures SLASH in name ==> |r| < |name| && name[|name| - |r| - 1] == SLASH && SLASH !in name[..|name| - |r| - 1]
  {
    if name == [] then [] else if name[0] == SLASH then name[1..] else AfterSlash(name[1..])
  }

  function Stripped(name: Name): (r: Name)
    ensures Safe(r)
    ensures r == [DOT] || (|r| <= |name| && r == name[|name| - |r|..])
    ensures Safe(name) ==> r == name
    decreases |name|
  {
    if Antisocial(name) then
      assert SLASH in name;
      Stripped(AfterSlash(name))
    else if name == [] || name == [DOT, DOT] then [DOT]
    else name
  }

  /** Stripping drops dangerous prefixes only, and stripping again changes nothing. */
  lemma StripIdempotent(name: Name)
    ensures Stripped(Stripped(name)) == Stripped(name)
  {
  }

  method StripAntisocialPrefixes(name0: Name) returns (name: Name)
    ensures name == Stripped(name0)
  {
    name := name0;
    while Antisocial(name)
      invariant Stripped(name) == Stripped(name0)
      decreases |name|
    {
      assert SLASH in name;
      name := AfterSlash(name);
    }
    if name == [] || name == [DOT, DOT] {
      name := [DOT];
    }
  }

  // ----- octal fields

  predicate IsOctal(c: Byte) { '0' as int <= c <= '7' as int }

  predicate OctalDigits(s: seq<Byte>) { forall i | 0 <= i < |s| :: IsOctal(s[i]) }

  function OctalLength(s: seq<Byte>): (n: nat)
    ensures n <= |s| && OctalDigits(s[..n]) && (n < |s| ==> !IsOctal(s[n]))
  {
    if s != [] && IsOctal(s[0]) then 1 + OctalLength(s[1..]) else 0
  }

  /** The value of an octal field: some octal digits, a space or null after them, and an unsigned
      long for a value. */
  function OctalField(s: seq<Byte>): Option<nat>
  {
    var n := OctalLength(s);
    if n == 0 || n == |s| || (s[n] != 32 && s[n] != 0) || Number(s[..n], 8) > ULONG_MAX then None
    else Some(Number(s[..n], 8))
  }

  lemma {:induction false} NumberGrows(s: seq<Byte>, i: nat)
    requires OctalDigits(s) && i <= |s|
    ensures Number(s[..i], 8) <= Number(s, 8)
  {
    if i == |s| {
      assert s[..i] == s;
    } else {
      NumberGrows(s[..|s| - 1], i);
      assert s[..|s| - 1][..i] == s[..i];
    }
  }

  lemma PrefixDigits(s: seq<Byte>, n: nat)
    requires n <= |s| && OctalDigits(s[..n])
    ensures forall i | 0 <= i < n :: IsOctal(s[i])
  {
    forall i | 0 <= i < n ensures IsOctal(s[i]) {
      assert s[i] == s[..n][i];
    }
  }

  lemma OctalLengthIs(s: seq<Byte>, n: nat)
    requires n <= |s| && OctalDigits(s[..n]) && (n < |s| ==> !IsOctal(s[n]))
    ensures OctalLength(s) == n
  {
    PrefixDigits(s, n);
    PrefixDigits(s, OctalLength(s));
  }

  /** One more octal digit fits an unsigned long exactly if the value so far passes the test. */
  method ParseOctalField(s: seq<Byte>) returns (value: Option<nat>)
    ensures value == OctalField(s)
  {
    var v: nat := 0;
    var ofs := 0;
    while ofs < |s|
      invariant 0 <= ofs <= |s| && OctalDigits(s[..ofs]) && v == Number(s[..ofs], 8) <= ULONG_MAX
    {
      var c := s[ofs];
      if IsOctal(c) {
        NextOctal(s, ofs);
        if v > ULONG_MAX / 8 {
          return None;
        }
        v := c - '0' as int + v * 8;
      } else {
        OctalLengthIs(s, ofs);
        if c == 32 || c == 0 {
          return if ofs > 0 then Some(v) else None;
        }
        return None;
      }
      ofs := ofs + 1;
    }
    assert s[..ofs] == s;
    OctalLengthIs(s, |s|);
    value := None;
  }

  lemma NextOctal(s: seq<Byte>, i: nat)
    requires i < |s| && OctalDigits(s[..i]) && IsOctal(s[i])
    ensures OctalDigits(s[..i + 1]) && Number(s[..i + 1], 8) == Number(s[..i], 8) * 8 + (s[i] - '0' as int)
    ensures Number(s[..i + 1], 8) > ULONG_MAX ==> OctalField(s).None?
  {
    assert s[..i + 1] == s[..i] + [s[i]];
    NumberOneMore(s[..i], s[i], 8);
    var n := OctalLength(s);
    PrefixDigits(s, i + 1);
    NumberGrows(s[..n], if i + 1 <= n then i + 1 else 0);
    assert i + 1 <= n ==> s[..n][..i + 1] == s[..i + 1];
  }

  // ----- printing octal

  const MODE := Conversion(false, false, false, false, true, false, 7, -1)
  const LONG_FIELD := Conversion(false, false, false, false, true, false, 11, -1)

  /** The number has no more octal digits than the format pads to. */
  predicate FitsField(value: nat, c: Conversion)
  {
    (c == MODE && value < 0x20_0000) || (c == LONG_FIELD && value < 0x1_0000_0000)
  }

  /** snprintf of an octal number into a field: all that fits, and a null character. */
  function Snprintf(text: seq<Byte>, size: nat): (r: seq<Byte>)
    requires size > 0
    ensures |r| <= size
  {
    (if |text| < size then text else text[..size - 1]) + [0]
  }

  lemma {:induction false} OctalText(value: nat, done: nat, n: nat)
    requires value < Pow2(3 * n)
    ensures OctalDigits(DigitsFrom(value, done, OCTAL, false)) && |DigitsFrom(value, done, OCTAL, false)| <= n
  {
    if value > 0 {
      assert n > 0;
      EightTimes(n);
      OctalText(value / 8, done + 1, n - 1);
    }
  }

  lemma {:induction false} ReverseOctal(s: seq<Byte>)
    requires OctalDigits(s)
    ensures OctalDigits(Reverse(s))
  {
    if s != [] {
      ReverseOctal(s[1..]);
    }
  }

  /** "%07o" and "%011o" print numbers that fit as exactly that many octal digits. */
  lemma OctalRendering(value: nat, c: Conversion)
    requires FitsField(value, c)
    ensures var text := Rendering(value, false, false, OCTAL, c);
      |text| == c.width && OctalDigits(text) && Number(text, 8) == value
  {
    var body := Reverse(Buffer(value, OCTAL, c));
    var zeros := Repeat('0' as int, c.width - |body|);
    OctalBody(value, c);
    ZeroPadded(value, c);
    LeadingZeros(|zeros|, body, 8);
  }

  lemma OctalBody(value: nat, c: Conversion)
    requires FitsField(value, c)
    ensures var body := Reverse(Buffer(value, OCTAL, c));
      OctalDigits(body) && |body| <= c.width && Number(body, 8) == value
  {
    EnoughDigits(c.width);
    OctalText(value, 0, c.width);
    ReverseOctal(Buffer(value, OCTAL, c));
    BodyReads(value, OCTAL, c);
  }

  lemma ZeroPadded(value: nat, c: Conversion)
    requires (c == MODE || c == LONG_FIELD) && |Buffer(value, OCTAL, c)| <= c.width
    ensures var body := Reverse(Buffer(value, OCTAL, c));
      Rendering(value, false, false, OCTAL, c) == Repeat('0' as int, c.width - |body|) + body
  {
  }

  lemma EnoughDigits(n: nat)
    ensures n == 7 ==> Pow2(3 * n) == 0x20_0000
    ensures n == 11 ==> Pow2(3 * n) >= 0x1_0000_0000
  {
    var byte: nat := 8;
    assert Pow2(byte) == 0x100;
    Pow2Add(byte, byte);
    Pow2Add(byte + byte, byte + byte);
    assert Pow2(3) == 8;
    Pow2Add(16, 3);
    Pow2Add(19, 2);
    Pow2Add(32, 1);
  }

  /** What a header field printed with "%07o" or "%011o" says when it is parsed again. */
  lemma OctalFieldRoundTrip(value: nat, c: Conversion)
    requires FitsField(value, c)
    ensures var text := Rendering(value, false, false, OCTAL, c);
      && Snprintf(text, c.width + 1) == text + [0] && |text| == c.width
      && OctalField(text + [0]) == Some(value)
  {
    var text := Rendering(value, false, false, OCTAL, c);
    OctalRendering(value, c);
    assert (text + [0])[..|text|] == text;
    OctalLengthIs(text + [0], |text|);
  }

  // ----- the header

  function Slice(s: seq<Byte>, at: nat, n: nat): (r: seq<Byte>)
    requires at + n <= |s|
    ensures |r| == n
  {
    s[at..at + n]
  }

  function Zeros(n: nat): (r: seq<Byte>)
    ensures |r| == n
  {
    Repeat(0, n)
  }

  /** What strlcpy leaves in a field of zeros. */
  function Padded(text: seq<Byte>, size: nat): (r: seq<Byte>)
    requires size > 0
    ensures |r| == size
  {
    if |text| < size then text + Zeros(size - |text|) else text[..size - 1] + [0]
  }

  const USTAR: Name := ['u' as int, 's' as int, 't' as int, 'a' as int, 'r' as int]
  const ROOT: Name := ['r' as int, 'o' as int, 'o' as int, 't' as int]

  function Octal(value: nat, c: Conversion): seq<Byte>
  {
    Snprintf(Rendering(value, false, false, OCTAL, c), if c.width < 0 then 1 else c.width + 1)
  }

  function TypeFlag(kind: FileType): Byte { if kind.Regular? then '0' as int else '5' as int }

  /** An int passed to %o. */
  function AsUnsigned(x: Int32): nat { if x < 0 then x as int + 0x1_0000_0000 else x as int }

  ghost predicate FrontFields(h: seq<Byte>, name: Name, kind: FileType, size: Int32)
    requires |h| == 512
  {
    && Slice(h, 0, 100) == Padded(name, 100)
    && Slice(h, 100, 8) == Octal(if kind.Regular? then 0x1a4 else 0x1ed, MODE)
    && Slice(h, 108, 8) == Padded(Repeat('0' as int, 7), 8) && Slice(h, 116, 8) == Padded(Repeat('0' as int, 7), 8)
    && Slice(h, 124, 12) == Octal(AsUnsigned(size), LONG_FIELD)
    && Slice(h, 136, 12) == Octal(MTIME, LONG_FIELD)
  }

  ghost predicate BackFields(h: seq<Byte>, kind: FileType)
    requires |h| == 512
  {
    && Slice(h, 156, 1) == [TypeFlag(kind)] && Slice(h, 157, 100) == Zeros(100)
    && Slice(h, 257, 6) == Padded(USTAR, 6) && Slice(h, 263, 2) == ['0' as int, '0' as int]
    && Slice(h, 265, 32) == Padded(ROOT, 32) && Slice(h, 297, 32) == Padded(ROOT, 32)
    && Slice(h, 329, 183) == Zeros(183)
  }

  /** All 512 bytes of the header of a file. */
  ghost predicate IsHeader(h: seq<Byte>, name: Name, kind: FileType, size: Int32)
  {
    |h| == 512 && FrontFields(h, name, kind, size) && BackFields(h, kind)
    && Slice(h, 148, 8) == Octal(Checksum(h, 512), MODE)
  }

  // ----- the checksum

  /** Sum of the first n bytes, with the checksum field read as spaces. */
  function Checksum(h: seq<Byte>, n: nat): (sum: nat)
    requires n <= |h|
    ensures sum <= 255 * n
  {
    if n == 0 then 0
    else Checksum(h, n - 1) + if CHKSUM_START <= n - 1 < CHKSUM_END then 32 else h[n - 1]
  }

  /** The checksum does not depend on the checksum field. */
  lemma {:induction false} ChecksumIgnoresItself(h: seq<Byte>, h': seq<Byte>, n: nat)
    requires |h| == |h'| && n <= |h|
    requires forall i | 0 <= i < n && !(CHKSUM_START <= i < CHKSUM_END) :: h[i] == h'[i]
    ensures Checksum(h, n) == Checksum(h', n)
  {
    if n > 0 {
      ChecksumIgnoresItself(h, h', n - 1);
    }
  }

  method CalculateChksum(h: array<Byte>) returns (chksum: nat)
    requires h.Length == HEADER_SIZE
    ensures chksum == Checksum(h[..], 512)
  {
    chksum := 0;
    for i := 0 to HEADER_SIZE
      invariant chksum == Checksum(h[..], i)
    {
      var in_chksum_field := i >= CHKSUM_START && i < CHKSUM_END;
      chksum := chksum + if in_chksum_field then 32 else h[i];
    }
  }

  // ----- building a header

  ghost predicate KeepsElsewhere(s: seq<Byte>, s': seq<Byte>, at: nat, n: nat)
    requires |s'| == |s|
  {
    forall a: nat, m: nat {:trigger Slice(s', a, m)} | a + m <= |s| && (a + m <= at || at + n <= a) :: Slice(s', a, m) == Slice(s, a, m)
  }

  method Store(h: array<Byte>, at: nat, bytes: seq<Byte>)
    requires at + |bytes| <= h.Length
    modifies h
    ensures Slice(h[..], at, |bytes|) == bytes
    ensures KeepsElsewhere(old(h[..]), h[..], at, |bytes|)
  {
    for i := 0 to |bytes|
      invariant forall k | 0 <= k < h.Length :: h[k] == if at <= k < at + i then bytes[k - at] else old(h[k])
    {
      h[at + i] := bytes[i];
    }
    ghost var s, s' := old(h[..]), h[..];
    forall a: nat, m: nat | a + m <= |s| && (a + m <= at || at + |bytes| <= a) ensures Slice(s', a, m) == Slice(s, a, m) {
    }
  }

  /** strlcpy into a field of zeros. */
  method Strlcpy(h: array<Byte>, at: nat, size: nat, text: seq<Byte>)
    requires at + size <= h.Length && |text| < size && Slice(h[..], at, size) == Zeros(size)
    modifies h
    ensures Slice(h[..], at, size) == Padded(text, size)
    ensures KeepsElsewhere(old(h[..]), h[..], at, size)
  {
    ghost var s := h[..];
    Store(h, at, text + [0]);
    ghost var s' := h[..];
    var n := |text| + 1;
    assert Slice(s', at + n, size - n) == Slice(s, at + n, size - n) == Slice(s, at, size)[n..];
    assert Slice(s', at, size) == Slice(s', at, n) + Slice(s', at + n, size - n);
    assert Zeros(size - |text|) == [0] + Zeros(size - n);
    assert Zeros(size)[n..] == Zeros(size - n);
  }

  /** snprintf of an octal number into its field. */
  method StoreOctal(h: array<Byte>, at: nat, value: nat, c: Conversion)
    requires FitsField(value, c) && at + c.width + 1 <= h.Length
    modifies h
    ensures Slice(h[..], at, c.width + 1) == Octal(value, c) && KeepsElsewhere(old(h[..]), h[..], at, c.width + 1)
  {
    var text := FormatInteger(value, false, false, OCTAL, c);
    OctalFieldRoundTrip(value, c);
    Store(h, at, Snprintf(text, c.width + 1));
  }

  /** The fields up to the modification time, in an array of zeros. */
  method FillFront(h: array<Byte>, name: Name, kind: FileType, size: Int32)
    requires h.Length == HEADER_SIZE && Slice(h[..], 0, 512) == Zeros(512) && |name| <= 99
    modifies h
    ensures FrontFields(h[..], name, kind, size) && Slice(h[..], 156, 356) == Zeros(356)
  {
    ghost var s := h[..];
    SubSlice(s, 0, 512, 0, 100);
    SubSlice(s, 0, 512, 100, 24);
    SubSlice(s, 0, 512, 156, 356);
    Strlcpy(h, 0, 100, name);
    FillOwner(h, kind);
    FillNumbers(h, AsUnsigned(size));
  }

  method FillOwner(h: array<Byte>, kind: FileType)
    requires h.Length == HEADER_SIZE && Slice(h[..], 100, 24) == Zeros(24)
    modifies h
    ensures Slice(h[..], 100, 8) == Octal(if kind.Regular? then 0x1a4 else 0x1ed, MODE)
    ensures Slice(h[..], 108, 8) == Padded(Repeat('0' as int, 7), 8) && Slice(h[..], 116, 8) == Padded(Repeat('0' as int, 7), 8)
    ensures KeepsElsewhere(old(h[..]), h[..], 100, 24)
  {
    SubSlice(h[..], 100, 24, 108, 8);
    SubSlice(h[..], 100, 24, 116, 8);
    StoreOctal(h, 100, if kind.Regular? then 0x1a4 else 0x1ed, MODE);
    Strlcpy(h, 108, 8, Repeat('0' as int, 7));
    Strlcpy(h, 116, 8, Repeat('0' as int, 7));
  }

  method FillNumbers(h: array<Byte>, size: nat)
    requires h.Length == HEADER_SIZE && size < 0x1_0000_0000
    modifies h
    ensures Slice(h[..], 124, 12) == Octal(size, LONG_FIELD) && Slice(h[..], 136, 12) == Octal(MTIME, LONG_FIELD)
    ensures KeepsElsewhere(old(h[..]), h[..], 124, 24)
  {
    StoreOctal(h, 124, size, LONG_FIELD);
    StoreOctal(h, 136, MTIME, LONG_FIELD);
  }

  /** The fields from the type on. */
  method FillBack(h: array<Byte>, kind: FileType)
    requires h.Length == HEADER_SIZE && Slice(h[..], 156, 356) == Zeros(356)
    modifies h
    ensures BackFields(h[..], kind) && KeepsElsewhere(old(h[..]), h[..], 156, 356)
  {
    ghost var s := h[..];
    SubSlice(s, 156, 356, 157, 100);
    SubSlice(s, 156, 356, 257, 6);
    SubSlice(s, 156, 356, 265, 32);
    SubSlice(s, 156, 356, 297, 32);
    SubSlice(s, 156, 356, 329, 183);
    Store(h, 156, [TypeFlag(kind)]);
    Strlcpy(h, 257, 6, USTAR);
    Store(h, 263, ['0' as int, '0' as int]);
    Strlcpy(h, 297, 32, ROOT);
    Strlcpy(h, 265, 32, ROOT);
  }

  lemma SubSlice(s: seq<Byte>, at: nat, n: nat, at': nat, n': nat)
    requires at <= at' && at' + n' <= at + n <= |s| && Slice(s, at, n) == Zeros(n)
    ensures Slice(s, at', n') == Zeros(n')
  {
    forall i | 0 <= i < n' ensures Slice(s, at', n')[i] == 0 {
      assert Slice(s, at, n)[at' - at + i] == s[at' + i];
    }
  }

  /** ustar_make_header: refuses exactly the names that strip to more than 99 characters. */
  method MakeHeader(name0: Name, kind: FileType, size: Int32, h: array<Byte>) returns (ok: bool)
    requires h.Length == HEADER_SIZE
    modifies h
    ensures ok <==> |Stripped(name0)| <= 99
    ensures if ok then IsHeader(h[..], Stripped(name0), kind, size) else h[..] == old(h[..])
  {
    var name := StripAntisocialPrefixes(name0);
    if |name| > 99 {
      return false;
    }
    forall i | 0 <= i < HEADER_SIZE {
      h[i] := 0;
    }
    assert Slice(h[..], 0, 512) == Zeros(512);
    FillFront(h, name, kind, size);
    FillBack(h, kind);
    ghost var s := h[..];
    var chksum := CalculateChksum(h);
    StoreOctal(h, 148, chksum, MODE);
    ElsewhereBytes(s, h[..]);
    ChecksumIgnoresItself(s, h[..], 512);
    ok := true;
  }

  lemma ElsewhereBytes(s: seq<Byte>, s': seq<Byte>)
    requires |s| == |s'| == 512 && KeepsElsewhere(s, s', 148, 8)
    ensures forall i | 0 <= i < 512 && !(148 <= i < 156) :: s[i] == s'[i]
  {
    forall i | 0 <= i < 512 && !(148 <= i < 156) ensures s[i] == s'[i] {
      assert Slice(s', i, 1) == Slice(s, i, 1);
      assert s[i] == Slice(s, i, 1)[0] && s'[i] == Slice(s', i, 1)[0];
    }
  }

  // ----- parsing a header

  /** What a header says, or why it is refused. */
  function Parse(h: seq<Byte>): Parsed
    requires |h| == 512
  {
    if h == Zeros(512) then Eof
    else if Slice(h, 257, 6) != USTAR + [0] then Failed(NotUstar)
    else if Slice(h, 263, 2) != ['0' as int, '0' as int] then Failed(BadVersion)
    else if OctalField(Slice(h, 148, 8)).None? then Failed(CorruptChecksum)
    else if OctalField(Slice(h, 148, 8)) != Some(Checksum(h, 512)) then Failed(ChecksumMismatch)
    else if h[99] != 0 || h[345] != 0 then Failed(NameTooLong)
    else if h[156] != '0' as int && h[156] != '5' as int then Failed(UnimplementedType)
    else Described(h)
  }

  /** What a header without faults describes, but for its size. */
  function Described(h: seq<Byte>): Parsed
    requires |h| == 512
  {
    if h[156] == '5' as int then File(Stripped(CString(Slice(h, 0, 100))), Directory, 0)
    else
      var size := OctalField(Slice(h, 124, 12));
      if size.None? then Failed(CorruptSize)
      else if size.value > INT_MAX then Failed(FileTooLarge)
      else File(Stripped(CString(Slice(h, 0, 100))), Regular, size.value)
  }

  method IsAllZeros(h: seq<Byte>) returns (r: bool)
    ensures r <==> h == Zeros(|h|)
  {
    var i := 0;
    while i < |h|
      invariant 0 <= i <= |h| && forall j | 0 <= j < i :: h[j] == 0
    {
      if h[i] != 0 {
        return false;
      }
      i := i + 1;
    }
    r := true;
  }

  method ParseHeader(header: array<Byte>) returns (r: Parsed)
    requires header.Length == HEADER_SIZE
    ensures r == Parse(header[..])
  {
    var h := header[..];
    var zero := IsAllZeros(h);
    assert |h| == 512;
    if zero {
      return Eof;
    }
    if Slice(h, 257, 6) != USTAR + [0] {
      return Failed(NotUstar);
    } else if Slice(h, 263, 2) != ['0' as int, '0' as int] {
      return Failed(BadVersion);
    }
    var chksum := ParseOctalField(Slice(h, 148, 8));
    if chksum.None? {
      return Failed(CorruptChecksum);
    }
    var sum := CalculateChksum(header);
    if chksum.value != sum {
      return Failed(ChecksumMismatch);
    } else if h[99] != 0 || h[345] != 0 {
      return Failed(NameTooLong);
    } else if h[156] != '0' as int && h[156] != '5' as int {
      return Failed(UnimplementedType);
    }
    r := Describe(h);
  }

  /** The size and the name. */
  method Describe(h: seq<Byte>) returns (r: Parsed)
    requires |h| == 512 && (h[156] == '0' as int || h[156] == '5' as int)
    ensures r == Described(h)
  {
    var size := Some(0);
    if h[156] == '0' as int {
      size := ParseOctalField(Slice(h, 124, 12));
      if size.None? {
        return Failed(CorruptSize);
      } else if size.value > INT_MAX {
        return Failed(FileTooLarge);
      }
    }
    var name := StripAntisocialPrefixes(CString(Slice(h, 0, 100)));
    r := File(name, if h[156] == '0' as int then Regular else Directory, size.value);
  }

  // ----- the round trip

  lemma NameField(name: Name)
    requires |name| <= 99
    ensures CString(Padded(name, 100)) == name && Padded(name, 100)[99] == 0
  {
    CStringIs(Padded(name, 100), name);
  }

  lemma ByteAt(h: seq<Byte>, at: nat, n: nat, i: nat)
    requires at + n <= |h| && i < n
    ensures h[at + i] == Slice(h, at, n)[i]
  {
  }

  /** Parsing a header that ustar_make_header built gives back the stripped name, the type, and the
      size (0 for directories), unless the size of a regular file was negative. */
  lemma ParseUndoesMake(h: seq<Byte>, name0: Name, kind: FileType, size: Int32)
    requires |Stripped(name0)| <= 99 && IsHeader(h, Stripped(name0), kind, size)
    ensures Parse(h) == if kind.Directory? then File(Stripped(name0), Directory, 0)
                        else if size < 0 then Failed(FileTooLarge)
                        else File(Stripped(name0), Regular, size as int)
  {
    var name := Stripped(name0);
    HeaderBytes(h, name, kind, size);
    OctalFieldRoundTrip(Checksum(h, 512), MODE);
    DescribesBuilt(h, name0, kind, size);
  }

  lemma DescribesBuilt(h: seq<Byte>, name0: Name, kind: FileType, size: Int32)
    requires |Stripped(name0)| <= 99 && |h| == 512 && FrontFields(h, Stripped(name0), kind, size) && h[156] == TypeFlag(kind)
    ensures Described(h) == if kind.Directory? then File(Stripped(name0), Directory, 0)
                            else if size < 0 then Failed(FileTooLarge)
                            else File(Stripped(name0), Regular, size as int)
  {
    OctalFieldRoundTrip(AsUnsigned(size), LONG_FIELD);
    NameField(Stripped(name0));
    StripIdempotent(name0);
  }

  lemma HeaderBytes(h: seq<Byte>, name: Name, kind: FileType, size: Int32)
    requires |name| <= 99 && IsHeader(h, name, kind, size)
    ensures h != Zeros(512) && Slice(h, 257, 6) == USTAR + [0]
    ensures h[99] == 0 && h[345] == 0 && h[156] == TypeFlag(kind)
  {
    NameField(name);
    ByteAt(h, 0, 100, 99);
    BackBytes(h, kind);
    NotAllZeros(h, 156);
  }

  lemma BackBytes(h: seq<Byte>, kind: FileType)
    requires |h| == 512 && BackFields(h, kind)
    ensures h[345] == 0 && h[156] == TypeFlag(kind) && Slice(h, 257, 6) == USTAR + [0]
  {
    ByteAt(h, 329, 183, 16);
    ByteAt(h, 156, 1, 0);
    assert Padded(USTAR, 6) == USTAR + [0];
  }

  lemma NotAllZeros(h: seq<Byte>, i: nat)
    requires i < |h| && h[i] != 0
    ensures h != Zeros(|h|)
  {
    assert Zeros(|h|)[i] == 0;
  }
}
