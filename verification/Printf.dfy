/** Integer formatting into a 64-byte buffer and atoi, which reads the digits back
    (Project2/src/lib/stdio.c, Project2/src/lib/stdlib.c).  Characters are their codes. */
module Printf {
  import opened Disk
  import opened Nonlinear

  const BUFFER_SIZE: int := 64
  const INT_MIN: int := -0x8000_0000
  const INT_MAX: int := 0x7fff_ffff
  const UINTMAX: int := 0xffff_ffff_ffff_ffff

  /** struct integer_base: x is 0 except for hexadecimal. */
  datatype Base = Base(base: nat, x: Byte, group: nat)

  const DECIMAL := Base(10, 0, 3)
  const OCTAL := Base(8, 0, 3)
  const HEX := Base(16, 'x' as int, 4)
  const HEX_UPPER := Base(16, 'X' as int, 4)

  predicate Known(b: Base) { b == DECIMAL || b == OCTAL || b == HEX || b == HEX_UPPER }

  /** struct printf_conversion: flags, minimum width, and precision (negative when absent). */
  datatype Conversion = Conversion(minus: bool, plus: bool, space: bool, pound: bool, zero: bool, group: bool,
                                   width: int, precision: int)

  function Digit(b: Base, d: nat): Byte
    requires d < b.base <= 16
  {
    if d < 10 then 48 + d else if b.x == 'X' as int then 55 + d else 87 + d
  }

  function DigitValue(c: Byte): nat
  {
    if c < 58 then (if c < 48 then 0 else c - 48) else if c < 87 then c - 55 else c - 87
  }

  // ----- what is printed

  function Repeat(c: Byte, n: int): (r: seq<Byte>)
    ensures |r| == if n < 0 then 0 else n
    ensures forall i | 0 <= i < |r| :: r[i] == c
  {
    if n <= 0 then [] else seq(n, _ => c)
  }

  function Reverse(s: seq<Byte>): (r: seq<Byte>)
    ensures |r| == |s|
  {
    if s == [] then [] else Reverse(s[1..]) + [s[0]]
  }

  /** The digits of value, least significant first; `done` digits came before. */
  function DigitsFrom(value: nat, done: nat, b: Base, grouped: bool): (r: seq<Byte>)
    requires Known(b)
  {
    if value == 0 then []
    else
      Separator(done, b, grouped) + [Digit(b, value % b.base)] + DigitsFrom(value / b.base, done + 1, b, grouped)
  }

  function Separator(done: nat, b: Base, grouped: bool): seq<Byte>
    requires Known(b)
  {
    if grouped && done > 0 && done % b.group == 0 then [',' as int] else []
  }

  /** Zeros appended to reach the precision, as far as the buffer allows. */
  function Precise(s: seq<Byte>, precision: int): seq<Byte>
  {
    var want := if precision < 0 then 1 else precision;
    s + Repeat('0' as int, (if want < BUFFER_SIZE - 1 then want else BUFFER_SIZE - 1) - |s|)
  }

  /** The buffer when the digits are complete, least significant first. */
  function Buffer(value: nat, b: Base, c: Conversion): seq<Byte>
    requires Known(b)
  {
    var s := Precise(DigitsFrom(value, 0, b, c.group), c.precision);
    if c.pound && b.base == 8 && (s == [] || s[|s| - 1] != '0' as int) then s + ['0' as int] else s
  }

  function Sign(signed: bool, negative: bool, c: Conversion): seq<Byte>
  {
    if !signed then []
    else if negative then ['-' as int]
    else if c.plus then ['+' as int]
    else if c.space then [' ' as int]
    else []
  }

  function Prefix(value: nat, b: Base, c: Conversion): seq<Byte>
  {
    if c.pound && value != 0 && b.x != 0 then ['0' as int, b.x] else []
  }

  function Padding(value: nat, signed: bool, negative: bool, b: Base, c: Conversion): int
    requires Known(b)
  {
    c.width - |Buffer(value, b, c)| - |Prefix(value, b, c)| - |Sign(signed, negative, c)|
  }

  /** What comes before the digits. */
  function LeadIn(value: nat, signed: bool, negative: bool, b: Base, c: Conversion): seq<Byte>
    requires Known(b)
  {
    var pad := Padding(value, signed, negative, b, c);
    Repeat(' ' as int, if c.minus || c.zero then 0 else pad)
    + Sign(signed, negative, c) + Prefix(value, b, c)
    + Repeat('0' as int, if c.zero then pad else 0)
  }

  /** Everything format_integer outputs. */
  function Rendering(value: nat, signed: bool, negative: bool, b: Base, c: Conversion): seq<Byte>
    requires Known(b)
  {
    LeadIn(value, signed, negative, b, c) + Reverse(Buffer(value, b, c))
    + Repeat(' ' as int, if c.minus then Padding(value, signed, negative, b, c) else 0)
  }

  // ----- the program

  lemma EightTimes(n: nat)
    requires n > 0
    ensures Pow2(3 * n) == 8 * Pow2(3 * (n - 1))
  {
    var m := 3 * (n - 1);
    assert Pow2(m + 3) == 2 * Pow2(m + 2) && Pow2(m + 2) == 2 * Pow2(m + 1);
  }

  lemma {:induction false} DigitsFit(value: nat, done: nat, b: Base, grouped: bool, n: nat)
    requires Known(b) && value < Pow2(3 * n)
    ensures |DigitsFrom(value, done, b, grouped)| <= 2 * n
  {
    if value > 0 {
      assert n > 0;
      EightTimes(n);
      assert value / b.base <= value / 8;
      DigitsFit(value / b.base, done + 1, b, grouped, n - 1);
    }
  }

  lemma WordDigitsFit(value: nat, b: Base, grouped: bool)
    requires Known(b) && value <= UINTMAX
    ensures |DigitsFrom(value, 0, b, grouped)| <= 44
  {
    var byte: nat, word: nat, n: nat := 8, 32, 64;
    assert Pow2(byte) == 0x100;
    Pow2Add(byte, byte);
    assert Pow2(byte + byte) == 0x1_0000;
    Pow2Add(byte + byte, byte + byte);
    Pow2Add(word, word);
    assert Pow2(n) > UINTMAX;
    Pow2Add(n, 2);
    DigitsFit(value, 0, b, grouped, 22);
  }

  /** Every write to the buffer is in bounds, whatever the value, base, flags and precision. */
  method FormatInteger(value: nat, signed: bool, negative: bool, b: Base, c: Conversion) returns (out: seq<Byte>)
    requires value <= UINTMAX && Known(b)
    ensures out == Rendering(value, signed, negative, b, c)
  {
    var buf := new Byte[BUFFER_SIZE];
    var cp := AccumulateDigits(buf, value, b, c);
    cp := FillPrecision(buf, cp, c, b);
    out := Emit(buf, cp, value, signed, negative, b, c);
  }

  /** `done` digits are in the buffer, and those of `value` are still to come. */
  ghost predicate Accumulated(all: seq<Byte>, buf: seq<Byte>, value: nat, done: nat, b: Base, grouped: bool)
    requires Known(b)
  {
    all == buf + DigitsFrom(value, done, b, grouped)
  }

  lemma AccumulateOne(all: seq<Byte>, buf: seq<Byte>, value: nat, done: nat, b: Base, grouped: bool)
    requires Known(b) && value > 0 && Accumulated(all, buf, value, done, b, grouped)
    ensures Accumulated(all, buf + Separator(done, b, grouped) + [Digit(b, value % b.base)], value / b.base, done + 1, b, grouped)
  {
  }

  method AccumulateDigits(buf: array<Byte>, value0: nat, b: Base, c: Conversion) returns (cp: nat)
    requires value0 <= UINTMAX && Known(b) && buf.Length == BUFFER_SIZE
    modifies buf
    ensures cp <= 44 && buf[..cp] == DigitsFrom(value0, 0, b, c.group)
  {
    cp := 0;
    var value: nat, digit_cnt := value0, 0;
    WordDigitsFit(value0, b, c.group);
    ghost var all := DigitsFrom(value0, 0, b, c.group);
    while value > 0
      invariant 0 <= cp <= 44 && Accumulated(all, buf[..cp], value, digit_cnt, b, c.group)
    {
      ghost var before := buf[..cp];
      if c.group && digit_cnt > 0 && digit_cnt % b.group == 0 {
        cp := Put(buf, cp, ',' as int);
      }
      assert buf[..cp] == before + Separator(digit_cnt, b, c.group);
      AccumulateOne(all, before, value, digit_cnt, b, c.group);
      cp := Put(buf, cp, Digit(b, value % b.base));
      value := value / b.base;
      digit_cnt := digit_cnt + 1;
    }
    assert all == buf[..cp];
  }

  method Put(buf: array<Byte>, cp0: nat, ch: Byte) returns (cp: nat)
    requires cp0 < buf.Length
    modifies buf
    ensures cp == cp0 + 1 && buf[..cp] == old(buf[..cp0]) + [ch]
  {
    buf[cp0] := ch;
    cp := cp0 + 1;
  }

  /** Zeros up to the precision, and the leading zero of an octal number. */
  method FillPrecision(buf: array<Byte>, cp0: nat, c: Conversion, b: Base) returns (cp: nat)
    requires buf.Length == BUFFER_SIZE && cp0 <= 44
    modifies buf
    ensures cp <= BUFFER_SIZE
    ensures var s := Precise(old(buf[..cp0]), c.precision);
      buf[..cp] == if c.pound && b.base == 8 && (s == [] || s[|s| - 1] != '0' as int) then s + ['0' as int] else s
  {
    cp := cp0;
    var precision := if c.precision < 0 then 1 else c.precision;
    while cp < precision && cp < BUFFER_SIZE - 1
      invariant cp0 <= cp <= BUFFER_SIZE - 1 && (cp > cp0 ==> cp <= precision)
      invariant buf[..cp] == old(buf[..cp0]) + Repeat('0' as int, cp - cp0)
    {
      buf[cp] := '0' as int;
      cp := cp + 1;
    }
    assert buf[..cp] == Precise(old(buf[..cp0]), c.precision);
    if c.pound && b.base == 8 && (cp == 0 || buf[cp - 1] != '0' as int) {
      buf[cp] := '0' as int;
      cp := cp + 1;
    }
  }

  /** Padding, sign, prefix, and the buffer from its end to its start. */
  method Emit(buf: array<Byte>, cp: nat, value: nat, signed: bool, negative: bool, b: Base, c: Conversion)
    returns (out: seq<Byte>)
    requires buf.Length == BUFFER_SIZE && cp <= BUFFER_SIZE && Known(b) && buf[..cp] == Buffer(value, b, c)
    ensures out == Rendering(value, signed, negative, b, c)
  {
    var pad_cnt;
    out, pad_cnt := EmitLeadIn(cp, value, signed, negative, b, c);
    out := EmitDigits(out, buf, cp);
    if c.minus {
      out := OutputDup(out, ' ' as int, pad_cnt);
    }
  }

  method EmitDigits(out0: seq<Byte>, buf: array<Byte>, cp0: nat) returns (out: seq<Byte>)
    requires cp0 <= buf.Length
    ensures out == out0 + Reverse(buf[..cp0])
  {
    var cp := cp0;
    out := out0;
    while cp > 0
      invariant 0 <= cp <= cp0 && out0 + Reverse(buf[..cp0]) == out + Reverse(buf[..cp])
    {
      cp := cp - 1;
      ReverseLast(buf[..cp + 1]);
      assert buf[..cp + 1][..cp] == buf[..cp];
      out := out + [buf[cp]];
    }
  }

  method SignCharacter(signed: bool, negative: bool, c: Conversion) returns (sign: Byte)
    ensures Sign(signed, negative, c) == if sign != 0 then [sign] else []
  {
    sign := 0;
    if signed {
      if c.plus {
        sign := if negative then '-' as int else '+' as int;
      } else if c.space {
        sign := if negative then '-' as int else ' ' as int;
      } else if negative {
        sign := '-' as int;
      }
    }
  }

  method EmitPrefix(out0: seq<Byte>, value: nat, b: Base, c: Conversion) returns (out: seq<Byte>)
    ensures out == out0 + Prefix(value, b, c)
  {
    var x := if c.pound && value != 0 then b.x else 0;
    out := out0;
    if x != 0 {
      out := out + ['0' as int];
      out := out + [x];
    }
  }

  method EmitLeadIn(cp: nat, value: nat, signed: bool, negative: bool, b: Base, c: Conversion)
    returns (out: seq<Byte>, pad_cnt: nat)
    requires Known(b) && cp == |Buffer(value, b, c)|
    ensures out == LeadIn(value, signed, negative, b, c)
    ensures var pad := Padding(value, signed, negative, b, c); pad_cnt == if pad < 0 then 0 else pad
  {
    var sign := SignCharacter(signed, negative, c);
    var x := if c.pound && value != 0 then b.x else 0;
    var pad := c.width - cp - (if x != 0 then 2 else 0) - (if sign != 0 then 1 else 0);
    assert pad == Padding(value, signed, negative, b, c);
    pad_cnt := if pad < 0 then 0 else pad;
    out := [];
    if !c.minus && !c.zero {
      out := OutputDup(out, ' ' as int, pad_cnt);
    }
    ghost var padded := Repeat(' ' as int, if c.minus || c.zero then 0 else pad);
    assert out == padded;
    if sign != 0 {
      out := out + [sign];
    }
    assert out == padded + Sign(signed, negative, c);
    out := EmitPrefix(out, value, b, c);
    ghost var signedPrefix := out;
    if c.zero {
      out := OutputDup(out, '0' as int, pad_cnt);
    }
    assert out == signedPrefix + Repeat('0' as int, if c.zero then pad else 0);
  }

  lemma {:induction false} ReverseLast(s: seq<Byte>)
    requires s != []
    ensures Reverse(s) == [s[|s| - 1]] + Reverse(s[..|s| - 1])
  {
    if |s| > 1 {
      ReverseLast(s[1..]);
      assert s[1..][..|s| - 2] == s[..|s| - 1][1..];
    }
  }

  method OutputDup(out0: seq<Byte>, c: Byte, cnt0: nat) returns (out: seq<Byte>)
    ensures out == out0 + Repeat(c, cnt0)
  {
    out := out0;
    var cnt := cnt0;
    while cnt > 0
      invariant 0 <= cnt <= cnt0 && out == out0 + Repeat(c, cnt0 - cnt)
    {
      cnt := cnt - 1;
      out := out + [c];
    }
  }

  // ----- what the digits mean

  /** The number a string of digits and group separators stands for. */
  function Number(s: seq<Byte>, base: nat): (n: int)
    ensures n >= 0
  {
    if s == [] then 0
    else
      var n, c := Number(s[..|s| - 1], base), s[|s| - 1];
      if c == ',' as int then n else n * base + DigitValue(c)
  }

  lemma NumberOneMore(s: seq<Byte>, c: Byte, base: nat)
    ensures Number(s + [c], base) == if c == ',' as int then Number(s, base) else Number(s, base) * base + DigitValue(c)
  {
    assert (s + [c])[..|s|] == s;
  }

  lemma {:induction false} ReverseConcat(s: seq<Byte>, t: seq<Byte>)
    ensures Reverse(s + t) == Reverse(t) + Reverse(s)
  {
    if s == [] {
      assert s + t == t;
    } else {
      assert (s + t)[1..] == s[1..] + t;
      ReverseConcat(s[1..], t);
    }
  }

  lemma {:induction false} ReverseRepeat(c: Byte, n: nat)
    ensures Reverse(Repeat(c, n)) == Repeat(c, n)
  {
    if n > 0 {
      assert Repeat(c, n)[1..] == Repeat(c, n - 1);
      ReverseRepeat(c, n - 1);
      assert Repeat(c, n) == Repeat(c, n - 1) + [c];
    }
  }

  lemma {:induction false} LeadingZeros(n: nat, s: seq<Byte>, base: nat)
    ensures Number(Repeat('0' as int, n) + s, base) == Number(s, base)
  {
    var zeros := Repeat('0' as int, n);
    if s != [] {
      var init := s[..|s| - 1];
      LeadingZeros(n, init, base);
      assert zeros + s == zeros + init + [s[|s| - 1]];
      NumberOneMore(zeros + init, s[|s| - 1], base);
    } else if n > 0 {
      LeadingZeros(n - 1, [], base);
      assert zeros + s == (Repeat('0' as int, n - 1) + []) + ['0' as int];
      NumberOneMore(Repeat('0' as int, n - 1) + [], '0' as int, base);
    }
  }

  lemma DigitRoundTrip(b: Base, d: nat)
    requires Known(b) && d < b.base
    ensures DigitValue(Digit(b, d)) == d && Digit(b, d) != ',' as int
  {
  }

  lemma ReverseOne(c: Byte)
    ensures Reverse([c]) == [c] && Reverse([]) == []
  {
    assert Reverse([c]) == Reverse([]) + [c];
  }

  lemma ReverseDigit(sep: seq<Byte>, c: Byte, rest: seq<Byte>)
    requires sep == [] || sep == [',' as int]
    ensures Reverse(sep + [c] + rest) == Reverse(rest) + [c] + sep
  {
    ReverseConcat(sep + [c], rest);
    ReverseConcat(sep, [c]);
    ReverseOne(c);
    ReverseOne(',' as int);
    Regroup3(Reverse(rest), [c], sep);
  }

  lemma ReadDigit(sep: seq<Byte>, c: Byte, rest: seq<Byte>, base: nat)
    requires (sep == [] || sep == [',' as int]) && c != ',' as int
    ensures Number(Reverse(sep + [c] + rest), base) == Number(Reverse(rest), base) * base + DigitValue(c)
  {
    ReverseDigit(sep, c, rest);
    NumberOneMore(Reverse(rest), c, base);
    ReadSeparator(Reverse(rest) + [c], sep, base);
  }

  lemma DigitsUnfold(value: nat, done: nat, b: Base, grouped: bool)
    requires Known(b) && value > 0
    ensures DigitsFrom(value, done, b, grouped)
         == Separator(done, b, grouped) + [Digit(b, value % b.base)] + DigitsFrom(value / b.base, done + 1, b, grouped)
    ensures value / b.base < value
  {
  }

  /** Digits printed in reverse read as the value, with or without separators. */
  lemma {:induction false} DigitsRead(value: nat, done: nat, b: Base, grouped: bool)
    requires Known(b)
    ensures Number(Reverse(DigitsFrom(value, done, b, grouped)), b.base) == value
  {
    if value > 0 {
      var q, d := value / b.base, value % b.base;
      DigitsUnfold(value, done, b, grouped);
      DigitsRead(q, done + 1, b, grouped);
      DigitRoundTrip(b, d);
      ReadDigit(Separator(done, b, grouped), Digit(b, d), DigitsFrom(q, done + 1, b, grouped), b.base);
      DivMod(value, b.base);
    }
  }

  lemma DivMod(value: nat, base: nat)
    requires base > 0
    ensures value / base * base + value % base == value
  {
    MulComm(value / base, base);
  }

  lemma ReadSeparator(s: seq<Byte>, sep: seq<Byte>, base: nat)
    requires sep == [] || sep == [',' as int]
    ensures Number(s + sep, base) == Number(s, base)
  {
    if sep == [] {
      assert s + sep == s;
    } else {
      NumberOneMore(s, ',' as int, base);
    }
  }

  /** How many zeros precede the digits proper. */
  function Zeros(value: nat, b: Base, c: Conversion): nat
    requires Known(b)
  {
    |Buffer(value, b, c)| - |DigitsFrom(value, 0, b, c.group)|
  }

  lemma BufferShape(value: nat, b: Base, c: Conversion)
    requires Known(b)
    ensures Reverse(Buffer(value, b, c))
         == Repeat('0' as int, Zeros(value, b, c)) + Reverse(DigitsFrom(value, 0, b, c.group))
  {
    var ds, n := DigitsFrom(value, 0, b, c.group), Zeros(value, b, c);
    assert Buffer(value, b, c) == ds + Repeat('0' as int, n);
    ReverseConcat(ds, Repeat('0' as int, n));
    ReverseRepeat('0' as int, n);
  }

  /** For every value, base, flags and precision, the printed digits stand for the value. */
  lemma BodyReads(value: nat, b: Base, c: Conversion)
    requires Known(b)
    ensures Number(Reverse(Buffer(value, b, c)), b.base) == value
  {
    BufferShape(value, b, c);
    LeadingZeros(Zeros(value, b, c), Reverse(DigitsFrom(value, 0, b, c.group)), b.base);
    DigitsRead(value, 0, b, c.group);
  }

  // ----- atoi

  newtype Int32 = x: int | -0x8000_0000 <= x < 0x8000_0000

  predicate IsSpace(c: Byte) { c == 32 || 9 <= c <= 13 }

  predicate IsDigit(c: Byte) { '0' as int <= c <= '9' as int }

  predicate AllDigits(s: seq<Byte>) { forall i | 0 <= i < |s| :: IsDigit(s[i]) }

  function SkipSpaces(s: seq<Byte>): seq<Byte>
  {
    if s != [] && IsSpace(s[0]) then SkipSpaces(s[1..]) else s
  }

  function DigitPrefix(s: seq<Byte>): (r: seq<Byte>)
    ensures r <= s && AllDigits(r)
  {
    if s != [] && IsDigit(s[0]) then [s[0]] + DigitPrefix(s[1..]) else []
  }

  /** The integer a string starts with: white space, an optional sign, decimal digits. */
  function AtoiValue(s: seq<Byte>): int
  {
    var t := SkipSpaces(s);
    if t != [] && t[0] == '-' as int then -Number(DigitPrefix(t[1..]), 10)
    else if t != [] && t[0] == '+' as int then Number(DigitPrefix(t[1..]), 10)
    else Number(DigitPrefix(t), 10)
  }

  /** The character at i of a string, which a null character ends. */
  function At(s: seq<Byte>, i: nat): Byte
  {
    if i < |s| then s[i] else 0
  }

  lemma {:induction false} PrefixIsSmaller(s: seq<Byte>, i: nat)
    requires AllDigits(s) && i <= |s|
    ensures Number(s[..i], 10) <= Number(s, 10)
  {
    if i == |s| {
      assert s[..i] == s;
    } else {
      PrefixIsSmaller(s[..|s| - 1], i);
      assert s[..|s| - 1][..i] == s[..i];
    }
  }

  /** No intermediate value overflows when the integer the string starts with is an int. */
  method Atoi(s: seq<Byte>) returns (r: Int32)
    requires INT_MIN <= AtoiValue(s) <= INT_MAX
    ensures r as int == AtoiValue(s)
  {
    var i := 0;
    while IsSpace(At(s, i))
      invariant 0 <= i <= |s| && SkipSpaces(s[i..]) == SkipSpaces(s)
      decreases |s| - i
    {
      i := i + 1;
    }
    assert SkipSpaces(s) == s[i..];
    var negative := false;
    if At(s, i) == '+' as int {
      i := i + 1;
    } else if At(s, i) == '-' as int {
      negative := true;
      i := i + 1;
    }
    var value := ParseDigits(s, i, negative);
    r := if negative then value else -value;
  }

  /** The digits ds start at `start`; those before i stand for -value. */
  ghost predicate Parsed(s: seq<Byte>, start: nat, i: nat, ds: seq<Byte>, value: int)
    requires start <= i <= |s|
  {
    ds == s[start..i] + DigitPrefix(s[i..]) && value == -Number(s[start..i], 10)
  }

  lemma NextDigit(s: seq<Byte>, start: nat, i: nat, ds: seq<Byte>, value: int, value': int)
    requires start <= i < |s| && IsDigit(s[i]) && AllDigits(ds) && Parsed(s, start, i, ds, value)
    requires value' == value * 10 - (s[i] - '0' as int)
    ensures Parsed(s, start, i + 1, ds, value') && -Number(ds, 10) <= value' <= value * 10 <= 0
  {
    NextSlice(s, start, i, ds);
    NumberOneMore(s[start..i], s[i], 10);
    PrefixIsSmaller(ds, |s[start..i]| + 1);
  }

  lemma NextSlice(s: seq<Byte>, start: nat, i: nat, ds: seq<Byte>)
    requires start <= i < |s| && IsDigit(s[i]) && ds == s[start..i] + DigitPrefix(s[i..])
    ensures s[start..i + 1] == s[start..i] + [s[i]] && ds == s[start..i + 1] + DigitPrefix(s[i + 1..])
    ensures |s[start..i]| + 1 <= |ds| && ds[..|s[start..i]| + 1] == s[start..i + 1]
  {
    assert DigitPrefix(s[i..]) == [s[i]] + DigitPrefix(s[i + 1..]) by {
      assert s[i..][1..] == s[i + 1..];
    }
    Regroup3(s[start..i], [s[i]], DigitPrefix(s[i + 1..]));
    assert s[start..i + 1] == s[start..i] + [s[i]];
  }

  lemma Regroup3(a: seq<Byte>, b: seq<Byte>, c: seq<Byte>)
    ensures a + (b + c) == a + b + c
  {
  }

  /** Digits are parsed as a negative number, whose range is the greater one. */
  method ParseDigits(s: seq<Byte>, start: nat, negative: bool) returns (value: Int32)
    requires start <= |s| && Number(DigitPrefix(s[start..]), 10) <= if negative then -INT_MIN else INT_MAX
    ensures value as int == -Number(DigitPrefix(s[start..]), 10)
  {
    ghost var ds := DigitPrefix(s[start..]);
    NoneParsed(s, start);
    var i := start;
    value := 0;
    while IsDigit(At(s, i))
      invariant start <= i <= |s| && Parsed(s, start, i, ds, value as int)
      decreases |s| - i
    {
      value := ParseDigit(s, start, i, ds, value);
      i := i + 1;
    }
    AllParsed(s, start, i, ds, value as int);
  }

  /** One round: the digit at i is appended to the negated value. */
  method ParseDigit(s: seq<Byte>, ghost start: nat, i: nat, ghost ds: seq<Byte>, value: Int32) returns (r: Int32)
    requires start <= i < |s| && IsDigit(s[i]) && AllDigits(ds) && Parsed(s, start, i, ds, value as int)
    requires -Number(ds, 10) >= INT_MIN
    ensures Parsed(s, start, i + 1, ds, r as int)
  {
    var d := s[i] - '0' as int;
    NextDigit(s, start, i, ds, value as int, value as int * 10 - d);
    r := value * 10 - d as Int32;
  }

  lemma NoneParsed(s: seq<Byte>, start: nat)
    requires start <= |s|
    ensures Parsed(s, start, start, DigitPrefix(s[start..]), 0)
  {
    assert s[start..start] == [];
  }

  lemma AllParsed(s: seq<Byte>, start: nat, i: nat, ds: seq<Byte>, value: int)
    requires start <= i <= |s| && Parsed(s, start, i, ds, value) && !IsDigit(At(s, i))
    ensures value == -Number(ds, 10)
  {
    assert ds == s[start..i];
  }

  // ----- atoi after %d

  lemma {:induction false} SkipsAll(n: nat, s: seq<Byte>)
    ensures SkipSpaces(Repeat(' ' as int, n) + s) == SkipSpaces(s)
  {
    if n == 0 {
      assert Repeat(' ' as int, n) + s == s;
    } else {
      assert (Repeat(' ' as int, n) + s)[1..] == Repeat(' ' as int, n - 1) + s;
      SkipsAll(n - 1, s);
    }
  }

  lemma {:induction false} DigitPrefixStops(ds: seq<Byte>, t: seq<Byte>)
    requires AllDigits(ds) && (t == [] || !IsDigit(t[0]))
    ensures DigitPrefix(ds + t) == ds
  {
    if ds == [] {
      assert ds + t == t;
    } else {
      assert (ds + t)[1..] == ds[1..] + t;
      DigitPrefixStops(ds[1..], t);
    }
  }

  lemma {:induction false} ReverseDigits(s: seq<Byte>)
    requires AllDigits(s)
    ensures AllDigits(Reverse(s))
  {
    if s != [] {
      ReverseDigits(s[1..]);
    }
  }

  lemma {:induction false} DecimalDigits(value: nat, done: nat)
    ensures AllDigits(DigitsFrom(value, done, DECIMAL, false))
  {
    if value > 0 {
      DecimalDigits(value / 10, done + 1);
    }
  }

  /** What %d prints between the sign and the trailing spaces. */
  function Numeral(value: nat, zeros: int, c: Conversion): seq<Byte>
  {
    Repeat('0' as int, zeros) + Reverse(Buffer(value, DECIMAL, c))
  }

  lemma NumeralReads(value: nat, zeros: nat, c: Conversion)
    requires !c.group
    ensures AllDigits(Numeral(value, zeros, c)) && Number(Numeral(value, zeros, c), 10) == value
  {
    DecimalDigits(value, 0);
    ReverseDigits(Buffer(value, DECIMAL, c));
    BodyReads(value, DECIMAL, c);
    LeadingZeros(zeros, Reverse(Buffer(value, DECIMAL, c)), 10);
  }

  /** Atoi of leading spaces, a sign, digits and trailing spaces. */
  lemma AtoiReads(before: nat, sign: seq<Byte>, ds: seq<Byte>, after: nat)
    requires sign == [] || sign == ['-' as int] || sign == ['+' as int] || sign == [' ' as int]
    requires AllDigits(ds)
    ensures AtoiValue(Repeat(' ' as int, before) + (sign + (ds + Repeat(' ' as int, after))))
         == if sign == ['-' as int] then -Number(ds, 10) else Number(ds, 10)
  {
    var tail := ds + Repeat(' ' as int, after);
    SkipsAll(before, sign + tail);
    DigitPrefixStops(ds, Repeat(' ' as int, after));
    if sign == [] {
      assert sign + tail == tail;
      SkipToDigits(ds, after);
    } else if sign == [' ' as int] {
      assert (sign + tail)[1..] == tail;
      SkipToDigits(ds, after);
    } else {
      assert SkipSpaces(sign + tail) == sign + tail;
      assert (sign + tail)[1..] == tail;
    }
  }

  lemma SkipToDigits(ds: seq<Byte>, after: nat)
    requires AllDigits(ds)
    ensures var t := SkipSpaces(ds + Repeat(' ' as int, after));
      DigitPrefix(t) == ds && (t == [] || IsDigit(t[0]))
  {
    DigitPrefixStops(ds, Repeat(' ' as int, after));
    if ds == [] {
      SkipsAll(after, []);
      assert ds + Repeat(' ' as int, after) == Repeat(' ' as int, after) + [];
    }
  }

  lemma Regroup(a: seq<Byte>, b: seq<Byte>, p: seq<Byte>, z: seq<Byte>, r: seq<Byte>, t: seq<Byte>)
    requires p == []
    ensures a + b + p + z + r + t == a + (b + ((z + r) + t))
  {
  }

  /** atoi undoes %d for every int, with any flags but grouping, any width and any precision. */
  lemma AtoiUndoesFormat(x: int, c: Conversion)
    requires INT_MIN <= x <= INT_MAX && !c.group
    ensures AtoiValue(Rendering(if x < 0 then -x else x, true, x < 0, DECIMAL, c)) == x
  {
    var value := if x < 0 then -x else x;
    var pad := Padding(value, true, x < 0, DECIMAL, c);
    var before := |Repeat(' ' as int, if c.minus || c.zero then 0 else pad)|;
    var zeros := |Repeat('0' as int, if c.zero then pad else 0)|;
    var after := |Repeat(' ' as int, if c.minus then pad else 0)|;
    var sign := Sign(true, x < 0, c);
    NumeralReads(value, zeros, c);
    AtoiReads(before, sign, Numeral(value, zeros, c), after);
    Regroup(Repeat(' ' as int, before), sign, [], Repeat('0' as int, zeros), Reverse(Buffer(value, DECIMAL, c)),
            Repeat(' ' as int, after));
    assert Rendering(value, true, x < 0, DECIMAL, c)
        == Repeat(' ' as int, before) + (sign + (Numeral(value, zeros, c) + Repeat(' ' as int, after)));
  }

  /** Printing an int with %d and parsing what was printed, without overflow anywhere. */
  method PrintThenParse(x: Int32, c: Conversion) returns (y: Int32)
    requires !c.group
    ensures y == x
  {
    var out := FormatInteger(if x < 0 then -(x as int) else x as int, true, x < 0, DECIMAL, c);
    AtoiUndoesFormat(x as int, c);
    y := Atoi(out);
  }

  // ----- the field width

  /** The flags, width and precision that parse_conversion makes of what a directive says.  A
      negative width can only come from an argument. */
  function Settled(said: Conversion): Conversion
  {
    said.(zero := said.zero && !said.minus && said.precision < 0, space := said.space && !said.plus,
          minus := said.minus || said.width < 0, width := if said.width < 0 then -said.width else said.width,
          precision := if said.precision < 0 then -1 else said.precision)
  }

  /** The characters that have to be printed whatever the width. */
  function Least(value: nat, signed: bool, negative: bool, b: Base, c: Conversion): nat
    requires Known(b)
  {
    |Sign(signed, negative, c)| + |Prefix(value, b, c)| + |Buffer(value, b, c)|
  }

  /** The minimum field width is met, and exceeded only by what has to be printed, unless there is
      something to pad and the padding is asked for on both sides. */
  lemma FieldWidth(value: nat, signed: bool, negative: bool, b: Base, c: Conversion)
    requires Known(b)
    ensures var least := Least(value, signed, negative, b, c);
      |Rendering(value, signed, negative, b, c)| == (if c.width > least then c.width else least)
      <==> !(c.minus && c.zero && c.width > least)
  {
  }

  /** Of the directives, exactly those with a 0 flag, no - flag, no precision and a negative width
      argument come out too wide when there is something to pad. */
  lemma DirectiveWidth(value: nat, signed: bool, negative: bool, b: Base, said: Conversion)
    requires Known(b)
    ensures var c := Settled(said);
      var least := Least(value, signed, negative, b, c);
      |Rendering(value, signed, negative, b, c)| == (if c.width > least then c.width else least)
      <==> !(said.zero && !said.minus && said.precision < 0 && said.width + least < 0)
  {
    FieldWidth(value, signed, negative, b, Settled(said));
  }

  /** "%0*d" with width -8 and value 5 pads on both sides: 15 characters. */
  lemma PadsTwice()
    ensures var c := Settled(Conversion(false, false, false, false, true, false, -8, -1));
      Rendering(5, true, false, DECIMAL, c) == Repeat('0' as int, 7) + ['5' as int] + Repeat(' ' as int, 7)
  {
    var c := Settled(Conversion(false, false, false, false, true, false, -8, -1));
    assert DigitsFrom(5, 0, DECIMAL, false) == ['5' as int] + DigitsFrom(0, 1, DECIMAL, false) == ['5' as int];
    assert Buffer(5, DECIMAL, c) == ['5' as int];
    assert Reverse(['5' as int]) == Reverse([]) + ['5' as int];
  }
}
