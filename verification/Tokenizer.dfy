/** The shell's tokenizer: a cursor over a string with escapes, brackets and delimiters
    (Project1/tokenizer.c).  The specification works on the rest of the string at the cursor. */
module Tokenizer {
  import opened Nonlinear
  import opened Bitmap

  /** A C string without its terminator. */
  type Text = s: seq<char> | forall i | 0 <= i < |s| :: s[i] != '\0' witness []

  /** string_pair: a bracket with its closing bracket, or an escape with its replacement. */
  datatype Pair = Pair(a: Text, b: Text)

  datatype Tables = Tables(delimiters: seq<Text>, ignored: seq<Pair>, replacements: seq<Pair>)

  // ----- patterns

  /** The first pattern, not empty, that the text starts with. */
  function FirstMatch(text: Text, patterns: seq<Text>): (r: Option<nat>)
    ensures r.Some? ==> r.value < |patterns| && Matches(text, patterns[r.value])
                        && forall j | 0 <= j < r.value :: !Matches(text, patterns[j])
    ensures r.None? ==> forall j | 0 <= j < |patterns| :: !Matches(text, patterns[j])
  {
    if patterns == [] then None
    else if Matches(text, patterns[0]) then Some(0)
    else
      var r := FirstMatch(text, patterns[1..]);
      if r.Some? then Some(r.value + 1) else None
  }

  predicate Matches(text: Text, pattern: Text) { pattern != [] && pattern <= text }

  function Openings(pairs: seq<Pair>): (r: seq<Text>)
    ensures |r| == |pairs| && forall i | 0 <= i < |pairs| :: r[i] == pairs[i].a
  {
    if pairs == [] then [] else [pairs[0].a] + Openings(pairs[1..])
  }

  /** The closing brackets for opening bracket a, in the order of the table. */
  function Closings(pairs: seq<Pair>, a: Text): (r: seq<Text>)
  {
    if pairs == [] then []
    else (if pairs[0].a == a then [pairs[0].b] else []) + Closings(pairs[1..], a)
  }

  /** Length of the first pattern that matches, or 0. */
  function FirstClosing(text: Text, patterns: seq<Text>): (n: nat)
    ensures n <= |text|
  {
    var m := FirstMatch(text, patterns);
    if m.Some? then |patterns[m.value]| else 0
  }

  // ----- tokens

  /** How far a bracket opened with a reaches into the text after it. */
  function Enclosed(tables: Tables, a: Text, text: Text): (n: nat)
    ensures n <= |text|
  {
    if text == [] then 0
    else
      var close := FirstClosing(text, Closings(tables.ignored, a));
      if close > 0 then close else 1 + Enclosed(tables, a, text[1..])
  }

  datatype Step = Stop | Go(consumed: nat, emitted: Text)

  /** One round of the scan: an escape, a delimiter, a bracketed part, or a character. */
  function ScanStep(tables: Tables, text: Text): (r: Step)
    requires text != []
    ensures r.Go? ==> 0 < r.consumed <= |text|
  {
    var escape := FirstMatch(text, Openings(tables.replacements));
    if escape.Some? then
      Go(|tables.replacements[escape.value].a|, tables.replacements[escape.value].b)
    else if FirstMatch(text, tables.delimiters).Some? then Stop
    else
      var bracket := FirstMatch(text, Openings(tables.ignored));
      if bracket.Some? then
        var a := tables.ignored[bracket.value].a;
        Go(|a| + Enclosed(tables, a, text[|a|..]), [])
      else Go(1, [text[0]])
  }

  /** Length of the raw token at the start of the text. */
  function TokenLength(tables: Tables, text: Text): (n: nat)
    ensures n <= |text|
    decreases |text|
  {
    if text == [] || ScanStep(tables, text).Stop? then 0
    else
      var k := ScanStep(tables, text).consumed;
      k + TokenLength(tables, text[k..])
  }

  /** The token with escapes replaced and bracketed parts dropped. */
  function TokenText(tables: Tables, text: Text): Text
    decreases |text|
  {
    if text == [] || ScanStep(tables, text).Stop? then []
    else ScanStep(tables, text).emitted + TokenText(tables, text[ScanStep(tables, text).consumed..])
  }

  /** The delimiter that ends the token, empty at the end of the string. */
  function DelimiterAt(tables: Tables, text: Text): (d: Text)
    ensures d <= text
  {
    var d := FirstMatch(text, tables.delimiters);
    if d.Some? then tables.delimiters[d.value] else []
  }

  datatype Token = Token(raw: Text, text: Text, delimiter: Text)

  function FirstToken(tables: Tables, text: Text): Token
  {
    var n := TokenLength(tables, text);
    Token(text[..n], TokenText(tables, text), DelimiterAt(tables, text[n..]))
  }

  lemma {:induction false} TokenStops(tables: Tables, text: Text)
    ensures var rest := text[TokenLength(tables, text)..]; rest != [] ==> Matches(rest, DelimiterAt(tables, rest))
    decreases |text|
  {
    if text != [] && ScanStep(tables, text).Go? {
      var k := ScanStep(tables, text).consumed;
      TokenStops(tables, text[k..]);
      assert text[TokenLength(tables, text)..] == text[k..][TokenLength(tables, text[k..])..];
    }
  }

  /** What is left after a token and its delimiter. */
  function AfterToken(tables: Tables, text: Text): (r: Text)
    requires text != []
    ensures |r| < |text|
    ensures text == FirstToken(tables, text).raw + FirstToken(tables, text).delimiter + r
  {
    TokenStops(tables, text);
    var n := TokenLength(tables, text);
    Split3(text, n, DelimiterAt(tables, text[n..]));
    text[n..][|DelimiterAt(tables, text[n..])|..]
  }

  lemma Split3(text: Text, n: nat, d: Text)
    requires n <= |text| && d <= text[n..]
    ensures text == text[..n] + d + text[n..][|d|..]
  {
  }

  /** All tokens a caller gets, from the start of the string until there are no more. */
  function Tokens(tables: Tables, text: Text): seq<Token>
    decreases |text|
  {
    if text == [] then [] else [FirstToken(tables, text)] + Tokens(tables, AfterToken(tables, text))
  }

  /** Raw tokens and delimiters, put end to end. */
  function Joined(ts: seq<Token>): Text
  {
    if ts == [] then [] else ts[0].raw + ts[0].delimiter + Joined(ts[1..])
  }

  /** Tokenizing loses nothing. */
  lemma {:induction false} Lossless(tables: Tables, text: Text)
    ensures Joined(Tokens(tables, text)) == text
    decreases |text|
  {
    if text != [] {
      Lossless(tables, AfterToken(tables, text));
      assert Tokens(tables, text)[1..] == Tokens(tables, AfterToken(tables, text));
    }
  }

  // ----- tokens are stable

  lemma MatchCut(text: Text, patterns: seq<Text>, n: nat)
    requires n <= |text|
    requires FirstMatch(text, patterns).Some? ==> |patterns[FirstMatch(text, patterns).value]| <= n
    ensures FirstMatch(text[..n], patterns) == FirstMatch(text, patterns)
  {
    forall p: Text | Matches(text[..n], p) ensures Matches(text, p) {
    }
    forall p: Text | Matches(text, p) && |p| <= n ensures Matches(text[..n], p) {
    }
  }

  lemma {:induction false} EnclosedCut(tables: Tables, a: Text, text: Text, n: nat)
    requires Enclosed(tables, a, text) <= n <= |text|
    ensures Enclosed(tables, a, text[..n]) == Enclosed(tables, a, text)
    decreases |text|
  {
    if n < |text| {
      var closings := Closings(tables.ignored, a);
      MatchCut(text, closings, n);
      if n > 0 && FirstMatch(text, closings).None? {
        EnclosedCut(tables, a, text[1..], n - 1);
        assert text[..n][1..] == text[1..][..n - 1];
      }
    } else {
      assert text[..n] == text;
    }
  }

  lemma StepCut(tables: Tables, text: Text, n: nat)
    requires text != [] && ScanStep(tables, text).Go? && ScanStep(tables, text).consumed <= n <= |text|
    ensures ScanStep(tables, text[..n]) == ScanStep(tables, text)
  {
    MatchCut(text, Openings(tables.replacements), n);
    if FirstMatch(text, Openings(tables.replacements)).None? {
      MatchCut(text, tables.delimiters, n);
      var bracket := FirstMatch(text, Openings(tables.ignored));
      MatchCut(text, Openings(tables.ignored), n);
      if bracket.Some? {
        var a := tables.ignored[bracket.value].a;
        EnclosedCut(tables, a, text[|a|..], n - |a|);
        assert text[..n][|a|..] == text[|a|..][..n - |a|];
      }
    }
  }

  lemma SliceOfSlice(text: Text, k: nat, n: nat)
    requires k <= n <= |text|
    ensures text[..n][k..] == text[k..][..n - k]
  {
  }

  /** A raw token taken as a string of its own is one token, with the same text. */
  lemma {:induction false} TokenCut(tables: Tables, text: Text, cut: Text, n: nat)
    requires n == TokenLength(tables, text) && cut == text[..n]
    ensures TokenLength(tables, cut) == n && TokenText(tables, cut) == TokenText(tables, text)
    decreases |text|
  {
    if n > 0 {
      var k := ScanStep(tables, text).consumed;
      var rest, m := text[k..], n - k;
      TokenOne(tables, text, rest);
      TokenCut(tables, rest, rest[..m], m);
      StepCut(tables, text, n);
      SliceOfSlice(text, k, n);
      TokenOne(tables, cut, rest[..m]);
    }
  }

  lemma TokenOne(tables: Tables, text: Text, rest: Text)
    requires text != [] && ScanStep(tables, text).Go? && rest == text[ScanStep(tables, text).consumed..]
    ensures TokenLength(tables, text) == ScanStep(tables, text).consumed + TokenLength(tables, rest)
    ensures TokenText(tables, text) == ScanStep(tables, text).emitted + TokenText(tables, rest)
  {
  }

  /** Tokenizing the raw token again with the same tables gives that single token and no delimiter. */
  predicate Stable(tables: Tables, t: Token)
  {
    Tokens(tables, t.raw) == if t.raw == [] then [] else [Token(t.raw, t.text, [])]
  }

  lemma FirstStable(tables: Tables, text: Text)
    ensures Stable(tables, FirstToken(tables, text))
  {
    var t := FirstToken(tables, text);
    TokenCut(tables, text, t.raw, |t.raw|);
    if t.raw != [] {
      assert t.raw[|t.raw|..] == [];
      assert FirstToken(tables, t.raw) == Token(t.raw, t.text, []);
      assert AfterToken(tables, t.raw) == [];
    }
  }

  lemma {:induction false} AllStable(tables: Tables, text: Text)
    ensures forall i | 0 <= i < |Tokens(tables, text)| :: Stable(tables, Tokens(tables, text)[i])
    decreases |text|
  {
    if text != [] {
      FirstStable(tables, text);
      AllStable(tables, AfterToken(tables, text));
    }
  }

  // ----- the program

  /** string_find_pattern: the length of the pattern if the text starts with it, else 0. */
  method StringFindPattern(text: Text, pattern: Text) returns (n: nat)
    ensures n == if pattern <= text then |pattern| else 0
  {
    var i := 0;
    while i < |pattern|
      invariant 0 <= i <= |pattern| && i <= |text| && text[..i] == pattern[..i]
    {
      if i == |text| || text[i] != pattern[i] {
        return 0;
      }
      i := i + 1;
    }
    n := i;
  }

  /** The search through a list of patterns. */
  method FindPattern(text: Text, patterns: seq<Text>) returns (r: Option<nat>)
    ensures r == FirstMatch(text, patterns)
  {
    var i := 0;
    while i < |patterns|
      invariant 0 <= i <= |patterns| && forall j | 0 <= j < i :: !Matches(text, patterns[j])
    {
      var result := StringFindPattern(text, patterns[i]);
      if result > 0 {
        return Some(i);
      }
      i := i + 1;
    }
    r := None;
  }

  /** By how much the longest replacement outgrows what it replaces. */
  function Delta(replacements: seq<Pair>): (d: nat)
    ensures forall p | p in replacements :: |p.b| <= |p.a| + d
  {
    if replacements == [] then 0
    else
      var p, d := replacements[|replacements| - 1], Delta(replacements[..|replacements| - 1]);
      if |p.b| > |p.a| + d then |p.b| - |p.a| else d
  }

  /** Room for the token of k characters of the string. */
  function Room(k: nat, delta: nat): nat { k * (1 + delta) }

  lemma RoomStep(k: nat, n: nat, w: nat, delta: nat)
    requires n > 0 && w <= n + delta
    ensures Room(k, delta) + w <= Room(k + n, delta)
  {
    MulAdd(1 + delta, k, n);
    MulAdd(n, 1, delta);
    MulLe(1, n, delta);
  }

  lemma RoomGrows(k: nat, k': nat, delta: nat)
    requires k <= k'
    ensures Room(k, delta) <= Room(k', delta)
  {
    MulLe(k, k', 1 + delta);
  }

  /** After `consumed` characters of the token at the start of text0, `rest` is left and `emitted`
      has been written. */
  ghost predicate Scanned(tables: Tables, text0: Text, rest: Text, consumed: nat, emitted: seq<char>)
  {
    && TokenLength(tables, text0) == consumed + TokenLength(tables, rest)
    && TokenText(tables, text0) == emitted + TokenText(tables, rest)
  }

  lemma ScannedMore(tables: Tables, text0: Text, rest: Text, consumed: nat, emitted: seq<char>,
                    rest': Text, consumed': nat, emitted': seq<char>)
    requires rest != [] && Scanned(tables, text0, rest, consumed, emitted) && ScanStep(tables, rest).Go?
    requires var step := ScanStep(tables, rest);
      rest' == rest[step.consumed..] && consumed' == consumed + step.consumed && emitted' == emitted + step.emitted
    ensures Scanned(tables, text0, rest', consumed', emitted')
  {
  }

  lemma ScannedAll(tables: Tables, text0: Text, rest: Text, consumed: nat, emitted: seq<char>)
    requires Scanned(tables, text0, rest, consumed, emitted) && (rest == [] || ScanStep(tables, rest).Stop?)
    ensures TokenLength(tables, text0) == consumed && TokenText(tables, text0) == emitted
  {
  }

  /** `written` characters are in the buffer when `consumed` of the `length` have been scanned. */
  ghost predicate InRoom(written: nat, consumed: nat, length: nat, delta: nat)
  {
    consumed <= length && written <= Room(consumed, delta)
  }

  lemma RoomMore(written: nat, consumed: nat, length: nat, delta: nat, written': nat, consumed': nat)
    requires InRoom(written, consumed, length, delta) && consumed < consumed' <= length
    requires written' - written <= consumed' - consumed + delta && written <= written'
    ensures InRoom(written', consumed', length, delta)
  {
    RoomStep(consumed, consumed' - consumed, written' - written, delta);
  }

  lemma RoomAhead(written: nat, consumed: nat, length: nat, delta: nat)
    requires InRoom(written, consumed, length, delta)
    ensures written <= Room(length, delta)
    ensures consumed < length ==> written + delta + (length - consumed) <= Room(length, delta)
  {
    if consumed < length {
      RoomStep(consumed, length - consumed, length - consumed + delta, delta);
    }
  }

  /** What the bracket opened with a encloses, from the cursor on, ends at `end`. */
  ghost predicate EnclosedUntil(tables: Tables, a: Text, input: Text, cursor: nat, end: nat)
  {
    cursor <= |input| && end == cursor + Enclosed(tables, a, input[cursor..])
  }

  class Tokenizer {
    const input: Text
    const tables: Tables
    var cursor: nat
    var tokStart: nat
    /** The unescaped token, followed by a null character. */
    const currentToken: array<char>
    var lastDelimiter: Option<Text>

    ghost predicate Valid()
      reads this
    {
      && tokStart <= cursor <= |input|
      && currentToken.Length == Room(|input|, Delta(tables.replacements)) + 1
      && (lastDelimiter.Some? ==> lastDelimiter.value != [] && lastDelimiter.value <= input[cursor..])
    }

    /** The string in the token buffer. */
    ghost predicate Holds(token: seq<char>)
      reads this, currentToken
    {
      |token| < currentToken.Length && currentToken[..|token|] == token && currentToken[|token|] == '\0'
    }

    constructor (input: Text, tables: Tables)
      ensures Valid() && fresh(currentToken) && this.input == input && this.tables == tables
      ensures cursor == 0 && tokStart == 0 && lastDelimiter == None
    {
      this.input, this.tables := input, tables;
      var delta := ComputeDelta(tables.replacements);
      currentToken := new char[|input| * (1 + delta) + 1](_ => '\0');
      cursor, tokStart, lastDelimiter := 0, 0, None;
    }

    method Reset()
      requires Valid()
      modifies this
      ensures Valid() && cursor == 0 && tokStart == 0 && lastDelimiter == None
    {
      cursor, tokStart, lastDelimiter := 0, 0, None;
    }

    ghost function Rest(): Text
      reads this
      requires cursor <= |input|
    {
      input[cursor..]
    }

    /** Copies the replacement of an escape into the token. */
    method MoveReplaceIfNeeded(token0: nat) returns (moved: bool, token: nat)
      requires Valid() && Rest() != [] && token0 + Delta(tables.replacements) + |Rest()| < currentToken.Length
      modifies this`cursor, currentToken
      ensures var escape := FirstMatch(old(Rest()), Openings(tables.replacements));
        && moved == escape.Some?
        && (moved ==> var pair := tables.replacements[escape.value];
             && cursor == old(cursor) + |pair.a| && token == token0 + |pair.b| <= token0 + |pair.a| + Delta(tables.replacements)
             && currentToken[..token] == old(currentToken[..token0]) + pair.b)
        && (!moved ==> cursor == old(cursor) && token == token0 && currentToken[..token] == old(currentToken[..token0]))
    {
      token := token0;
      var escape := FindPattern(input[cursor..], Openings(tables.replacements));
      moved := escape.Some?;
      if moved {
        var pair := tables.replacements[escape.value];
        assert pair in tables.replacements;
        token := Append(token, pair.b);
        cursor := cursor + |pair.a|;
      }
    }

    method Append(token0: nat, repl: Text) returns (token: nat)
      requires token0 + |repl| < currentToken.Length
      modifies currentToken
      ensures token == token0 + |repl| && currentToken[..token] == old(currentToken[..token0]) + repl
    {
      token := token0;
      var i := 0;
      while i < |repl|
        invariant 0 <= i <= |repl| && token == token0 + i
        invariant currentToken[..token] == old(currentToken[..token0]) + repl[..i]
      {
        currentToken[token] := repl[i];
        token, i := token + 1, i + 1;
      }
    }

    method MoveBreakOnDelimiter() returns (stopped: bool)
      requires Valid()
      modifies this`lastDelimiter
      ensures stopped == FirstMatch(Rest(), tables.delimiters).Some?
      ensures lastDelimiter == if stopped then Some(DelimiterAt(tables, Rest())) else old(lastDelimiter)
    {
      var delimiter := FindPattern(input[cursor..], tables.delimiters);
      stopped := delimiter.Some?;
      if stopped {
        lastDelimiter := Some(tables.delimiters[delimiter.value]);
      }
    }

    /** Skips an opening bracket and everything through its closing bracket, if there is one. */
    method MoveJumpOverIgnoreBrackets() returns (moved: bool)
      requires Valid() && Rest() != []
      modifies this`cursor
      ensures var bracket := FirstMatch(old(Rest()), Openings(tables.ignored));
        && moved == bracket.Some?
        && (moved ==> var a := tables.ignored[bracket.value].a;
              cursor == old(cursor) + |a| + Enclosed(tables, a, old(Rest())[|a|..]))
        && (!moved ==> cursor == old(cursor))
    {
      var bracket := FindPattern(input[cursor..], Openings(tables.ignored));
      moved := bracket.Some?;
      if moved {
        var a := tables.ignored[bracket.value].a;
        assert input[cursor..][|a|..] == input[cursor + |a|..];
        cursor := cursor + |a|;
        SkipEnclosed(a);
      }
    }

    /** The loop over what a bracket encloses. */
    method SkipEnclosed(a: Text)
      requires cursor <= |input|
      modifies this`cursor
      ensures cursor <= |input| && cursor == old(cursor) + Enclosed(tables, a, input[old(cursor)..])
    {
      ghost var end := cursor + Enclosed(tables, a, input[cursor..]);
      while cursor < |input|
        invariant old(cursor) <= cursor <= |input| && EnclosedUntil(tables, a, input, cursor, end)
      {
        var jump := FindClosing(input[cursor..], a);
        if jump > 0 {
          cursor := cursor + jump;
          return;
        }
        SkipOne(tables, a, input, cursor, end);
        cursor := cursor + 1;
      }
    }

    /** The length of the closing bracket for a at the start of the text, or 0. */
    method FindClosing(text: Text, a: Text) returns (jump: nat)
      ensures jump == FirstClosing(text, Closings(tables.ignored, a))
    {
      jump := 0;
      var i := 0;
      ghost var closings := Closings(tables.ignored, a);
      while i < |tables.ignored|
        invariant 0 <= i <= |tables.ignored|
        invariant FirstClosing(text, closings) == FirstClosing(text, Closings(tables.ignored[i..], a))
      {
        NextClosing(text, tables.ignored, i, a);
        if tables.ignored[i].a == a {
          var jmp := StringFindPattern(text, tables.ignored[i].b);
          if jmp > 0 {
            jump := jmp;
            return;
          }
        }
        i := i + 1;
      }
    }

    /** Moves to the next token: the cursor passes the last delimiter and stops before the next. */
    method MoveToNext() returns (more: bool)
      requires Valid()
      modifies this, currentToken
      ensures Valid()
      ensures tokStart == old(cursor) + if old(lastDelimiter).Some? then |old(lastDelimiter).value| else 0
      ensures cursor == tokStart + TokenLength(tables, input[tokStart..])
      ensures Holds(TokenText(tables, input[tokStart..]))
      ensures lastDelimiter == if Rest() == [] then None else Some(DelimiterAt(tables, Rest()))
      ensures more <==> input[tokStart..] != []
    {
      if lastDelimiter.Some? {
        cursor := cursor + |lastDelimiter.value|;
      }
      lastDelimiter := None;
      tokStart := cursor;
      var token := ScanToken();
      currentToken[token] := '\0';
      more := tokStart != cursor || cursor < |input|;
    }

    /** One round of the loop below. */
    method ScanOne(token0: nat) returns (stopped: bool, token: nat)
      requires Valid() && Rest() != [] && lastDelimiter == None
      requires token0 + Delta(tables.replacements) + |Rest()| < currentToken.Length
      modifies this`cursor, this`lastDelimiter, currentToken
      ensures token <= currentToken.Length && stopped == ScanStep(tables, old(Rest())).Stop?
      ensures stopped ==> cursor == old(cursor) && token == token0 && currentToken[..token] == old(currentToken[..token0])
      ensures lastDelimiter == if stopped then Some(DelimiterAt(tables, old(Rest()))) else None
      ensures var step := ScanStep(tables, old(Rest()));
        step.Go? ==> cursor == old(cursor) + step.consumed && currentToken[..token] == old(currentToken[..token0]) + step.emitted
                     && |step.emitted| <= step.consumed + Delta(tables.replacements)
    {
      var moved;
      stopped := false;
      moved, token := MoveReplaceIfNeeded(token0);
      if !moved {
        stopped := MoveBreakOnDelimiter();
        if !stopped {
          moved := MoveJumpOverIgnoreBrackets();
          if !moved {
            token := Append(token, [input[cursor]]);
            cursor := cursor + 1;
          }
        }
      }
    }

    /** The loop of tokenizer_move_to_next: every write is within the token buffer. */
    method ScanToken() returns (token: nat)
      requires Valid() && cursor == tokStart && lastDelimiter == None
      modifies this`cursor, this`lastDelimiter, currentToken
      ensures Valid() && token < currentToken.Length
      ensures cursor == tokStart + TokenLength(tables, input[tokStart..])
      ensures currentToken[..token] == TokenText(tables, input[tokStart..])
      ensures lastDelimiter == if Rest() == [] then None else Some(DelimiterAt(tables, Rest()))
    {
      token := 0;
      var stopped := false;
      ghost var text0, rest, consumed := Rest(), Rest(), 0;
      ghost var length, delta := |input| - tokStart, Delta(tables.replacements);
      RoomGrows(length, |input|, delta);
      while cursor < |input| && !stopped
        invariant tokStart <= cursor <= |input| && token <= currentToken.Length
        invariant consumed == cursor - tokStart && rest == Rest()
        invariant Scanned(tables, text0, rest, consumed, currentToken[..token]) && InRoom(token, consumed, length, delta)
        invariant lastDelimiter == if stopped then Some(DelimiterAt(tables, rest)) else None
        invariant stopped ==> rest != [] && ScanStep(tables, rest).Stop?
        decreases |input| - cursor, !stopped
      {
        ghost var written, emitted := token, currentToken[..token];
        RoomAhead(token, consumed, length, delta);
        stopped, token := ScanOne(token);
        if !stopped {
          ghost var rest', consumed' := Rest(), cursor - tokStart;
          ScannedMore(tables, text0, rest, consumed, emitted, rest', consumed', currentToken[..token]);
          RoomMore(written, consumed, length, delta, token, consumed');
          rest, consumed := rest', consumed';
        }
      }
      RoomAhead(token, consumed, length, delta);
      ScannedAll(tables, text0, rest, consumed, currentToken[..token]);
    }

    /** tokenizer_load_raw_token: true exactly if there was no token left to load. */
    method LoadRawToken(buffer: array<char>) returns (none: bool)
      requires Valid() && cursor - tokStart < buffer.Length
      modifies buffer
      ensures buffer[..cursor - tokStart] == input[tokStart..cursor] && buffer[cursor - tokStart] == '\0'
      ensures none <==> input[tokStart..] == []
    {
      var from, to := tokStart, 0;
      while from != cursor
        invariant tokStart <= from <= cursor && to == from - tokStart && buffer[..to] == input[tokStart..from]
      {
        buffer[to] := input[from];
        from, to := from + 1, to + 1;
      }
      buffer[to] := '\0';
      none := tokStart == |input|;
    }
  }

  lemma SkipOne(tables: Tables, a: Text, input: Text, cursor: nat, end: nat)
    requires cursor < |input| && FirstClosing(input[cursor..], Closings(tables.ignored, a)) == 0
    requires EnclosedUntil(tables, a, input, cursor, end)
    ensures EnclosedUntil(tables, a, input, cursor + 1, end)
  {
    assert input[cursor..][1..] == input[cursor + 1..];
  }

  lemma NextClosing(text: Text, pairs: seq<Pair>, i: nat, a: Text)
    requires i < |pairs|
    ensures FirstClosing(text, Closings(pairs[i..], a))
         == if pairs[i].a == a && Matches(text, pairs[i].b) then |pairs[i].b| else FirstClosing(text, Closings(pairs[i + 1..], a))
  {
    assert pairs[i..][1..] == pairs[i + 1..];
    var rest := Closings(pairs[i + 1..], a);
    if pairs[i].a == a {
      assert ([pairs[i].b] + rest)[1..] == rest;
    } else {
      assert [] + rest == rest;
    }
  }

  method ComputeDelta(replacements: seq<Pair>) returns (delta: nat)
    ensures delta == Delta(replacements)
  {
    delta := 0;
    var i := 0;
    while i < |replacements|
      invariant 0 <= i <= |replacements| && delta == Delta(replacements[..i])
    {
      assert replacements[..i + 1][..i] == replacements[..i];
      var len_diff := |replacements[i].b| - |replacements[i].a|;
      if delta < len_diff {
        delta := len_diff;
      }
      i := i + 1;
    }
    assert replacements[..i] == replacements;
  }

  /** The C string in a buffer. */
  method StringIn(buffer: array<char>, ghost s: Text) returns (r: Text)
    requires |s| < buffer.Length && buffer[..|s|] == s && buffer[|s|] == '\0'
    ensures r == s
  {
    r := [];
    while buffer[|r|] != '\0'
      invariant |r| <= |s| && r == s[..|r|]
      invariant forall j | 0 <= j < |s| :: buffer[j] == s[j]
      decreases |s| - |r|
    {
      r := r + [buffer[|r|]];
    }
  }

  /** A caller's loop over all tokens, as in Project1/input_parser.c: it ends, and collects them. */
  method Tokenize(input: Text, tables: Tables) returns (ts: seq<Token>)
    ensures ts == Tokens(tables, input)
  {
    ts := [];
    var tok := new Tokenizer(input, tables);
    var buffer := new char[|input| + 1];
    ghost var rest := input;
    var more := tok.MoveToNext();
    while more
      invariant fresh(tok) && fresh(tok.currentToken) && fresh(buffer) && buffer != tok.currentToken
      invariant tok.input == input && tok.tables == tables && buffer.Length == |input| + 1
      invariant AtToken(tok, rest) && more == (rest != []) && Collected(tables, input, ts, rest)
      decreases |rest|
    {
      var token := CurrentToken(tok, buffer, rest);
      CollectOne(tables, input, ts, rest, token);
      more := Advance(tok, rest);
      ts, rest := ts + [token], AfterToken(tables, rest);
    }
  }

  /** The next call after a token: the tokenizer stands at what is left after it. */
  method Advance(tok: Tokenizer, ghost rest: Text) returns (more: bool)
    requires AtToken(tok, rest) && rest != []
    modifies tok, tok.currentToken
    ensures AtToken(tok, AfterToken(tok.tables, rest)) && (more <==> AfterToken(tok.tables, rest) != [])
  {
    ghost var next := AfterToken(tok.tables, rest);
    NextStart(tok, rest);
    more := tok.MoveToNext();
    assert tok.input[tok.tokStart..] == next;
  }

  /** ts are the tokens before `rest`. */
  ghost predicate Collected(tables: Tables, input: Text, ts: seq<Token>, rest: Text)
  {
    Tokens(tables, input) == ts + Tokens(tables, rest)
  }

  lemma CollectOne(tables: Tables, input: Text, ts: seq<Token>, rest: Text, token: Token)
    requires rest != [] && Collected(tables, input, ts, rest) && token == FirstToken(tables, rest)
    ensures Collected(tables, input, ts + [token], AfterToken(tables, rest))
  {
  }

  lemma NextRest(tables: Tables, input: Text, start: nat, rest: Text, n: nat, left: Text)
    requires start <= |input| && rest == input[start..] && rest != [] && n == TokenLength(tables, rest)
    requires left == input[start + n..]
    ensures AfterToken(tables, rest) == input[start + n + (if left == [] then 0 else |DelimiterAt(tables, left)|)..]
    ensures left == [] ==> DelimiterAt(tables, left) == []
  {
    Drops(input, start, n, |DelimiterAt(tables, left)|);
    assert rest[n..] == left;
  }

  lemma NextStart(tok: Tokenizer, rest: Text)
    requires AtToken(tok, rest) && rest != []
    ensures var d := if tok.lastDelimiter.Some? then |tok.lastDelimiter.value| else 0;
      tok.cursor + d <= |tok.input| && AfterToken(tok.tables, rest) == tok.input[tok.cursor + d..]
  {
    NextRest(tok.tables, tok.input, tok.tokStart, rest, TokenLength(tok.tables, rest), tok.Rest());
  }

  lemma Drops(input: Text, start: nat, n: nat, m: nat)
    requires start + n + m <= |input|
    ensures input[start..][n..] == input[start + n..] && input[start..][n..][m..] == input[start + n + m..]
  {
  }

  /** The tokenizer stands at the first token of `rest`. */
  ghost predicate AtToken(tok: Tokenizer, rest: Text)
    reads tok, tok.currentToken
  {
    && tok.Valid() && rest == tok.input[tok.tokStart..] && tok.cursor == tok.tokStart + TokenLength(tok.tables, rest)
    && tok.Holds(TokenText(tok.tables, rest))
    && tok.lastDelimiter == if tok.Rest() == [] then None else Some(DelimiterAt(tok.tables, tok.Rest()))
  }

  method CurrentToken(tok: Tokenizer, buffer: array<char>, ghost rest: Text) returns (token: Token)
    requires AtToken(tok, rest) && buffer.Length == |tok.input| + 1 && buffer != tok.currentToken
    modifies buffer
    ensures token == FirstToken(tok.tables, rest)
  {
    var _ := tok.LoadRawToken(buffer);
    ghost var n := TokenLength(tok.tables, rest);
    assert tok.input[tok.tokStart..tok.cursor] == rest[..n];
    assert tok.Rest() == rest[n..];
    var raw := StringIn(buffer, rest[..n]);
    var text := StringIn(tok.currentToken, TokenText(tok.tables, rest));
    token := Token(raw, text, if tok.lastDelimiter.Some? then tok.lastDelimiter.value else []);
  }
}
