/** `strip_comments`: blanking the comments of a JSONC text in place. */
module Jsonc {
  import opened Bytes
  import Utf8

  const NL: byte := 10
  const SPACE: byte := 32
  const QUOTE: byte := 34
  const ASTERISK: byte := 42
  const SLASH: byte := 47
  const BACKSLASH: byte := 92

  datatype Mode = InCode | InString | InLine | InBlock

  /** What a byte belongs to. A string literal's quotes belong to the literal. */
  datatype Kind = Code | Literal | Comment

  predicate Opens(s: Str, a: byte, b: byte) {
    |s| >= 2 && s[0] == a && s[1] == b
  }

  /** The reference lexer: the kind of every byte of `s`, read from `mode`. */
  function Lex(mode: Mode, s: Str): (kinds: seq<Kind>)
    ensures |kinds| == |s|
    decreases |s|
  {
    if s == [] then [] else
    match mode
    case InCode =>
      if s[0] == QUOTE then [Literal] + Lex(InString, s[1..])
      else if Opens(s, SLASH, SLASH) then [Comment, Comment] + Lex(InLine, s[2..])
      else if Opens(s, SLASH, ASTERISK) then [Comment, Comment] + Lex(InBlock, s[2..])
      else [Code] + Lex(InCode, s[1..])
    case InString =>
      if s[0] == BACKSLASH && |s| >= 2 then [Literal, Literal] + Lex(InString, s[2..])
      else if s[0] == QUOTE then [Literal] + Lex(InCode, s[1..])
      else [Literal] + Lex(InString, s[1..])
    case InLine =>
      if s[0] == NL then [Code] + Lex(InCode, s[1..])
      else [Comment] + Lex(InLine, s[1..])
    case InBlock =>
      if Opens(s, ASTERISK, SLASH) then [Comment, Comment] + Lex(InCode, s[2..])
      else [Comment] + Lex(InBlock, s[1..])
  }

  function BlankByte(b: byte, kind: Kind): byte {
    if kind == Comment && b != NL then SPACE else b
  }

  function Blank(s: Str, kinds: seq<Kind>): (t: Str)
    requires |kinds| == |s|
    ensures |t| == |s|
  {
    seq(|s|, i requires 0 <= i < |s| => BlankByte(s[i], kinds[i]))
  }

  /** The reference result: every comment byte but a newline becomes a space. */
  function Stripped(mode: Mode, s: Str): (t: Str)
    ensures |t| == |s|
  {
    Blank(s, Lex(mode, s))
  }

  // ----- one step of the reference

  lemma BlankAppend(s: Str, t: Str, ks: seq<Kind>, kt: seq<Kind>)
    requires |ks| == |s| && |kt| == |t|
    ensures Blank(s + t, ks + kt) == Blank(s, ks) + Blank(t, kt)
  {
  }

  lemma StrippedStep(mode: Mode, s: Str, n: nat, next: Mode, kind: Kind)
    requires n <= |s|
    requires Lex(mode, s) == seq(n, _ => kind) + Lex(next, s[n..])
    ensures Stripped(mode, s) == Blank(s[..n], seq(n, _ => kind)) + Stripped(next, s[n..])
  {
    hide Lex, Blank;
    BlankAppend(s[..n], s[n..], seq(n, _ => kind), Lex(next, s[n..]));
    assert s[..n] + s[n..] == s;
  }

  /** `strip_comments`. A Rust `&str` is UTF-8, and then the fallback at the end is never taken. */
  method StripComments(input: Str) returns (result: Str)
    requires Utf8.Valid(input)
    ensures result == Stripped(InCode, input)
    ensures Utf8.Valid(result)
  {
    hide Lex, Blank, Stripped, Utf8.Valid;
    var out: Str := [];
    var i := 0;
    var inString := false;
    while i < |input|
      invariant 0 <= i <= |input|
      invariant out + Stripped(if inString then InString else InCode, input[i..]) == Stripped(InCode, input)
      decreases |input| - i
    {
      var b := input[i];
      ghost var s := input[i..];
      ghost var goal := out + Stripped(if inString then InString else InCode, s);
      if inString {
        if b == BACKSLASH && i + 1 < |input| {
          StrippedPair(s);
          out := out + [b];
          out := out + [input[i + 1]];
          i := i + 2;
          assert input[i..] == s[2..];
          assert out + Stripped(InString, input[i..]) == goal;
        } else {
          StrippedCopy(InString, s);
          out := out + [b];
          if b == QUOTE {
            inString := false;
          }
          i := i + 1;
          assert input[i..] == s[1..];
          assert out + Stripped(if inString then InString else InCode, input[i..]) == goal;
        }
      } else if b == QUOTE {
        StrippedCopy(InCode, s);
        inString := true;
        out := out + [b];
        i := i + 1;
        assert input[i..] == s[1..];
        assert out + Stripped(InString, input[i..]) == goal;
      } else if b == SLASH && i + 1 < |input| && input[i + 1] == SLASH {
        out, i := BlankLine(input, out, i);
      } else if b == SLASH && i + 1 < |input| && input[i + 1] == ASTERISK {
        out, i := BlankBlock(input, out, i);
      } else {
        StrippedCopy(InCode, s);
        out := out + [b];
        i := i + 1;
        assert input[i..] == s[1..];
        assert out + Stripped(InCode, input[i..]) == goal;
      }
    }
    assert out == Stripped(InCode, input);
    StrippedKeepsUtf8(InCode, input);
    result := if Utf8.Valid(out) then out else input;
  }

  /** The inner loop over a line comment; the newline that ends it is left for the caller. */
  method BlankLine(input: Str, before: Str, at: nat) returns (out: Str, i: nat)
    requires at <= |input| && Opens(input[at..], SLASH, SLASH)
    ensures at < i <= |input|
    ensures out + Stripped(InCode, input[i..]) == before + Stripped(InCode, input[at..])
  {
    hide Lex, Blank, Stripped;
    out, i := before, at;
    LineOpens(input[at..]);
    while i < |input| && input[i] != NL
      invariant at <= i <= |input|
      invariant i == at ==> input[i] == SLASH
      invariant out + Stripped(InLine, input[i..]) == before + Stripped(InCode, input[at..])
    {
      LineStep(input[i..]);
      out := out + [SPACE];
      assert input[i..][1..] == input[i + 1..];
      i := i + 1;
    }
    LineCloses(input[i..]);
  }

  /** The inner loop over a block comment, from its opening mark past its closing one. */
  method BlankBlock(input: Str, before: Str, at: nat) returns (out: Str, i: nat)
    requires at <= |input| && Opens(input[at..], SLASH, ASTERISK)
    ensures at < i <= |input|
    ensures out + Stripped(InCode, input[i..]) == before + Stripped(InCode, input[at..])
  {
    hide Lex, Blank, Stripped;
    BlockOpens(input[at..]);
    out := before + [SPACE, SPACE];
    i := at + 2;
    assert input[at..][2..] == input[i..];
    while i < |input|
      invariant at + 2 <= i <= |input|
      invariant out + Stripped(InBlock, input[i..]) == before + Stripped(InCode, input[at..])
    {
      if input[i] == ASTERISK && i + 1 < |input| && input[i + 1] == SLASH {
        BlockCloses(input[i..]);
        out := out + [SPACE, SPACE];
        assert input[i..][2..] == input[i + 2..];
        i := i + 2;
        return;
      }
      BlockStep(input[i..]);
      out := out + [if input[i] == NL then NL else SPACE];
      assert input[i..][1..] == input[i + 1..];
      i := i + 1;
    }
    assert Stripped(InBlock, input[i..]) == [] == Stripped(InCode, input[i..]);
  }

  lemma StrippedPair(s: Str)
    requires |s| >= 2 && s[0] == BACKSLASH
    ensures Stripped(InString, s) == [s[0]] + [s[1]] + Stripped(InString, s[2..])
  {
    assert seq(2, _ => Literal) == [Literal, Literal];
    StrippedStep(InString, s, 2, InString, Literal);
  }

  /** A byte that is copied: in a string with no pair, or in code with no comment opening. */
  lemma StrippedCopy(mode: Mode, s: Str)
    requires s != []
    requires mode == InString ==> s[0] != BACKSLASH || |s| == 1
    requires mode == InCode ==> !Opens(s, SLASH, SLASH) && !Opens(s, SLASH, ASTERISK)
    requires mode == InString || mode == InCode
    ensures Stripped(mode, s) == [s[0]] + Stripped(AfterCopy(mode, s[0]), s[1..])
  {
    hide Stripped, Blank;
    var kind := if mode == InString || s[0] == QUOTE then Literal else Code;
    assert seq(1, _ => kind) == [kind];
    StrippedStep(mode, s, 1, AfterCopy(mode, s[0]), kind);
    hide Lex;
    BlankOne(s[0], kind);
    assert s[..1] == [s[0]];
  }

  lemma BlankOne(b: byte, kind: Kind)
    ensures Blank([b], seq(1, _ => kind)) == [BlankByte(b, kind)]
  {
  }

  function AfterCopy(mode: Mode, b: byte): Mode {
    if b != QUOTE then mode else if mode == InString then InCode else InString
  }

  lemma LineOpens(s: Str)
    requires Opens(s, SLASH, SLASH)
    ensures Stripped(InCode, s) == Stripped(InLine, s)
  {
    hide Lex, Blank, Stripped;
    LineStep(s);
    LineStep(s[1..]);
    assert s[1..][1..] == s[2..];
    LineMark(s);
  }

  lemma LineMark(s: Str)
    requires Opens(s, SLASH, SLASH)
    ensures Stripped(InCode, s) == [SPACE, SPACE] + Stripped(InLine, s[2..])
  {
    assert seq(2, _ => Comment) == [Comment, Comment];
    StrippedStep(InCode, s, 2, InLine, Comment);
  }

  lemma LineStep(s: Str)
    requires s != [] && s[0] != NL
    ensures Stripped(InLine, s) == [SPACE] + Stripped(InLine, s[1..])
  {
    assert seq(1, _ => Comment) == [Comment];
    StrippedStep(InLine, s, 1, InLine, Comment);
  }

  lemma LineCloses(s: Str)
    requires s == [] || s[0] == NL
    ensures Stripped(InLine, s) == Stripped(InCode, s)
  {
  }

  lemma BlockOpens(s: Str)
    requires Opens(s, SLASH, ASTERISK)
    ensures Stripped(InCode, s) == [SPACE, SPACE] + Stripped(InBlock, s[2..])
  {
    assert seq(2, _ => Comment) == [Comment, Comment];
    StrippedStep(InCode, s, 2, InBlock, Comment);
  }

  lemma BlockStep(s: Str)
    requires s != [] && !Opens(s, ASTERISK, SLASH)
    ensures Stripped(InBlock, s) == [if s[0] == NL then NL else SPACE] + Stripped(InBlock, s[1..])
  {
    assert seq(1, _ => Comment) == [Comment];
    StrippedStep(InBlock, s, 1, InBlock, Comment);
  }

  lemma BlockCloses(s: Str)
    requires Opens(s, ASTERISK, SLASH)
    ensures Stripped(InBlock, s) == [SPACE, SPACE] + Stripped(InCode, s[2..])
  {
    assert seq(2, _ => Comment) == [Comment, Comment];
    StrippedStep(InBlock, s, 2, InCode, Comment);
  }

  // ----- UTF-8

  /** A run of non-ASCII bytes never changes the mode and is of one kind. */
  lemma {:induction false} LexHighRun(mode: Mode, s: Str, n: nat)
    requires n <= |s|
    requires forall i :: 0 <= i < n ==> s[i] >= 0x80
    ensures Lex(mode, s) == seq(n, _ => KindIn(mode)) + Lex(mode, s[n..])
  {
    hide Lex, KindIn;
    if n == 0 {
      assert s[0..] == s;
    } else {
      LexHighRun(mode, s[1..], n - 1);
      assert s[1..][n - 1..] == s[n..];
      assert [KindIn(mode)] + seq(n - 1, _ => KindIn(mode)) == seq(n, _ => KindIn(mode));
      LexHigh(mode, s);
    }
  }

  lemma LexHigh(mode: Mode, s: Str)
    requires s != [] && s[0] >= 0x80
    ensures Lex(mode, s) == [KindIn(mode)] + Lex(mode, s[1..])
  {
  }

  function KindIn(mode: Mode): Kind {
    match mode case InCode => Code case InString => Literal case InLine => Comment case InBlock => Comment
  }

  /** Spaces are UTF-8, however many. */
  lemma {:induction false} SpacesValid(n: nat)
    ensures Utf8.Valid(seq(n, _ => SPACE))
  {
    if n > 0 {
      SpacesValid(n - 1);
      Utf8.ValidPrepend([SPACE], seq(n - 1, _ => SPACE));
      assert [SPACE] + seq(n - 1, _ => SPACE) == seq(n, _ => SPACE);
    }
  }

  /** A whole character, blanked or copied, is UTF-8. */
  lemma BlankedCharValid(c: Str, kind: Kind)
    requires c != [] && Utf8.CharLen(c) == |c|
    ensures Utf8.Valid(Blank(c, seq(|c|, _ => kind)))
  {
    var t := Blank(c, seq(|c|, _ => kind));
    if kind == Comment && c[0] != NL {
      assert t == seq(|c|, _ => SPACE);
      SpacesValid(|c|);
    } else {
      assert t == c;
      assert c[|c|..] == [];
    }
  }

  /** Stripping never splits a character: the output of a UTF-8 text is UTF-8, from every mode. */
  lemma {:induction false} StrippedKeepsUtf8(mode: Mode, s: Str)
    requires Utf8.Valid(s)
    ensures Utf8.Valid(Stripped(mode, s))
    decreases |s|
  {
    if s != [] {
      var n := Utf8.CharLen(s);
      Utf8.CharLenPrefix(s, s[..n]);
      if n > 1 {
        LexHighRun(mode, s, n);
        KeepsUtf8Step(mode, s, n, mode, KindIn(mode));
      } else if mode == InString && s[0] == BACKSLASH && |s| >= 2 {
        EscapeKeepsUtf8(s);
      } else if mode == InCode && (Opens(s, SLASH, SLASH) || Opens(s, SLASH, ASTERISK)) {
        MarkKeepsUtf8(mode, s, if s[1] == SLASH then InLine else InBlock);
      } else if mode == InBlock && Opens(s, ASTERISK, SLASH) {
        MarkKeepsUtf8(mode, s, InCode);
      } else {
        var kind := Lex(mode, s)[0];
        var next := if mode == InLine && s[0] == NL then InCode
                    else if mode == InCode || mode == InString then AfterCopy(mode, s[0]) else mode;
        assert seq(1, _ => kind) == [kind];
        KeepsUtf8Step(mode, s, 1, next, kind);
      }
    }
  }

  lemma {:induction false} KeepsUtf8Step(mode: Mode, s: Str, n: nat, next: Mode, kind: Kind)
    requires Utf8.Valid(s) && s != [] && n == Utf8.CharLen(s)
    requires Lex(mode, s) == seq(n, _ => kind) + Lex(next, s[n..])
    ensures Utf8.Valid(Stripped(mode, s))
    decreases |s|, 0
  {
    Utf8.CharLenPrefix(s, s[..n]);
    StrippedStep(mode, s, n, next, kind);
    BlankedCharValid(s[..n], kind);
    StrippedKeepsUtf8(next, s[n..]);
    Utf8.ValidConcat(Blank(s[..n], seq(n, _ => kind)), Stripped(next, s[n..]));
  }

  /** A backslash takes only the first byte of a following character with it; the rest is copied anyway. */
  lemma {:induction false} EscapeKeepsUtf8(s: Str)
    requires Utf8.Valid(s) && |s| >= 2 && s[0] == BACKSLASH
    ensures Utf8.Valid(Stripped(InString, s))
    decreases |s|, 0
  {
    var t := s[1..];
    var m := Utf8.CharLen(t);
    assert Utf8.Valid(t) && Utf8.Valid(t[m..]);
    StrippedKeepsUtf8(InString, t[m..]);
    Utf8.ValidPushBack(t, m, Stripped(InString, t[m..]));
    Utf8.ValidPrepend([s[0]], t[..m] + Stripped(InString, t[m..]));
    EscapeCopies(s, m);
  }

  lemma EscapeCopies(s: Str, m: nat)
    requires |s| >= 2 && s[0] == BACKSLASH && m == Utf8.CharLen(s[1..]) > 0
    ensures Stripped(InString, s) == [s[0]] + (s[1..][..m] + Stripped(InString, s[1..][m..]))
  {
    hide Lex, Stripped, Utf8.CharLen;
    var t := s[2..];
    StrippedPair(s);
    assert forall i :: 0 <= i < m - 1 ==> t[i] == s[1..][1 + i];
    LexHighRun(InString, t, m - 1);
    assert t[m - 1..] == s[1..][m..];
    StrippedStep(InString, t, m - 1, InString, Literal);
    BlankLiteral(t[..m - 1]);
    hide Blank;
    assert [s[1]] + t[..m - 1] == s[1..][..m];
    Regroup([s[0]], [s[1]], t[..m - 1], Stripped(InString, s[1..][m..]));
  }

  lemma BlankLiteral(s: Str)
    ensures Blank(s, seq(|s|, _ => Literal)) == s
  {
  }

  lemma Regroup(a: Str, b: Str, c: Str, d: Str)
    ensures a + b + (c + d) == a + ((b + c) + d)
  {
  }

  /** A two-byte comment mark is two ASCII characters. */
  lemma {:induction false} MarkKeepsUtf8(mode: Mode, s: Str, next: Mode)
    requires Utf8.Valid(s) && |s| >= 2 && s[0] < 0x80 && s[1] < 0x80 && s[0] != NL && s[1] != NL
    requires Lex(mode, s) == [Comment, Comment] + Lex(next, s[2..])
    ensures Utf8.Valid(Stripped(mode, s))
    decreases |s|, 0
  {
    assert Utf8.Valid(s[1..]);
    assert s[1..][1..] == s[2..];
    assert seq(2, _ => Comment) == [Comment, Comment];
    StrippedStep(mode, s, 2, next, Comment);
    StrippedKeepsUtf8(next, s[2..]);
    SpacesValid(2);
    assert Blank(s[..2], [Comment, Comment]) == seq(2, _ => SPACE);
    Utf8.ValidConcat(seq(2, _ => SPACE), Stripped(next, s[2..]));
  }

  // ----- what the blanking promises

  /** Offsets: same length, newlines exactly where they were, every byte unchanged or a space,
      and only comment bytes change. */
  lemma StrippedOffsets(s: Str)
    ensures |Stripped(InCode, s)| == |s|
    ensures forall i :: 0 <= i < |s| ==> (Stripped(InCode, s)[i] == NL <==> s[i] == NL)
    ensures forall i :: 0 <= i < |s| ==> Stripped(InCode, s)[i] == s[i] || Stripped(InCode, s)[i] == SPACE
    ensures forall i :: 0 <= i < |s| && Lex(InCode, s)[i] != Comment ==> Stripped(InCode, s)[i] == s[i]
  {
  }

  /** Comments lex as code once blanked; code and literals keep their kind. */
  function Settled(kinds: seq<Kind>): (r: seq<Kind>)
    ensures |r| == |kinds|
  {
    seq(|kinds|, i requires 0 <= i < |kinds| => if kinds[i] == Comment then Code else kinds[i])
  }

  function SettledMode(mode: Mode): Mode {
    if mode == InString then InString else InCode
  }

  /** The lexer reads the same literals, at the same offsets, in the stripped text, and no comment. */
  lemma {:induction false} StrippedRelexes(mode: Mode, s: Str)
    ensures Lex(SettledMode(mode), Stripped(mode, s)) == Settled(Lex(mode, s))
    decreases |s|
  {
    if s != [] {
      var n, next, kind := LexStep(mode, s);
      var t := s[n..];
      StrippedRelexes(next, t);
      StrippedStep(mode, s, n, next, kind);
      if |t| > 0 {
        HeadOfStripped(next, t);
      }
      SettledStep(n, kind, Lex(next, t));
      if kind == Comment {
        RelexBlanks(Blank(s[..n], seq(n, _ => kind)), Stripped(next, t));
      } else {
        assert Blank(s[..n], seq(n, _ => kind)) == s[..n];
        RelexCopied(mode, s, n, next, kind, Stripped(next, t));
      }
    }
  }

  /** One step of the lexer, whatever the mode: `n` bytes of one kind, then on from `next`. */
  lemma LexStep(mode: Mode, s: Str) returns (n: nat, next: Mode, kind: Kind)
    requires s != []
    ensures 1 <= n <= 2 && n <= |s|
    ensures Lex(mode, s) == seq(n, _ => kind) + Lex(next, s[n..])
    ensures kind == Comment ==> SettledMode(mode) == SettledMode(next) == InCode
    ensures kind != Comment ==> Copies(mode, s, n, next, kind)
  {
    n := if (mode == InString && s[0] == BACKSLASH && |s| >= 2)
            || (mode == InCode && (Opens(s, SLASH, SLASH) || Opens(s, SLASH, ASTERISK)))
            || (mode == InBlock && Opens(s, ASTERISK, SLASH)) then 2 else 1;
    next := match mode
            case InString => if n == 2 then InString else AfterCopy(mode, s[0])
            case InCode => if n == 2 then (if s[1] == SLASH then InLine else InBlock) else AfterCopy(mode, s[0])
            case InLine => if s[0] == NL then InCode else InLine
            case InBlock => if n == 2 then InCode else InBlock;
    kind := Lex(mode, s)[0];
    assert seq(1, _ => kind) == [kind];
    assert seq(2, _ => kind) == [kind, kind];
  }

  /** A step that copies its bytes, in terms of those bytes alone. */
  predicate Copies(mode: Mode, s: Str, n: nat, next: Mode, kind: Kind)
    requires 1 <= n <= |s|
  {
    && (mode == InString ==>
          && kind == Literal
          && (n == 2 <==> s[0] == BACKSLASH && |s| >= 2)
          && n <= 2
          && next == if n == 2 then InString else AfterCopy(mode, s[0]))
    && (mode == InCode ==>
          && n == 1
          && !Opens(s, SLASH, SLASH) && !Opens(s, SLASH, ASTERISK)
          && next == AfterCopy(mode, s[0])
          && kind == if s[0] == QUOTE then Literal else Code)
    && (mode == InLine ==> n == 1 && s[0] == NL && next == InCode && kind == Code)
    && mode != InBlock
  }

  /** What a text opens with after stripping: its own first byte, or a blank. */
  lemma HeadOfStripped(mode: Mode, s: Str)
    requires s != []
    ensures Stripped(mode, s)[0] == s[0] || Stripped(mode, s)[0] == SPACE
  {
  }

  lemma SettledStep(n: nat, kind: Kind, rest: seq<Kind>)
    ensures Settled(seq(n, _ => kind) + rest) == seq(n, _ => if kind == Comment then Code else kind) + Settled(rest)
  {
  }

  /** Blanks in front of a text are code, and leave the lexer in code. */
  lemma {:induction false} RelexBlanks(blanks: Str, rest: Str)
    requires forall i :: 0 <= i < |blanks| ==> blanks[i] == SPACE || blanks[i] == NL
    ensures Lex(InCode, blanks + rest) == seq(|blanks|, _ => Code) + Lex(InCode, rest)
  {
    hide Lex;
    if blanks == [] {
      assert blanks + rest == rest;
    } else {
      RelexBlanks(blanks[1..], rest);
      RelexBlank(blanks + rest);
      assert (blanks + rest)[1..] == blanks[1..] + rest;
      assert [Code] + seq(|blanks| - 1, _ => Code) == seq(|blanks|, _ => Code);
    }
  }

  lemma RelexBlank(s: Str)
    requires s != [] && (s[0] == SPACE || s[0] == NL)
    ensures Lex(InCode, s) == [Code] + Lex(InCode, s[1..])
  {
  }

  /** Copied bytes lex the same in front of any text that does not open a comment with them. */
  lemma RelexCopied(mode: Mode, s: Str, n: nat, next: Mode, kind: Kind, rest: Str)
    requires 1 <= n <= |s| && Copies(mode, s, n, next, kind)
    requires |rest| == |s| - n
    requires |rest| > 0 ==> rest[0] == s[n] || rest[0] == SPACE
    ensures Lex(SettledMode(mode), s[..n] + rest) == seq(n, _ => kind) + Lex(SettledMode(next), rest)
  {
    var t := s[..n] + rest;
    assert t[n..] == rest;
    assert seq(1, _ => kind) == [kind];
    assert seq(2, _ => kind) == [kind, kind];
    assert |t| == |s| && t[0] == s[0];
  }

  /** Stripping twice is stripping once. */
  lemma StripIdempotent(s: Str)
    ensures Stripped(InCode, Stripped(InCode, s)) == Stripped(InCode, s)
  {
    StrippedRelexes(InCode, s);
    assert forall i :: 0 <= i < |s| ==> Lex(InCode, Stripped(InCode, s))[i] != Comment;
  }

  // ----- the same, said of a document put together from its pieces

  /** A closed piece of a document: a byte of code, a literal, a line comment with its newline, a block comment. */
  datatype Piece = Plain(b: byte) | Quoted(body: Str) | Line(body: Str) | Block(body: Str)

  /** Every quote of a literal's body is escaped, and its last byte is not an escaping backslash. */
  predicate Escaped(body: Str)
    decreases |body|
  {
    || body == []
    || (body[0] == BACKSLASH && |body| >= 2 && Escaped(body[2..]))
    || (body[0] != BACKSLASH && body[0] != QUOTE && Escaped(body[1..]))
  }

  predicate Closed(piece: Piece) {
    match piece
    case Plain(b) => b != QUOTE
    case Quoted(body) => Escaped(body)
    case Line(body) => NL !in body
    case Block(body) => forall i :: 0 <= i < |body| - 1 ==> !(body[i] == ASTERISK && body[i + 1] == SLASH)
  }

  function Written(piece: Piece): Str {
    match piece
    case Plain(b) => [b]
    case Quoted(body) => [QUOTE] + body + [QUOTE]
    case Line(body) => [SLASH, SLASH] + body + [NL]
    case Block(body) => [SLASH, ASTERISK] + body + [ASTERISK, SLASH]
  }

  /** What is left of a piece: all of it, or blanks with the newlines of a block comment kept. */
  function Left(piece: Piece): Str {
    match piece
    case Plain(_) => Written(piece)
    case Quoted(_) => Written(piece)
    case Line(body) => seq(2 + |body|, _ => SPACE) + [NL]
    case Block(body) => [SPACE, SPACE] + Blank(body, seq(|body|, _ => Comment)) + [SPACE, SPACE]
  }

  function WrittenAll(doc: seq<Piece>): Str {
    if doc == [] then [] else Written(doc[0]) + WrittenAll(doc[1..])
  }

  function LeftAll(doc: seq<Piece>): Str {
    if doc == [] then [] else Left(doc[0]) + LeftAll(doc[1..])
  }

  /** What a text may break off in: a literal or a comment that is not closed. */
  datatype Tail = NoTail | OpenQuoted(body: Str) | OpenLine(body: Str) | OpenBlock(body: Str)

  /** No quote of the body closes the literal; a backslash may be its last byte. */
  predicate Unclosed(body: Str)
    decreases |body|
  {
    || body == []
    || (body[0] == BACKSLASH && (|body| == 1 || Unclosed(body[2..])))
    || (body[0] != BACKSLASH && body[0] != QUOTE && Unclosed(body[1..]))
  }

  predicate Open(tail: Tail) {
    match tail
    case NoTail => true
    case OpenQuoted(body) => Unclosed(body)
    case OpenLine(body) => NL !in body
    case OpenBlock(body) => Closed(Block(body))
  }

  function WrittenTail(tail: Tail): Str {
    match tail
    case NoTail => []
    case OpenQuoted(body) => [QUOTE] + body
    case OpenLine(body) => [SLASH, SLASH] + body
    case OpenBlock(body) => [SLASH, ASTERISK] + body
  }

  function LeftTail(tail: Tail): Str {
    match tail
    case NoTail => []
    case OpenQuoted(_) => WrittenTail(tail)
    case OpenLine(body) => seq(2 + |body|, _ => SPACE)
    case OpenBlock(body) => [SPACE, SPACE] + Blank(body, seq(|body|, _ => Comment))
  }

  function Text(doc: seq<Piece>, tail: Tail): Str {
    WrittenAll(doc) + WrittenTail(tail)
  }

  /** Pieces are closed, only the tail is open, and a slash of code is not followed by what would make it a comment. */
  predicate Document(doc: seq<Piece>, tail: Tail)
    decreases |doc|
  {
    && Open(tail)
    && (doc != [] ==>
          && Closed(doc[0])
          && Document(doc[1..], tail)
          && (doc[0] == Plain(SLASH) ==>
                var after := Text(doc[1..], tail); after == [] || (after[0] != SLASH && after[0] != ASTERISK)))
  }

  /** Literals and code survive as written; comments, and nothing else, are blanked. */
  lemma {:induction false} DocumentStripped(doc: seq<Piece>, tail: Tail)
    requires Document(doc, tail)
    ensures Stripped(InCode, Text(doc, tail)) == LeftAll(doc) + LeftTail(tail)
    decreases |doc|
  {
    hide Lex, Blank, Stripped, Written, Left, WrittenTail, LeftTail, Closed, Open;
    if doc == [] {
      assert Text(doc, tail) == WrittenTail(tail) && LeftAll(doc) + LeftTail(tail) == LeftTail(tail);
      TailStripped(tail);
    } else {
      var rest := Text(doc[1..], tail);
      DocumentStripped(doc[1..], tail);
      PieceStripped(doc[0], rest);
      TextStep(doc, tail);
      LeftStep(doc, tail);
    }
  }

  lemma LeftStep(doc: seq<Piece>, tail: Tail)
    requires doc != []
    ensures LeftAll(doc) + LeftTail(tail) == Left(doc[0]) + (LeftAll(doc[1..]) + LeftTail(tail))
  {
    hide Left, LeftTail;
  }

  lemma TextStep(doc: seq<Piece>, tail: Tail)
    requires doc != []
    ensures Text(doc, tail) == Written(doc[0]) + Text(doc[1..], tail)
  {
    hide Written, WrittenTail;
  }

  lemma TailStripped(tail: Tail)
    requires Open(tail)
    ensures Stripped(InCode, WrittenTail(tail)) == LeftTail(tail)
  {
    hide Lex, Stripped, Unclosed;
    var s := WrittenTail(tail);
    match tail
    case NoTail =>
    case OpenQuoted(body) =>
      StrippedCopy(InCode, s);
      assert s[1..] == body;
      UnclosedCopied(body);
    case OpenLine(body) =>
      LineOpens(s);
      assert s + [] == s;
      LineBlanked(s, []);
    case OpenBlock(body) =>
      BlockOpens(s);
      assert s[2..] == body;
      OpenBlanked(body);
  }

  lemma {:induction false} UnclosedCopied(body: Str)
    requires Unclosed(body)
    ensures Stripped(InString, body) == body
    decreases |body|
  {
    hide Lex, Blank, Stripped;
    if body != [] {
      if body[0] == BACKSLASH && |body| >= 2 {
        StrippedPair(body);
        UnclosedCopied(body[2..]);
      } else {
        StrippedCopy(InString, body);
        UnclosedCopied(body[1..]);
      }
    }
  }

  lemma {:induction false} OpenBlanked(body: Str)
    requires Closed(Block(body))
    ensures Stripped(InBlock, body) == Blank(body, seq(|body|, _ => Comment))
    decreases |body|
  {
    hide Lex, Stripped;
    if body != [] {
      BlockStep(body);
      OpenBlanked(body[1..]);
      assert Blank(body, seq(|body|, _ => Comment))
          == [if body[0] == NL then NL else SPACE] + Blank(body[1..], seq(|body| - 1, _ => Comment));
    }
  }

  // ----- every text is such a document

  /** A literal's body up to the quote that closes it, or all of it. */
  lemma {:induction false} SplitQuoted(s: Str) returns (body: Str, closed: bool)
    ensures closed ==> Escaped(body) && body + [QUOTE] <= s
    ensures !closed ==> body == s && Unclosed(s)
    decreases |s|
  {
    if s == [] {
      body, closed := [], false;
    } else if s[0] == QUOTE {
      body, closed := [], true;
      assert [QUOTE] <= s;
    } else {
      var n := if s[0] == BACKSLASH && |s| >= 2 then 2 else 1;
      if n == 1 && s[0] == BACKSLASH {
        body, closed := s, false;
      } else {
        var rest;
        rest, closed := SplitQuoted(s[n..]);
        body := s[..n] + rest;
        assert s == s[..n] + s[n..];
        assert body[n..] == rest;
        assert body + [QUOTE] == s[..n] + (rest + [QUOTE]);
      }
    }
  }

  /** A block comment's body up to its closing mark, or all of it. */
  lemma {:induction false} SplitBlock(s: Str) returns (body: Str, closed: bool)
    ensures Closed(Block(body))
    ensures if closed then body + [ASTERISK, SLASH] <= s else body == s
    decreases |s|
  {
    if s == [] {
      body, closed := [], false;
    } else if Opens(s, ASTERISK, SLASH) {
      body, closed := [], true;
    } else {
      var rest;
      rest, closed := SplitBlock(s[1..]);
      body := [s[0]] + rest;
      assert s == [s[0]] + s[1..];
      assert body + [ASTERISK, SLASH] == [s[0]] + (rest + [ASTERISK, SLASH]);
      assert rest != [] ==> rest[0] == s[1];
    }
  }

  /** Every text is a document: it falls into closed pieces and an open tail, if any. */
  lemma {:induction false} EveryTextIsADocument(s: Str) returns (doc: seq<Piece>, tail: Tail)
    ensures Document(doc, tail) && Text(doc, tail) == s
    decreases |s|
  {
    hide Document, Text, Starts;
    if s == [] {
      doc, tail := NothingIsADocument();
    } else {
      var piece, open, closed := FirstPiece(s);
      doc, tail := Cut(s, piece, open, closed);
    }
  }

  /** `s` starts with a closed piece, or is an open tail. */
  predicate Starts(s: Str, piece: Piece, tail: Tail, closed: bool) {
    if closed then
      && Closed(piece) && Written(piece) <= s && Written(piece) != []
      && (piece == Plain(SLASH) ==> |s| == 1 || (s[1] != SLASH && s[1] != ASTERISK))
    else Open(tail) && WrittenTail(tail) == s
  }

  lemma FirstPiece(s: Str) returns (piece: Piece, tail: Tail, closed: bool)
    requires s != []
    ensures Starts(s, piece, tail, closed)
  {
    if s[0] == QUOTE {
      piece, tail, closed := FirstQuoted(s);
    } else if Opens(s, SLASH, SLASH) {
      piece, tail, closed := FirstLine(s);
    } else if Opens(s, SLASH, ASTERISK) {
      piece, tail, closed := FirstBlock(s);
    } else {
      piece, tail, closed := Plain(s[0]), NoTail, true;
    }
  }

  lemma FirstQuoted(s: Str) returns (piece: Piece, tail: Tail, closed: bool)
    requires s != [] && s[0] == QUOTE
    ensures Starts(s, piece, tail, closed)
  {
    hide Escaped, Unclosed;
    var body;
    body, closed := SplitQuoted(s[1..]);
    piece, tail := Quoted(body), OpenQuoted(body);
    assert s == [QUOTE] + s[1..];
    assert [QUOTE] + body + [QUOTE] == [QUOTE] + (body + [QUOTE]);
  }

  lemma FirstLine(s: Str) returns (piece: Piece, tail: Tail, closed: bool)
    requires Opens(s, SLASH, SLASH)
    ensures Starts(s, piece, tail, closed)
  {
    var at := Find(s[2..], NL);
    var body := if at.Some? then s[2..][..at.value] else s[2..];
    piece, tail, closed := Line(body), OpenLine(body), at.Some?;
    assert s == [SLASH, SLASH] + s[2..];
    if closed {
      assert s[2..] == body + [NL] + s[2..][at.value + 1..];
    }
  }

  lemma FirstBlock(s: Str) returns (piece: Piece, tail: Tail, closed: bool)
    requires Opens(s, SLASH, ASTERISK)
    ensures Starts(s, piece, tail, closed)
  {
    var body;
    body, closed := SplitBlock(s[2..]);
    piece, tail := Block(body), OpenBlock(body);
    assert s == [SLASH, ASTERISK] + s[2..];
    assert [SLASH, ASTERISK] + body + [ASTERISK, SLASH] == [SLASH, ASTERISK] + (body + [ASTERISK, SLASH]);
  }

  lemma NothingIsADocument() returns (doc: seq<Piece>, tail: Tail)
    ensures Document(doc, tail) && Text(doc, tail) == []
  {
    doc, tail := [], NoTail;
  }

  /** The first piece of a text cut off, or the tail it is. */
  lemma {:induction false} Cut(s: Str, piece: Piece, tail: Tail, closed: bool) returns (doc: seq<Piece>, last: Tail)
    requires Starts(s, piece, tail, closed)
    ensures Document(doc, last) && Text(doc, last) == s
    decreases |s|, 0
  {
    if closed {
      var rest := s[|Written(piece)|..];
      assert s == Written(piece) + rest;
      assert piece == Plain(SLASH) ==> rest == s[1..];
      hide Closed, Open, Written, WrittenTail, Document, Text;
      var more;
      more, last := EveryTextIsADocument(rest);
      doc := [piece] + more;
      DocumentCons(piece, more, last);
    } else {
      doc, last := [], tail;
      assert [] + s == s;
    }
  }

  /** A closed piece in front of a document makes a document. */
  lemma DocumentCons(piece: Piece, more: seq<Piece>, tail: Tail)
    requires Closed(piece) && Document(more, tail)
    requires piece == Plain(SLASH) ==>
               var after := Text(more, tail); after == [] || (after[0] != SLASH && after[0] != ASTERISK)
    ensures Document([piece] + more, tail) && Text([piece] + more, tail) == Written(piece) + Text(more, tail)
  {
    hide Closed, Open, Written, WrittenTail, Text;
    var doc := [piece] + more;
    assert doc[1..] == more;
    TextStep(doc, tail);
    assert Open(tail);
  }

  lemma PieceStripped(piece: Piece, rest: Str)
    requires Closed(piece)
    requires piece == Plain(SLASH) ==> rest == [] || (rest[0] != SLASH && rest[0] != ASTERISK)
    ensures Stripped(InCode, Written(piece) + rest) == Left(piece) + Stripped(InCode, rest)
  {
    hide Lex, Blank, Stripped;
    match piece
    case Plain(b) => PlainStripped(b, rest);
    case Quoted(body) => QuotedStripped(body, rest);
    case Line(body) => LineStripped(body, rest);
    case Block(body) => BlockStripped(body, rest);
  }

  lemma PlainStripped(b: byte, rest: Str)
    requires b != QUOTE
    requires b == SLASH ==> rest == [] || (rest[0] != SLASH && rest[0] != ASTERISK)
    ensures Stripped(InCode, [b] + rest) == [b] + Stripped(InCode, rest)
  {
    hide Lex, Blank, Stripped;
    StrippedCopy(InCode, [b] + rest);
    assert ([b] + rest)[1..] == rest;
  }

  lemma QuotedStripped(body: Str, rest: Str)
    requires Escaped(body)
    ensures Stripped(InCode, Written(Quoted(body)) + rest) == Left(Quoted(body)) + Stripped(InCode, rest)
  {
    hide Lex, Blank, Stripped, Escaped;
    var s := [QUOTE] + (body + ([QUOTE] + rest));
    assert Written(Quoted(body)) + rest == s;
    StrippedCopy(InCode, s);
    assert s[1..] == body + ([QUOTE] + rest);
    QuotedCopied(body, rest);
    var after := Stripped(InCode, rest);
    assert [QUOTE] + (body + [QUOTE] + after) == [QUOTE] + body + [QUOTE] + after;
  }

  lemma BlockStripped(body: Str, rest: Str)
    requires Closed(Block(body))
    ensures Stripped(InCode, Written(Block(body)) + rest) == Left(Block(body)) + Stripped(InCode, rest)
  {
    hide Lex, Blank, Stripped;
    var s := Written(Block(body)) + rest;
    BlockOpens(s);
    assert s[2..] == body + ([ASTERISK, SLASH] + rest);
    BlockBlanked(body, rest);
  }

  lemma LineStripped(body: Str, rest: Str)
    requires NL !in body
    ensures Stripped(InCode, Written(Line(body)) + rest) == Left(Line(body)) + Stripped(InCode, rest)
  {
    hide Lex, Blank, Stripped;
    var text := [SLASH, SLASH] + body;
    assert Written(Line(body)) + rest == text + ([NL] + rest);
    LineOpens(text + ([NL] + rest));
    LineBlanked(text, [NL] + rest);
    LineCloses([NL] + rest);
    StrippedCopy(InCode, [NL] + rest);
    assert ([NL] + rest)[1..] == rest;
  }

  lemma {:induction false} QuotedCopied(body: Str, rest: Str)
    requires Escaped(body)
    ensures Stripped(InString, body + ([QUOTE] + rest)) == body + [QUOTE] + Stripped(InCode, rest)
    decreases |body|
  {
    hide Lex, Blank, Stripped;
    var s := body + ([QUOTE] + rest);
    if body == [] {
      StrippedCopy(InString, s);
      assert s[1..] == rest;
    } else if body[0] == BACKSLASH {
      StrippedPair(s);
      QuotedCopied(body[2..], rest);
      assert s[2..] == body[2..] + ([QUOTE] + rest);
    } else {
      StrippedCopy(InString, s);
      QuotedCopied(body[1..], rest);
      assert s[1..] == body[1..] + ([QUOTE] + rest);
    }
  }

  lemma {:induction false} LineBlanked(body: Str, rest: Str)
    requires NL !in body
    ensures Stripped(InLine, body + rest) == seq(|body|, _ => SPACE) + Stripped(InLine, rest)
  {
    hide Lex, Blank, Stripped;
    if body == [] {
      assert body + rest == rest;
    } else {
      LineStep(body + rest);
      assert (body + rest)[1..] == body[1..] + rest;
      LineBlanked(body[1..], rest);
      assert [SPACE] + seq(|body| - 1, _ => SPACE) == seq(|body|, _ => SPACE);
    }
  }

  lemma {:induction false} BlockBlanked(body: Str, rest: Str)
    requires Closed(Block(body))
    ensures Stripped(InBlock, body + ([ASTERISK, SLASH] + rest))
         == Blank(body, seq(|body|, _ => Comment)) + [SPACE, SPACE] + Stripped(InCode, rest)
  {
    hide Lex, Stripped;
    var s := body + ([ASTERISK, SLASH] + rest);
    if body == [] {
      BlockCloses(s);
      assert s[2..] == rest;
    } else {
      BlockStep(s);
      assert s[1..] == body[1..] + ([ASTERISK, SLASH] + rest);
      BlockBlanked(body[1..], rest);
      assert Blank(body, seq(|body|, _ => Comment))
          == [if body[0] == NL then NL else SPACE] + Blank(body[1..], seq(|body| - 1, _ => Comment));
    }
  }
}
