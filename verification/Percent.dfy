/**
  Percent-encoding of a URL component (sections 2.1 and 2.3 of RFC 3986), its decoding, and the line of the
  loopback request that carries the authorization code.
*/
module Percent {
  import opened Bytes
  import Utf8

  const PERCENT: byte := 37
  const AMPERSAND: byte := 38
  const QUESTION: byte := 63
  const SPACE: byte := 32
  /** `code=` */
  const CODE_EQ: Str := [99, 111, 100, 101, 61]

  /** Section 2.3 of RFC 3986. */
  predicate Unreserved(b: byte) {
    || 65 <= b <= 90 || 97 <= b <= 122 || 48 <= b <= 57
    || b == 45 || b == 46 || b == 95 || b == 126
  }

  function HexDigit(d: nat): byte
    requires d < 16
  {
    if d < 10 then 48 + d else 55 + d
  }

  /** `to_digit(16)`: either case. */
  function FromHex(b: byte): (d: Option<nat>)
    ensures d.Some? ==> d.value < 16
  {
    if 48 <= b <= 57 then Some(b - 48)
    else if 65 <= b <= 70 then Some(b - 55)
    else if 97 <= b <= 102 then Some(b - 87)
    else None
  }

  function EncodeByte(b: byte): Str {
    if Unreserved(b) then [b] else [PERCENT, HexDigit(b / 16), HexDigit(b % 16)]
  }

  function Encoded(s: Str): Str {
    if s == [] then [] else EncodeByte(s[0]) + Encoded(s[1..])
  }

  /** An escape opens `s`: a percent sign and two hexadecimal digits. */
  predicate Escape(s: Str) {
    |s| >= 3 && s[0] == PERCENT && FromHex(s[1]).Some? && FromHex(s[2]).Some?
  }

  /** The bytes a text stands for; what is not an escape stands for itself. */
  function DecodedBytes(s: Str): Str
    decreases |s|
  {
    if s == [] then []
    else if Escape(s) then [FromHex(s[1]).value * 16 + FromHex(s[2]).value] + DecodedBytes(s[3..])
    else [s[0]] + DecodedBytes(s[1..])
  }

  /** `percent_decode`'s result: those bytes, read as UTF-8. */
  function Decoded(s: Str): Str {
    Utf8.Lossy(DecodedBytes(s))
  }

  /** `urlencoding_component`. */
  method UrlEncodeComponent(s: Str) returns (out: Str)
    ensures out == Encoded(s)
  {
    hide EncodeByte;
    out := [];
    for i := 0 to |s|
      invariant out + Encoded(s[i..]) == Encoded(s)
    {
      assert s[i..][1..] == s[i + 1..];
      assert Encoded(s[i..]) == EncodeByte(s[i]) + Encoded(s[i + 1..]);
      var piece := EncodeByte(s[i]);
      assert (out + piece) + Encoded(s[i + 1..]) == out + (piece + Encoded(s[i + 1..]));
      out := out + piece;
    }
    assert s[|s|..] == [];
  }

  /** `percent_decode`. */
  method PercentDecode(s: Str) returns (result: Str)
    ensures result == Decoded(s)
  {
    hide Utf8.Lossy, DecodedBytes, FromHex;
    var out: Str := [];
    var i := 0;
    while i < |s|
      invariant i <= |s| && out + DecodedBytes(s[i..]) == DecodedBytes(s)
    {
      if s[i] == PERCENT && i + 2 < |s| {
        var hi, lo := FromHex(s[i + 1]), FromHex(s[i + 2]);
        if hi.Some? && lo.Some? {
          EscapeDecoded(s, i, out);
          out := out + [hi.value * 16 + lo.value];
          i := i + 3;
          continue;
        }
      }
      ByteDecoded(s, i, out);
      out := out + [s[i]];
      i := i + 1;
    }
    NothingDecoded(s, out);
    result := Utf8.Lossy(out);
  }

  lemma EscapeDecoded(s: Str, i: nat, out: Str)
    requires i + 2 < |s| && Escape(s[i..])
    ensures out + DecodedBytes(s[i..]) ==
            out + [FromHex(s[i + 1]).value * 16 + FromHex(s[i + 2]).value] + DecodedBytes(s[i + 3..])
  {
    hide FromHex;
    assert s[i..][3..] == s[i + 3..];
  }

  lemma ByteDecoded(s: Str, i: nat, out: Str)
    requires i < |s| && !Escape(s[i..])
    ensures out + DecodedBytes(s[i..]) == out + [s[i]] + DecodedBytes(s[i + 1..])
  {
    hide FromHex;
    assert s[i..][1..] == s[i + 1..];
  }

  lemma NothingDecoded(s: Str, out: Str)
    ensures out + DecodedBytes(s[|s|..]) == out
  {
  }

  // ----- what the two do to one byte

  const UPPER_DIGITS: string := "0123456789ABCDEF"
  const LOWER_DIGITS: string := "0123456789abcdef"

  /** A hexadecimal digit is read in either case, and nothing else is. */
  lemma FromHexMeans(b: byte, d: nat)
    ensures FromHex(b) == Some(d) <==> d < 16 && (b == UPPER_DIGITS[d] as int || b == LOWER_DIGITS[d] as int)
  {
  }

  /** The characters that need no encoding: letters, digits and `-._~`. */
  predicate Plain(b: byte) {
    || 'A' as int <= b <= 'Z' as int || 'a' as int <= b <= 'z' as int || '0' as int <= b <= '9' as int
    || (b as char) in "-._~"
  }

  /** A byte is written as it is, or as a percent sign and its two digits in upper case. */
  lemma EncodeByteMeans(b: byte)
    ensures EncodeByte(b) == if Plain(b) then [b]
                             else ['%' as int, UPPER_DIGITS[b / 16] as int, UPPER_DIGITS[b % 16] as int]
  {
    PlainIsUnreserved(b);
    HexDigitMeans(b / 16);
    HexDigitMeans(b % 16);
    hide Plain, Unreserved, HexDigit;
  }

  lemma PlainIsUnreserved(b: byte)
    ensures Plain(b) <==> Unreserved(b)
  {
  }

  lemma HexDigitMeans(d: nat)
    requires d < 16
    ensures HexDigit(d) == UPPER_DIGITS[d] as int
  {
  }

  /** An escape, its digits in either case, is read as the byte it names. */
  lemma EscapeIsRead(b: byte, x: byte, y: byte, rest: Str)
    requires FromHex(x) == Some(b / 16) && FromHex(y) == Some(b % 16)
    ensures DecodedBytes(['%' as int, x, y] + rest) == [b] + DecodedBytes(rest)
  {
    hide FromHex;
    EscapeDecoded(['%' as int, x, y] + rest, 0, []);
    var s := ['%' as int, x, y] + rest;
    assert s[0..] == s && s[3..] == rest && s[1] == x && s[2] == y;
  }

  /** Whatever opens no escape is read as it is. */
  lemma OtherIsRead(b: byte, rest: Str)
    requires !(b == '%' as int && |rest| >= 2 && FromHex(rest[0]).Some? && FromHex(rest[1]).Some?)
    ensures DecodedBytes([b] + rest) == [b] + DecodedBytes(rest)
  {
    hide FromHex;
    var s := [b] + rest;
    assert s[1..] == rest;
    assert |s| >= 3 ==> s[1] == rest[0] && s[2] == rest[1];
  }

  // ----- decoding undoes encoding

  lemma HexRoundTrip(d: nat)
    requires d < 16
    ensures FromHex(HexDigit(d)) == Some(d)
  {
  }

  lemma DecodeOneByte(b: byte, rest: Str)
    ensures DecodedBytes(EncodeByte(b) + rest) == [b] + DecodedBytes(rest)
  {
    var s := EncodeByte(b) + rest;
    if Unreserved(b) {
      assert s[1..] == rest;
    } else {
      HexRoundTrip(b / 16);
      HexRoundTrip(b % 16);
      assert s[3..] == rest;
    }
  }

  lemma {:induction false} BytesRoundTrip(s: Str)
    ensures DecodedBytes(Encoded(s)) == s
  {
    if s != [] {
      BytesRoundTrip(s[1..]);
      DecodeOneByte(s[0], Encoded(s[1..]));
    }
  }

  /** Percent-decoding undoes percent-encoding, for every string. */
  lemma RoundTrip(s: Str)
    requires Utf8.Valid(s)
    ensures Decoded(Encoded(s)) == s
  {
    BytesRoundTrip(s);
    Utf8.LossyIsIdentityOnValid(s);
  }

  /** An encoded text is made of unreserved characters, percent signs and nothing else. */
  lemma {:induction false} EncodedAlphabet(s: Str)
    ensures forall i :: 0 <= i < |Encoded(s)| ==> Plain(Encoded(s)[i]) || Encoded(s)[i] == PERCENT
    ensures s != [] ==> Encoded(s) != []
  {
    if s != [] {
      EncodedAlphabet(s[1..]);
      var piece := EncodeByte(s[0]);
      assert forall i :: 0 <= i < |piece| ==> Plain(piece[i]) || piece[i] == PERCENT;
    }
  }

  // ----- the request line

  /** The bytes up to the next whitespace. */
  function Word(s: Str): (w: Str)
    ensures w <= s
  {
    if s == [] || SpaceLen(s) > 0 then [] else
      var rest := Word(s[1..]);
      assert [s[0]] + rest <= [s[0]] + s[1..] == s;
      [s[0]] + rest
  }

  /** `line.split_whitespace().nth(n)`. */
  function NthWord(line: Str, n: nat): Option<Str>
    decreases n
  {
    var s := TrimStart(line);
    if s == [] then None
    else if n == 0 then Some(Word(s))
    else NthWord(s[|Word(s)|..], n - 1)
  }

  /** A pair that gives the code a value. */
  predicate GivesCode(pair: Str) {
    CODE_EQ <= pair && pair[|CODE_EQ|..] != []
  }

  /** The value of the first pair that gives the code one. */
  function FirstCode(pairs: seq<Str>): Option<Str> {
    if pairs == [] then None
    else if GivesCode(pairs[0]) then Some(pairs[0][|CODE_EQ|..])
    else FirstCode(pairs[1..])
  }

  lemma {:induction false} FirstCodeAt(pairs: seq<Str>, i: nat)
    requires i < |pairs| && GivesCode(pairs[i]) && forall j :: 0 <= j < i ==> !GivesCode(pairs[j])
    ensures FirstCode(pairs) == Some(pairs[i][|CODE_EQ|..])
  {
    hide GivesCode;
    if i > 0 {
      assert pairs[1..][i - 1] == pairs[i];
      FirstCodeAt(pairs[1..], i - 1);
    }
  }

  lemma {:induction false} NoCode(pairs: seq<Str>)
    ensures FirstCode(pairs).None? <==> forall i :: 0 <= i < |pairs| ==> !GivesCode(pairs[i])
  {
    hide GivesCode;
    if pairs != [] {
      NoCode(pairs[1..]);
      assert pairs == [pairs[0]] + pairs[1..];
    }
  }

  /** `parse_code_from_request_line`. */
  function ParseCode(line: Str): Option<Str> {
    var target := NthWord(line, 1);
    if target.None? then None
    else
      var mark := Find(target.value, QUESTION);
      if mark.None? then None
      else
        var v := FirstCode(SplitOn(target.value[mark.value + 1..], AMPERSAND));
        if v.None? then None else Some(Decoded(v.value))
  }

  /** A text with no whitespace anywhere in it. */
  predicate Spaceless(s: Str) {
    forall i :: 0 <= i < |s| ==> SpaceLen(s[i..]) == 0
  }

  /** What ends a word: the end of the line, or whitespace. */
  predicate Ends(s: Str) {
    s == [] || SpaceLen(s) > 0
  }

  /** `s` does not start in the middle of a character. */
  predicate Boundary(s: Str) {
    s == [] || !Utf8.Tail(s[0])
  }

  lemma ValidBoundary(s: Str)
    requires Utf8.Valid(s)
    ensures Boundary(s)
  {
  }

  /** No whitespace character forms across the start of another character. */
  lemma SpacelessAppend(a: Str, b: Str)
    requires Spaceless(a) && Spaceless(b) && Boundary(b)
    ensures Spaceless(a + b)
  {
    forall i | 0 <= i < |a + b|
      ensures SpaceLen((a + b)[i..]) == 0
    {
      if i < |a| {
        SpaceBefore(a[i..], b);
        assert (a + b)[i..] == a[i..] + b;
      } else {
        assert (a + b)[i..] == b[i - |a|..];
      }
    }
  }

  lemma SpaceBefore(a: Str, b: Str)
    requires a != [] && SpaceLen(a) == 0 && Boundary(b)
    ensures SpaceLen(a + b) == 0
  {
    assert forall i :: 0 <= i < |a| ==> (a + b)[i] == a[i];
    if |a| < 3 && |a + b| > |a| {
      assert (a + b)[|a|] == b[0];
    }
  }

  /** A word is read up to what ends it. */
  lemma {:induction false} WordRead(w: Str, rest: Str)
    requires Spaceless(w) && Ends(rest) && Boundary(rest)
    ensures Word(w + rest) == w
  {
    if w == [] {
      assert w + rest == rest;
    } else {
      assert w[0..] == w;
      SpaceBefore(w, rest);
      assert (w + rest)[1..] == w[1..] + rest;
      assert forall i :: 0 <= i < |w[1..]| ==> w[1..][i..] == w[i + 1..];
      WordRead(w[1..], rest);
    }
  }

  /** The second word of a line with one space between the first two. */
  lemma SecondWord(verb: Str, target: Str, rest: Str)
    requires verb != [] && Spaceless(verb) && target != [] && Spaceless(target)
    requires Ends(rest) && Boundary(rest)
    ensures NthWord(verb + [SPACE] + target + rest, 1) == Some(target)
  {
    hide SpaceLen, TrimStart, Word, Spaceless;
    var line := verb + [SPACE] + target + rest;
    var tail := [SPACE] + (target + rest);
    assert line == verb + tail;
    SpaceOpens(target + rest);
    WordRead(verb, tail);
    WordRead(target, rest);
    NoSpaceAtStart(verb, tail);
    NoSpaceAtStart(target, rest);
    assert line[|verb|..] == tail;
    assert tail[1..] == target + rest;
  }

  lemma SpaceOpens(s: Str)
    ensures SpaceLen([SPACE] + s) == 1 && TrimStart([SPACE] + s) == TrimStart(s)
  {
    assert ([SPACE] + s)[1..] == s;
  }

  lemma NoSpaceAtStart(w: Str, rest: Str)
    requires w != [] && Spaceless(w) && Boundary(rest)
    ensures TrimStart(w + rest) == w + rest
  {
    assert w[0..] == w;
    SpaceBefore(w, rest);
  }

  /** Parameters of a query as they are joined. */
  function Query(before: seq<Str>, code: Str, after: seq<Str>): Str {
    Join(before + [CODE_EQ + Encoded(code)] + after, AMPERSAND)
  }

  /** A parameter: any text without whitespace or the separator. */
  predicate Parameter(p: Str) {
    Utf8.Valid(p) && Spaceless(p) && AMPERSAND !in p
  }

  lemma {:induction false} JoinSpaceless(parts: seq<Str>)
    requires |parts| >= 1 && forall i :: 0 <= i < |parts| ==> Parameter(parts[i])
    ensures Spaceless(Join(parts, AMPERSAND))
    ensures Boundary(Join(parts, AMPERSAND))
  {
    assert Parameter(parts[0]);
    ValidBoundary(parts[0]);
    if |parts| > 1 {
      assert forall i :: 0 <= i < |parts[1..]| ==> parts[1..][i] == parts[i + 1];
      JoinSpaceless(parts[1..]);
      var rest := Join(parts[1..], AMPERSAND);
      assert Spaceless([AMPERSAND]) by { assert [AMPERSAND][0..] == [AMPERSAND]; }
      SpacelessAppend([AMPERSAND], rest);
      SpacelessAppend(parts[0], [AMPERSAND] + rest);
      assert parts[0] + [AMPERSAND] + rest == parts[0] + ([AMPERSAND] + rest);
    }
  }

  lemma AsciiSpaceless(s: Str)
    requires forall i :: 0 <= i < |s| ==> 33 <= s[i] < 0x80
    ensures Spaceless(s)
  {
    forall i | 0 <= i < |s|
      ensures SpaceLen(s[i..]) == 0
    {
      assert s[i..][0] == s[i];
    }
  }

  lemma CodeParameter(code: Str)
    ensures Parameter(CODE_EQ + Encoded(code))
  {
    EncodedAlphabet(code);
    var p := CODE_EQ + Encoded(code);
    forall i | 0 <= i < |p|
      ensures 33 <= p[i] < 0x80 && p[i] != AMPERSAND
    {
      if i >= |CODE_EQ| {
        assert p[i] == Encoded(code)[i - |CODE_EQ|];
      }
    }
    AsciiSpaceless(p);
    AsciiValid(p);
  }

  lemma {:induction false} AsciiValid(s: Str)
    requires forall i :: 0 <= i < |s| ==> s[i] < 0x80
    ensures Utf8.Valid(s)
  {
    if s != [] {
      AsciiValid(s[1..]);
    }
  }

  /** The first pair with a value for the code is the code's own. */
  lemma FirstCodeIs(before: seq<Str>, p: Str, after: seq<Str>)
    requires (forall i :: 0 <= i < |before| ==> !GivesCode(before[i])) && GivesCode(p)
    ensures FirstCode(before + [p] + after) == Some(p[|CODE_EQ|..])
  {
    hide GivesCode;
    FirstCodeAt(before + [p] + after, |before|);
  }

  /** A request line as it is read: the second word, after the question mark, at the ampersands, the first code. */
  lemma LineParses(verb: Str, path: Str, pairs: seq<Str>, rest: Str)
    requires verb != [] && Spaceless(verb)
    requires Spaceless(path) && QUESTION !in path
    requires |pairs| >= 1 && forall i :: 0 <= i < |pairs| ==> Parameter(pairs[i])
    requires Ends(rest) && Utf8.Valid(rest)
    ensures ParseCode(verb + [SPACE] + (path + [QUESTION] + Join(pairs, AMPERSAND)) + rest) ==
            if FirstCode(pairs).None? then None else Some(Decoded(FirstCode(pairs).value))
  {
    hide FirstCode, Spaceless, Join, Decoded, NthWord, Find, SplitOn, Ends, Boundary, Utf8.Valid, Parameter;
    ValidBoundary(rest);
    var query := Join(pairs, AMPERSAND);
    var target := path + [QUESTION] + query;
    TargetSpaceless(path, pairs);
    SecondWord(verb, target, rest);
    FindMark(path, query);
    assert target[|path| + 1..] == query;
    ParametersSplit(pairs);
  }

  lemma TargetSpaceless(path: Str, pairs: seq<Str>)
    requires Spaceless(path) && |pairs| >= 1 && forall i :: 0 <= i < |pairs| ==> Parameter(pairs[i])
    ensures Spaceless(path + [QUESTION] + Join(pairs, AMPERSAND))
  {
    hide Spaceless, Join, Parameter;
    JoinSpaceless(pairs);
    var query := Join(pairs, AMPERSAND);
    AsciiSpaceless([QUESTION]);
    SpacelessAppend([QUESTION], query);
    SpacelessAppend(path, [QUESTION] + query);
    assert path + [QUESTION] + query == path + ([QUESTION] + query);
  }

  lemma ParametersSplit(pairs: seq<Str>)
    requires |pairs| >= 1 && forall i :: 0 <= i < |pairs| ==> Parameter(pairs[i])
    ensures SplitOn(Join(pairs, AMPERSAND), AMPERSAND) == pairs
  {
    hide Spaceless, Utf8.Valid, Join, SplitOn;
    SplitOnJoin(pairs, AMPERSAND);
  }

  /** A request line that carries an encoded code parses back to the code, whatever other parameters stand
      around it, as long as none before it gives `code` a value. */
  lemma RequestLineRoundTrip(verb: Str, path: Str, before: seq<Str>, code: Str, after: seq<Str>, rest: Str)
    requires verb != [] && Spaceless(verb)
    requires Spaceless(path) && QUESTION !in path
    requires forall i :: 0 <= i < |before| ==> Parameter(before[i]) && !GivesCode(before[i])
    requires forall i :: 0 <= i < |after| ==> Parameter(after[i])
    requires Utf8.Valid(code) && code != []
    requires Ends(rest) && Utf8.Valid(rest)
    ensures ParseCode(verb + [SPACE] + (path + [QUESTION] + Query(before, code, after)) + rest) == Some(code)
  {
    hide Encoded, Decoded, FirstCode, Spaceless, Join, Parameter, ParseCode;
    var mine := CODE_EQ + Encoded(code);
    EncodedAlphabet(code);
    assert GivesCode(mine) && mine[|CODE_EQ|..] == Encoded(code);
    CodeParameter(code);
    LineParses(verb, path, before + [mine] + after, rest);
    FirstCodeIs(before, mine, after);
    RoundTrip(code);
  }

  /** And it parses to nothing exactly when no parameter gives `code` a value. */
  lemma RequestLineWithoutCode(verb: Str, path: Str, pairs: seq<Str>, rest: Str)
    requires verb != [] && Spaceless(verb)
    requires Spaceless(path) && QUESTION !in path
    requires |pairs| >= 1 && forall i :: 0 <= i < |pairs| ==> Parameter(pairs[i])
    requires Ends(rest) && Utf8.Valid(rest)
    ensures ParseCode(verb + [SPACE] + (path + [QUESTION] + Join(pairs, AMPERSAND)) + rest).None?
       <==> forall i :: 0 <= i < |pairs| ==> !GivesCode(pairs[i])
  {
    hide FirstCode, Spaceless, Join, Parameter, ParseCode, Decoded, GivesCode;
    LineParses(verb, path, pairs, rest);
    NoCode(pairs);
  }

  lemma FindMark(path: Str, query: Str)
    requires QUESTION !in path
    ensures Find(path + [QUESTION] + query, QUESTION) == Some(|path|)
  {
    var target := path + [QUESTION] + query;
    assert target[|path|] == QUESTION && target[..|path|] == path;
  }
}
