/** UTF-8 as section 4 of RFC 3629 defines it, and Rust's lossy reading of bytes. */
module Utf8 {
  import opened Bytes

  predicate Tail(b: byte) {
    0x80 <= b <= 0xBF
  }

  /** May `b` follow the lead byte `lead`? The second-byte column of the grammar. */
  predicate SecondOk(lead: byte, b: byte) {
    if lead == 0xE0 then 0xA0 <= b <= 0xBF
    else if lead == 0xED then 0x80 <= b <= 0x9F
    else if lead == 0xF0 then 0x90 <= b <= 0xBF
    else if lead == 0xF4 then 0x80 <= b <= 0x8F
    else Tail(b)
  }

  /** Length of the well-formed character that opens `s`, or 0 when none does. */
  function CharLen(s: Str): (n: nat)
    ensures n <= |s| && n <= 4
    ensures n == 1 ==> s[0] < 0x80
    ensures n > 1 ==> forall i :: 0 <= i < n ==> s[i] >= 0x80
  {
    if s == [] then 0
    else if s[0] <= 0x7F then 1
    else if |s| >= 2 && 0xC2 <= s[0] <= 0xDF && Tail(s[1]) then 2
    else if |s| >= 3 && 0xE0 <= s[0] <= 0xEF && SecondOk(s[0], s[1]) && Tail(s[2]) then 3
    else if |s| >= 4 && 0xF0 <= s[0] <= 0xF4 && SecondOk(s[0], s[1]) && Tail(s[2]) && Tail(s[3]) then 4
    else 0
  }

  predicate Valid(s: Str)
    decreases |s|
  {
    s == [] || (CharLen(s) > 0 && Valid(s[CharLen(s)..]))
  }

  // ----- the grammar is the encoding

  /** A Unicode scalar value. */
  predicate Scalar(c: int) {
    0 <= c < 0xD800 || 0xE000 <= c <= 0x10FFFF
  }

  /** The encoding of a scalar value, as section 3 of RFC 3629 gives it. */
  function Encode(c: int): Str
    requires Scalar(c)
  {
    if c < 0x80 then [c]
    else if c < 0x800 then [0xC0 + c / 64, 0x80 + c % 64]
    else if c < 0x10000 then [0xE0 + c / 64 / 64, 0x80 + c / 64 % 64, 0x80 + c % 64]
    else [0xF0 + c / 64 / 64 / 64, 0x80 + c / 64 / 64 % 64, 0x80 + c / 64 % 64, 0x80 + c % 64]
  }

  /** Only the bytes of the character decide its length. */
  lemma CharLenPrefix(s: Str, t: Str)
    requires CharLen(s) > 0 && CharLen(s) <= |t| && t[..CharLen(s)] == s[..CharLen(s)]
    ensures CharLen(t) == CharLen(s)
  {
    var n := CharLen(s);
    forall i | 0 <= i < n
      ensures t[i] == s[i]
    {
      assert t[..n][i] == s[..n][i];
    }
  }

  /** Every encoded scalar value is one character of the grammar, whatever follows it. */
  lemma EncodedIsCharacter(c: int, rest: Str)
    requires Scalar(c)
    ensures CharLen(Encode(c) + rest) == |Encode(c)|
  {
    EncodedAlone(c);
    hide CharLen;
    assert (Encode(c) + rest)[..|Encode(c)|] == Encode(c) == Encode(c)[..|Encode(c)|];
    CharLenPrefix(Encode(c), Encode(c) + rest);
  }

  lemma EncodedAlone(c: int)
    requires Scalar(c)
    ensures CharLen(Encode(c)) == |Encode(c)|
  {
    if c >= 0x10000 {
      FourBytes(c);
    } else if c >= 0x800 {
      ThreeBytes(c);
    }
  }

  lemma ThreeBytes(c: int)
    requires Scalar(c) && 0x800 <= c < 0x10000
    ensures CharLen(Encode(c)) == 3
  {
    var high := c / 64;
    assert 0x20 <= high < 0x400 && !(0x360 <= high < 0x380);
    var lead, second: int := 0xE0 + high / 64, 0x80 + high % 64;
    assert SecondOk(lead, second);
  }

  lemma FourBytes(c: int)
    requires Scalar(c) && 0x10000 <= c
    ensures CharLen(Encode(c)) == 4
  {
    var high := c / 64 / 64;
    assert 0x10 <= high <= 0x10F;
    var lead, second: int := 0xF0 + high / 64, 0x80 + high % 64;
    assert SecondOk(lead, second);
  }

  /** And every character of the grammar is an encoded scalar value. */
  lemma CharacterIsEncoded(s: Str) returns (c: int)
    requires CharLen(s) > 0
    ensures Scalar(c) && Encode(c) == s[..CharLen(s)]
  {
    var n := CharLen(s);
    if n == 1 {
      c := s[0];
    } else if n == 2 {
      var a: int, b: int := s[0], s[1];
      c := (a - 0xC0) * 64 + (b - 0x80);
    } else if n == 3 {
      c := ThreeDecoded(s);
    } else {
      c := FourDecoded(s);
    }
  }

  lemma ThreeDecoded(s: Str) returns (c: int)
    requires CharLen(s) == 3
    ensures Scalar(c) && Encode(c) == s[..3]
  {
    var a: int, b: int, d: int := s[0], s[1], s[2];
    var high := (a - 0xE0) * 64 + (b - 0x80);
    c := high * 64 + (d - 0x80);
    LastDigit(a - 0xE0, b - 0x80);
    LastDigit(high, d - 0x80);
    assert 0x20 <= high < 0x400 && !(0x360 <= high < 0x380);
  }

  lemma FourDecoded(s: Str) returns (c: int)
    requires CharLen(s) == 4
    ensures Scalar(c) && Encode(c) == s[..4]
  {
    var a: int, b: int, d: int, e: int := s[0], s[1], s[2], s[3];
    var top := (a - 0xF0) * 64 + (b - 0x80);
    var high := top * 64 + (d - 0x80);
    c := high * 64 + (e - 0x80);
    LastDigit(a - 0xF0, b - 0x80);
    LastDigit(top, d - 0x80);
    LastDigit(high, e - 0x80);
    assert 0x10 <= top <= 0x10F;
  }

  /** Taking the last digit off, in base 64. */
  lemma LastDigit(x: int, y: int)
    requires 0 <= y < 64
    ensures (x * 64 + y) / 64 == x && (x * 64 + y) % 64 == y
  {
  }

  /** Unicode's White_Space. */
  predicate White(c: int) {
    c in {9, 10, 11, 12, 13, 0x20, 0x85, 0xA0, 0x1680, 0x2000, 0x2001, 0x2002, 0x2003, 0x2004, 0x2005, 0x2006, 0x2007,
          0x2008, 0x2009, 0x200A, 0x2028, 0x2029, 0x202F, 0x205F, 0x3000}
  }

  /** The bytes trimming takes for a whitespace character are the encodings of those, and no others. */
  lemma SpaceIsWhite(c: int, rest: Str)
    requires Scalar(c)
    ensures SpaceLen(Encode(c) + rest) == if White(c) then |Encode(c)| else 0
  {
    var s := Encode(c) + rest;
    assert forall i :: 0 <= i < |Encode(c)| ==> s[i] == Encode(c)[i];
    if c >= 0x10000 {
      assert s[0] >= 0xF0;
    } else if c >= 0x800 {
      WideIsWhite(c);
      assert s[0] >= 0xE0;
    } else if c >= 0x80 {
      assert s[0] == 0xC0 + c / 64 && s[1] == 0x80 + c % 64;
    }
  }

  lemma WideIsWhite(c: int)
    requires Scalar(c) && 0x800 <= c < 0x10000
    ensures WideSpace(Encode(c)[0], Encode(c)[1], Encode(c)[2]) <==> White(c)
  {
    var high, low := c / 64, c % 64;
    assert c == high * 64 + low && high == high / 64 * 64 + high % 64;
  }

  lemma ValidPrepend(c: Str, s: Str)
    requires c != [] && CharLen(c) == |c| && Valid(s)
    ensures Valid(c + s)
  {
    var t := c + s;
    assert t[..|c|] == c == c[..|c|];
    CharLenPrefix(c, t);
    assert t[|c|..] == s;
  }

  /** The first character of `s` in front of another valid text. */
  lemma ValidPushBack(s: Str, n: nat, rest: Str)
    requires s != [] && n == CharLen(s) > 0 && Valid(rest)
    ensures Valid(s[..n] + rest)
  {
    hide Valid;
    CharLenPrefix(s, s[..n]);
    ValidPrepend(s[..n], rest);
  }

  lemma ValidTail(s: Str)
    requires Valid(s) && s != []
    ensures CharLen(s) > 0 && Valid(s[CharLen(s)..])
  {
  }

  lemma {:induction false} ValidConcat(a: Str, b: Str)
    requires Valid(a) && Valid(b)
    ensures Valid(a + b)
    decreases |a|
  {
    hide Valid, CharLen;
    if a == [] {
      assert a + b == b;
    } else {
      var n := CharLen(a);
      ValidTail(a);
      ValidConcat(a[n..], b);
      ValidPushBack(a, n, a[n..] + b);
      assert a[..n] + (a[n..] + b) == a + b;
    }
  }

  /** U+FFFD. */
  const REPLACEMENT: Str := [0xEF, 0xBF, 0xBD]

  /** Length of the ill-formed piece that opens `s`: the longest start of a character, at least one byte. */
  function BadLen(s: Str): (n: nat)
    requires s != [] && CharLen(s) == 0
    ensures 1 <= n <= |s|
  {
    if |s| >= 2 && 0xE0 <= s[0] <= 0xF4 && SecondOk(s[0], s[1]) then
      if |s| >= 3 && s[0] >= 0xF0 && Tail(s[2]) then 3 else 2
    else 1
  }

  /** `String::from_utf8_lossy`. */
  function Lossy(s: Str): (t: Str)
    decreases |s|
  {
    if s == [] then []
    else if CharLen(s) > 0 then s[..CharLen(s)] + Lossy(s[CharLen(s)..])
    else REPLACEMENT + Lossy(s[BadLen(s)..])
  }

  /** The bytes `s` can be the start of a longer character. */
  ghost predicate StartsCharacter(s: Str) {
    exists more: Str :: CharLen(s + more) > |s|
  }

  /** The ill-formed piece is the longest that starts a character, or one byte where none does. */
  lemma BadLenMeans(s: Str, n: nat)
    requires s != [] && CharLen(s) == 0 && 0 < n <= |s|
    ensures n > BadLen(s) ==> !StartsCharacter(s[..n])
    ensures BadLen(s) > 1 ==> StartsCharacter(s[..BadLen(s)])
  {
    var bad := BadLen(s);
    forall more: Str | CharLen(s[..n] + more) > n
      ensures n <= bad
    {
      var t := s[..n] + more;
      assert forall i :: 0 <= i < n ==> t[i] == s[i];
    }
    if bad == 2 {
      var t := s[..2] + [0x80, 0x80];
      assert t[0] == s[0] && t[1] == s[1] && t[2] == 0x80 && t[3] == 0x80;
      assert CharLen(s[..2] + [0x80, 0x80]) > 2;
    } else if bad == 3 {
      var t := s[..3] + [0x80];
      assert t[0] == s[0] && t[1] == s[1] && t[2] == s[2] && t[3] == 0x80;
      assert CharLen(s[..3] + [0x80]) > 3;
    }
  }

  lemma Regroup3(a: Str, b: Str, c: Str, d: Str)
    ensures a + (b + c + d) == a + b + c + d
  {
  }

  /** The lossy reading copies what is well-formed and puts U+FFFD for each ill-formed piece. */
  lemma {:induction false} LossyReplaces(a: Str, s: Str)
    requires Valid(a)
    ensures s == [] ==> Lossy(a + s) == a
    ensures s != [] && CharLen(s) == 0 ==> Lossy(a + s) == a + [0xEF, 0xBF, 0xBD] + Lossy(s[BadLen(s)..])
    decreases |a|
  {
    hide CharLen, BadLen;
    if a == [] {
      assert a + s == s;
    } else {
      var n := CharLen(a);
      assert (a + s)[..n] == a[..n];
      CharLenPrefix(a, a + s);
      assert (a + s)[n..] == a[n..] + s;
      LossyReplaces(a[n..], s);
      assert a == a[..n] + a[n..];
      if s != [] && CharLen(s) == 0 {
        Regroup3(a[..n], a[n..], [0xEF, 0xBF, 0xBD], Lossy(s[BadLen(s)..]));
      }
    }
  }

  /** The lossy reading always is UTF-8, and it is the input exactly when the input already was. */
  lemma LossyIsIdentityOnValid(s: Str)
    ensures Valid(Lossy(s))
    ensures Valid(s) <==> Lossy(s) == s
  {
    LossyIsValid(s);
    if Valid(s) {
      LossyKeepsValid(s);
    }
  }

  lemma {:induction false} LossyIsValid(s: Str)
    ensures Valid(Lossy(s))
    decreases |s|
  {
    if s == [] {
    } else if CharLen(s) > 0 {
      LossyIsValid(s[CharLen(s)..]);
      ValidPushBack(s, CharLen(s), Lossy(s[CharLen(s)..]));
    } else {
      LossyIsValid(s[BadLen(s)..]);
      ValidPrepend(REPLACEMENT, Lossy(s[BadLen(s)..]));
    }
  }

  lemma {:induction false} LossyKeepsValid(s: Str)
    requires Valid(s)
    ensures Lossy(s) == s
    decreases |s|
  {
    if s != [] {
      LossyKeepsValid(s[CharLen(s)..]);
    }
  }
}
