/**
  Byte strings, as the Rust sources see a `&str` through `as_bytes`, and the small
  text operations those sources take from the Rust standard library.
*/
module Bytes {

  type byte = b: int | 0 <= b < 256

  /** A Rust string, as the bytes of its UTF-8 encoding. */
  type Str = seq<byte>

  datatype Option<+T> = None | Some(value: T)

  /** `s.split(sep)` for a one-element separator: always at least one part. */
  function SplitOn<T(==)>(s: seq<T>, sep: T): (parts: seq<seq<T>>)
    ensures |parts| >= 1
  {
    if s == [] then [[]]
    else
      var rest := SplitOn(s[1..], sep);
      if s[0] == sep then [[]] + rest else [[s[0]] + rest[0]] + rest[1..]
  }

  /** `parts.join(sep)`. */
  function Join<T>(parts: seq<seq<T>>, sep: T): (s: seq<T>)
    requires |parts| >= 1
  {
    if |parts| == 1 then parts[0] else parts[0] + [sep] + Join(parts[1..], sep)
  }

  /** A text without the separator is one part. */
  lemma {:induction false} SplitOnWhole<T>(s: seq<T>, sep: T)
    requires sep !in s
    ensures SplitOn(s, sep) == [s]
  {
    if s != [] {
      SplitOnWhole(s[1..], sep);
      assert [s[0]] + s[1..] == s;
    }
  }

  /** Splitting undoes joining, for parts that do not hold the separator. */
  lemma {:induction false} SplitOnJoin<T>(parts: seq<seq<T>>, sep: T)
    requires |parts| >= 1
    requires forall i :: 0 <= i < |parts| ==> sep !in parts[i]
    ensures SplitOn(Join(parts, sep), sep) == parts
  {
    if |parts| == 1 {
      SplitOnWhole(parts[0], sep);
    } else {
      SplitOnJoin(parts[1..], sep);
      SplitOnAppend(parts[0], Join(parts[1..], sep), sep);
      assert parts[0] + [sep] + Join(parts[1..], sep) == Join(parts, sep);
      assert [parts[0]] + parts[1..] == parts;
    }
  }

  lemma {:induction false} SplitOnAppend<T>(head: seq<T>, tail: seq<T>, sep: T)
    requires sep !in head
    ensures SplitOn(head + [sep] + tail, sep) == [head] + SplitOn(tail, sep)
  {
    var s := head + [sep] + tail;
    if head == [] {
      assert s[1..] == tail;
    } else {
      assert s[1..] == head[1..] + [sep] + tail;
      SplitOnAppend(head[1..], tail, sep);
      var rest := SplitOn(s[1..], sep);
      assert rest[1..] == SplitOn(tail, sep);
      assert [head[0]] + head[1..] == head;
    }
  }

  /** `needle` stands at offset `i` of `hay`. */
  predicate OccursAt<T(==)>(hay: seq<T>, needle: seq<T>, i: int) {
    0 <= i <= |hay| - |needle| && hay[i..i + |needle|] == needle
  }

  /** `hay.contains(needle)`. */
  predicate Contains(hay: Str, needle: Str) {
    exists i | 0 <= i <= |hay| :: OccursAt(hay, needle, i)
  }

  lemma ContainsMeans(hay: Str, needle: Str)
    ensures Contains(hay, needle) <==> exists front: Str, back: Str :: hay == front + needle + back
  {
    if Contains(hay, needle) {
      var i :| 0 <= i <= |hay| && OccursAt(hay, needle, i);
      assert hay == hay[..i] + needle + hay[i + |needle|..];
    }
    forall front: Str, back: Str | hay == front + needle + back
      ensures OccursAt(hay, needle, |front|)
    {
      assert hay[|front|..|front| + |needle|] == needle;
    }
  }

  /** First offset of `b`. */
  function Find(s: Str, b: byte): (at: Option<nat>)
    ensures at.Some? ==> at.value < |s| && s[at.value] == b && b !in s[..at.value]
    ensures at.None? ==> b !in s
  {
    if s == [] then None
    else if s[0] == b then Some(0)
    else
      var rest := Find(s[1..], b);
      if rest.None? then None else
        assert s[..rest.value + 1] == [s[0]] + s[1..][..rest.value];
        Some(rest.value + 1)
  }

  /** Last offset of `b`. */
  function FindLast(s: Str, b: byte): (at: Option<nat>)
    ensures at.Some? ==> at.value < |s| && s[at.value] == b && b !in s[at.value + 1..]
    ensures at.None? ==> b !in s
  {
    if s == [] then None
    else if s[|s| - 1] == b then Some(|s| - 1)
    else
      var most := FindLast(s[..|s| - 1], b);
      if most.None? then None else
        assert s[most.value + 1..] == s[..|s| - 1][most.value + 1..] + [s[|s| - 1]];
        most
  }

  /** Length in bytes of the `char::is_whitespace` character that opens `s`, or 0. */
  function SpaceLen(s: Str): (n: nat)
    ensures n <= |s|
  {
    if |s| >= 1 && (9 <= s[0] <= 13 || s[0] == 32) then 1
    else if |s| >= 2 && s[0] == 0xC2 && (s[1] == 0x85 || s[1] == 0xA0) then 2
    else if |s| >= 3 && WideSpace(s[0], s[1], s[2]) then 3
    else 0
  }

  /** Length in bytes of the whitespace character that ends `s`, or 0. */
  function SpaceLenBack(s: Str): (n: nat)
    ensures n <= |s|
  {
    var k := |s|;
    if k >= 1 && (9 <= s[k-1] <= 13 || s[k-1] == 32) then 1
    else if k >= 2 && s[k-2] == 0xC2 && (s[k-1] == 0x85 || s[k-1] == 0xA0) then 2
    else if k >= 3 && WideSpace(s[k-3], s[k-2], s[k-1]) then 3
    else 0
  }

  /** U+1680, U+2000..U+200A, U+2028, U+2029, U+202F, U+205F, U+3000. */
  predicate WideSpace(a: byte, b: byte, c: byte) {
    || (a == 0xE1 && b == 0x9A && c == 0x80)
    || (a == 0xE2 && b == 0x80 && (0x80 <= c <= 0x8A || c == 0xA8 || c == 0xA9 || c == 0xAF))
    || (a == 0xE2 && b == 0x81 && c == 0x9F)
    || (a == 0xE3 && b == 0x80 && c == 0x80)
  }

  function TrimStart(s: Str): (t: Str)
    ensures SpaceLen(t) == 0
    decreases |s|
  {
    if SpaceLen(s) == 0 then s else TrimStart(s[SpaceLen(s)..])
  }

  function TrimEnd(s: Str): (t: Str)
    ensures SpaceLenBack(t) == 0 && t <= s
    decreases |s|
  {
    if SpaceLenBack(s) == 0 then s else TrimEnd(s[..|s| - SpaceLenBack(s)])
  }

  /** `s.trim()`. */
  function Trim(s: Str): (t: Str)
    ensures SpaceLenBack(t) == 0
  {
    TrimEnd(TrimStart(s))
  }

  // ----- what trimming leaves

  /** Whitespace characters and nothing else. */
  predicate AllSpace(s: Str)
    decreases |s|
  {
    s == [] || (SpaceLen(s) > 0 && AllSpace(s[SpaceLen(s)..]))
  }

  /** Seen from the end, a text closes with the same whitespace characters that open one. */
  lemma SpaceLenBackMeans(s: Str)
    ensures SpaceLenBack(s) > 0 <==> exists k :: 0 <= k < |s| && SpaceLen(s[k..]) == |s| - k
  {
    hide SpaceLen, SpaceLenBack;
    if SpaceLenBack(s) > 0 {
      LastSpaceCharacter(s);
    }
    forall k | 0 <= k < |s| && SpaceLen(s[k..]) == |s| - k
      ensures SpaceLenBack(s) > 0
    {
      ClosingSpace(s, k);
    }
  }

  lemma ClosingSpace(s: Str, k: nat)
    requires k < |s| && SpaceLen(s[k..]) == |s| - k
    ensures SpaceLenBack(s) == |s| - k
  {
    var c := s[k..];
    assert |c| <= 3 && c[0] == s[k] && c[|c| - 1] == s[|s| - 1];
    assert |c| == 3 ==> c[1] == s[k + 1];
  }

  /** Only its own bytes make a whitespace character. */
  lemma SpaceLenPrefix(c: Str, rest: Str)
    requires SpaceLen(c) == |c| > 0
    ensures SpaceLen(c + rest) == |c|
  {
    assert forall i :: 0 <= i < |c| ==> (c + rest)[i] == c[i];
  }

  lemma SpaceCharacter(s: Str)
    requires SpaceLen(s) > 0
    ensures SpaceLen(s[..SpaceLen(s)]) == SpaceLen(s)
  {
  }

  lemma LastSpaceCharacter(s: Str)
    requires SpaceLenBack(s) > 0
    ensures var c := s[|s| - SpaceLenBack(s)..]; SpaceLen(c) == |c| == SpaceLenBack(s) && AllSpace(c)
  {
    var c := s[|s| - SpaceLenBack(s)..];
    assert forall i :: 0 <= i < |c| ==> c[i] == s[|s| - |c| + i];
    assert c[|c|..] == [];
  }

  lemma {:induction false} AllSpaceAppend(a: Str, b: Str)
    requires AllSpace(a) && AllSpace(b)
    ensures AllSpace(a + b)
    decreases |a|
  {
    hide SpaceLen;
    if a == [] {
      assert a + b == b;
    } else {
      var n := SpaceLen(a);
      AllSpaceAppend(a[n..], b);
      SpaceCharacter(a);
      SpaceLenPrefix(a[..n], a[n..] + b);
      assert a[..n] + (a[n..] + b) == a + b;
      assert (a + b)[n..] == a[n..] + b;
    }
  }

  lemma Regroup(a: Str, b: Str, c: Str)
    ensures a + b + c == a + (b + c)
  {
  }

  lemma {:induction false} TrimStartCuts(s: Str) returns (front: Str)
    ensures AllSpace(front) && s == front + TrimStart(s)
    decreases |s|
  {
    hide SpaceLen;
    var n := SpaceLen(s);
    if n == 0 {
      front := [];
    } else {
      var t := TrimStart(s);
      var more := TrimStartCuts(s[n..]);
      hide TrimStart;
      front := s[..n] + more;
      SpaceCharacter(s);
      SpaceLenPrefix(s[..n], more);
      assert front[n..] == more;
      assert s == s[..n] + s[n..];
      Regroup(s[..n], more, t);
    }
  }

  lemma {:induction false} TrimEndCuts(s: Str) returns (back: Str)
    ensures AllSpace(back) && s == TrimEnd(s) + back
    decreases |s|
  {
    hide SpaceLen, SpaceLenBack;
    var n := SpaceLenBack(s);
    if n == 0 {
      back := [];
    } else {
      var t := TrimEnd(s);
      var more := TrimEndCuts(s[..|s| - n]);
      hide TrimEnd;
      back := more + s[|s| - n..];
      LastSpaceCharacter(s);
      AllSpaceAppend(more, s[|s| - n..]);
      assert s == s[..|s| - n] + s[|s| - n..];
      Regroup(t, more, s[|s| - n..]);
    }
  }

  /** `s` is `t` with whitespace around it. */
  ghost predicate Around(s: Str, front: Str, t: Str, back: Str) {
    AllSpace(front) && AllSpace(back) && s == front + t + back
  }

  /** Trimming takes off whitespace only, at both ends, and all of it. */
  lemma TrimMeans(s: Str)
    ensures exists front, back :: Around(s, front, Trim(s), back)
    ensures SpaceLen(Trim(s)) == 0 && SpaceLenBack(Trim(s)) == 0
  {
    hide SpaceLen, SpaceLenBack, TrimStart, TrimEnd, AllSpace;
    var front := TrimStartCuts(s);
    var back := TrimEndCuts(TrimStart(s));
    Regroup(front, Trim(s), back);
    assert Around(s, front, Trim(s), back);
    SpaceLenOfPrefix(Trim(s), TrimStart(s));
  }

  /** What is trimmed to nothing is whitespace, and the other way round. */
  lemma BlankMeans(s: Str)
    ensures Trim(s) == [] <==> AllSpace(s)
  {
    hide SpaceLen, SpaceLenBack, TrimStart;
    if Trim(s) == [] {
      TrimMeans(s);
      var front, back :| Around(s, front, Trim(s), back);
      assert s == front + back;
      AllSpaceAppend(front, back);
    }
    if AllSpace(s) {
      SpaceIsTrimmed(s);
    }
  }

  lemma {:induction false} SpaceIsTrimmed(s: Str)
    requires AllSpace(s)
    ensures TrimStart(s) == []
    decreases |s|
  {
    hide SpaceLen;
    if s != [] {
      SpaceIsTrimmed(s[SpaceLen(s)..]);
    } else {
      NothingToTrim();
    }
  }

  lemma NothingToTrim()
    ensures TrimStart([]) == []
  {
  }

  lemma SpaceLenOfPrefix(t: Str, s: Str)
    requires t <= s
    ensures SpaceLen(t) > 0 ==> SpaceLen(s) > 0
  {
    assert forall i :: 0 <= i < |t| ==> t[i] == s[i];
  }

  /** Lexicographic order: of bytes, or of character codes. */
  predicate LexLeq(a: seq<int>, b: seq<int>) {
    a == [] || (b != [] && (a[0] < b[0] || (a[0] == b[0] && LexLeq(a[1..], b[1..]))))
  }

  /** The first place where two differ decides, and a text comes before what goes on after it. */
  lemma {:induction false} LexMeans(a: seq<int>, b: seq<int>)
    ensures LexLeq(a, b) <==> a <= b || exists k :: FirstDiffer(a, b, k) && a[k] < b[k]
  {
    if a != [] && b != [] {
      assert a == [a[0]] + a[1..] && b == [b[0]] + b[1..];
      if a[0] == b[0] {
        LexMeans(a[1..], b[1..]);
        forall k | 0 <= k < |a[1..]|
          ensures FirstDiffer(a[1..], b[1..], k) <==> FirstDiffer(a, b, k + 1)
        {
          DifferLater(a, b, k);
        }
        forall k | FirstDiffer(a, b, k)
          ensures FirstDiffer(a[1..], b[1..], k - 1)
        {
          DifferLater(a, b, k - 1);
        }
      } else {
        assert FirstDiffer(a, b, 0);
      }
    }
  }

  ghost predicate FirstDiffer(a: seq<int>, b: seq<int>, k: int) {
    0 <= k < |a| && k < |b| && a[k] != b[k] && forall i :: 0 <= i < k ==> a[i] == b[i]
  }

  lemma DifferLater(a: seq<int>, b: seq<int>, k: nat)
    requires a != [] && b != [] && a[0] == b[0]
    ensures FirstDiffer(a[1..], b[1..], k) <==> FirstDiffer(a, b, k + 1)
  {
    if FirstDiffer(a[1..], b[1..], k) {
      forall i | 0 <= i < k + 1
        ensures a[i] == b[i]
      {
        assert i > 0 ==> a[1..][i - 1] == b[1..][i - 1];
      }
    }
  }

  lemma {:induction false} LexTotal(a: seq<int>, b: seq<int>)
    ensures LexLeq(a, b) || LexLeq(b, a)
    ensures LexLeq(a, b) && LexLeq(b, a) ==> a == b
  {
    if a != [] && b != [] && a[0] == b[0] {
      LexTotal(a[1..], b[1..]);
      assert a == [a[0]] + a[1..] && b == [b[0]] + b[1..];
    }
  }

  lemma {:induction false} LexTransitive(a: seq<int>, b: seq<int>, c: seq<int>)
    requires LexLeq(a, b) && LexLeq(b, c)
    ensures LexLeq(a, c)
  {
    if a != [] && a[0] == b[0] && b[0] == c[0] {
      LexTransitive(a[1..], b[1..], c[1..]);
    }
  }
}
