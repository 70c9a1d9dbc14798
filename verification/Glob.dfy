/** The tool-name matcher of the hook engine: `glob_match` and `matches_tool`. */
module Glob {
  import opened Bytes

  const STAR: byte := 42
  const BAR: byte := 124

  /** The meaning of a pattern: `*` is any run of bytes, every other byte is itself. */
  predicate Matches(pat: Str, s: Str)
    decreases |pat|
  {
    if pat == [] then s == []
    else if pat[0] == STAR then exists k :: 0 <= k <= |s| && Matches(pat[1..], s[k..])
    else s != [] && s[0] == pat[0] && Matches(pat[1..], s[1..])
  }

  /** A star takes one byte more, or none. */
  lemma StarStep(pat: Str, s: Str)
    requires pat != [] && pat[0] == STAR && s != []
    ensures Matches(pat, s) <==> Matches(pat[1..], s) || Matches(pat, s[1..])
  {
    assert s[0..] == s;
    if Matches(pat, s) && !Matches(pat[1..], s) {
      var k :| 0 <= k <= |s| && Matches(pat[1..], s[k..]);
      assert s[1..][k - 1..] == s[k..];
    }
    if Matches(pat, s[1..]) {
      var k :| 0 <= k <= |s[1..]| && Matches(pat[1..], s[1..][k..]);
      assert s[1..][k..] == s[k + 1..];
    }
  }

  /** A pattern that opens with a star and matches a suffix matches the whole. */
  lemma {:induction false} StarAbsorbs(pat: Str, s: Str, k: nat)
    requires pat != [] && pat[0] == STAR && k <= |s| && Matches(pat, s[k..])
    ensures Matches(pat, s)
  {
    var j := StarRun(pat, s[k..]);
    assert s[k..][j..] == s[k + j..];
  }

  /** A star-free start of a pattern takes exactly its own length. */
  lemma {:induction false} LiteralTakesItsLength(pat: Str, n: nat, s: Str)
    requires n <= |pat| && STAR !in pat[..n] && Matches(pat, s)
    ensures n <= |s| && Matches(pat[n..], s[n..])
  {
    if n > 0 {
      assert pat[0] == pat[..n][0];
      assert pat[1..][..n - 1] == pat[..n][1..];
      LiteralTakesItsLength(pat[1..], n - 1, s[1..]);
      assert pat[1..][n - 1..] == pat[n..] && s[1..][n - 1..] == s[n..];
    }
  }

  /** The run a star takes. */
  lemma StarRun(pat: Str, s: Str) returns (k: nat)
    requires pat != [] && pat[0] == STAR && Matches(pat, s)
    ensures k <= |s| && Matches(pat[1..], s[k..])
  {
    k :| 0 <= k <= |s| && Matches(pat[1..], s[k..]);
  }

  /** Why only the last star is kept: whatever an earlier star could still reach from `mark + 1`,
      a star at `p` reaches from `si`. */
  lemma LaterStarSuffices(pat: Str, s: Str, sp: nat, p: nat, mark: nat, si: nat)
    requires sp < p < |pat| && pat[sp] == STAR && pat[p] == STAR
    requires STAR !in pat[sp + 1..p]
    requires mark <= si < |s| && si - mark == p - sp - 1
    requires Matches(pat[sp..], s[mark + 1..])
    ensures Matches(pat[p..], s[si..])
  {
    hide Matches;
    var t := s[mark + 1..];
    assert pat[sp..][1..] == pat[sp + 1..];
    var k := StarRun(pat[sp..], t);
    var n := p - sp - 1;
    assert pat[sp + 1..][..n] == pat[sp + 1..p];
    LiteralTakesItsLength(pat[sp + 1..], n, t[k..]);
    assert pat[sp + 1..][n..] == pat[p..];
    assert t[k..][n..] == s[si..][k + 1..];
    StarAbsorbs(pat[p..], s[si..], k + 1);
  }

  /** A pattern meets the end of the text exactly when only stars are left of it. */
  lemma {:induction false} MatchesEmpty(pat: Str)
    ensures Matches(pat, []) <==> forall i :: 0 <= i < |pat| ==> pat[i] == STAR
  {
    if pat != [] {
      MatchesEmpty(pat[1..]);
      var e: Str := [];
      assert e[0..] == e;
      assert pat == [pat[0]] + pat[1..];
      assert (forall i :: 0 <= i < |pat| ==> pat[i] == STAR) <==>
             pat[0] == STAR && (forall i :: 0 <= i < |pat[1..]| ==> pat[1..][i] == STAR) by {
        if pat[0] == STAR && (forall i :: 0 <= i < |pat[1..]| ==> pat[1..][i] == STAR) {
          assert forall i :: 1 <= i < |pat| ==> pat[i] == pat[1..][i - 1];
        }
      }
    }
  }

  /** The last-star search: what is still open when the scan stands at `p` and `si`. */
  ghost predicate Open(pat: Str, s: Str, p: nat, si: nat, star: Option<nat>, mark: nat)
    requires p <= |pat| && si <= |s| && mark <= |s|
    requires star.Some? ==> star.value < |pat|
  {
    Matches(pat[p..], s[si..]) || (star.Some? && mark < |s| && Matches(pat[star.value..], s[mark + 1..]))
  }

  /** Where the scan may stand: the literal after the last star has matched since `mark`. */
  ghost predicate Scan(pat: Str, s: Str, p: nat, si: nat, star: Option<nat>, mark: nat) {
    && p <= |pat| && mark <= si <= |s|
    && (star.Some? ==>
          && star.value < p && pat[star.value] == STAR
          && STAR !in pat[star.value + 1..p]
          && si - mark == p - star.value - 1)
    && (star.None? ==> mark == 0)
  }

  lemma AtStart(pat: Str, s: Str)
    ensures Open(pat, s, 0, 0, None, 0) == Matches(pat, s)
  {
    assert pat[0..] == pat && s[0..] == s;
  }

  lemma TakeStar(pat: Str, s: Str, p: nat, si: nat, star: Option<nat>, mark: nat)
    requires Scan(pat, s, p, si, star, mark) && si < |s| && p < |pat| && pat[p] == STAR
    ensures Open(pat, s, p, si, star, mark) == Open(pat, s, p + 1, si, Some(p), si)
  {
    assert pat[p..][1..] == pat[p + 1..] && s[si..][1..] == s[si + 1..];
    StarStep(pat[p..], s[si..]);
    if star.Some? && mark < |s| && Matches(pat[star.value..], s[mark + 1..]) {
      LaterStarSuffices(pat, s, star.value, p, mark, si);
    }
  }

  lemma TakeByte(pat: Str, s: Str, p: nat, si: nat, star: Option<nat>, mark: nat)
    requires Scan(pat, s, p, si, star, mark) && si < |s| && p < |pat| && pat[p] == s[si] && pat[p] != STAR
    ensures Open(pat, s, p, si, star, mark) == Open(pat, s, p + 1, si + 1, star, mark)
    ensures Scan(pat, s, p + 1, si + 1, star, mark)
  {
    assert pat[p..][1..] == pat[p + 1..] && s[si..][1..] == s[si + 1..];
    assert star.Some? ==> pat[star.value + 1..p + 1] == pat[star.value + 1..p] + [pat[p]];
  }

  /** Nothing matches from here, so what is open is what the star reaches one byte on. */
  lemma BackTrack(pat: Str, s: Str, p: nat, si: nat, star: Option<nat>, mark: nat)
    requires Scan(pat, s, p, si, star, mark) && si < |s|
    requires p < |pat| ==> pat[p] != STAR && pat[p] != s[si]
    ensures star.None? ==> !Open(pat, s, p, si, star, mark)
    ensures star.Some? ==> Open(pat, s, p, si, star, mark) == Open(pat, s, star.value + 1, mark + 1, star, mark + 1)
  {
    assert !Matches(pat[p..], s[si..]);
    if star.Some? {
      var sp, t := star.value, s[mark + 1..];
      assert pat[sp..][1..] == pat[sp + 1..];
      if t == [] {
        assert t[0..] == t;
      } else {
        StarStep(pat[sp..], t);
        assert t[1..] == s[mark + 2..];
      }
    }
  }

  lemma AtEnd(pat: Str, s: Str, p: nat, star: Option<nat>, mark: nat)
    requires Scan(pat, s, p, |s|, star, mark)
    ensures Open(pat, s, p, |s|, star, mark) <==> forall i :: p <= i < |pat| ==> pat[i] == STAR
  {
    if star.Some? && mark < |s| {
      SuffixTooShort(pat, star.value, p, s[mark + 1..]);
    }
    assert s[|s|..] == [];
    MatchesEmpty(pat[p..]);
    assert forall i :: p <= i < |pat| ==> pat[i] == pat[p..][i - p];
  }

  /** With the text used up, the literal after the star cannot also fit one byte later. */
  lemma SuffixTooShort(pat: Str, sp: nat, p: nat, t: Str)
    requires sp < p <= |pat| && pat[sp] == STAR && STAR !in pat[sp + 1..p]
    requires |t| < p - sp - 1
    ensures !Matches(pat[sp..], t)
  {
    hide Matches;
    if Matches(pat[sp..], t) {
      assert pat[sp..][1..] == pat[sp + 1..];
      var k := StarRun(pat[sp..], t);
      assert pat[sp + 1..][..p - sp - 1] == pat[sp + 1..p];
      LiteralTakesItsLength(pat[sp + 1..], p - sp - 1, t[k..]);
    }
  }

  /** `glob_match`, with the number of rounds its main loop made. */
  method GlobMatch(pat: Str, s: Str) returns (matched: bool, ghost rounds: nat)
    ensures matched == Matches(pat, s)
    ensures rounds < (|s| + 1) * (|pat| + 1)
  {
    hide Matches, Open, Paid;
    var p: nat, si: nat := 0, 0;
    var star: Option<nat> := None;
    var mark: nat := 0;
    rounds := 0;
    AtStart(pat, s);
    NothingPaid(|pat|);
    while si < |s|
      invariant Scan(pat, s, p, si, star, mark)
      invariant Matches(pat, s) == Open(pat, s, p, si, star, mark)
      invariant Paid(rounds, mark, p, |pat|)
      decreases |s| - mark, |pat| - p
    {
      if p < |pat| && pat[p] == STAR {
        TakeStar(pat, s, p, si, star, mark);
        PayRound(rounds, mark, p, si, p + 1, |pat|);
        star := Some(p);
        mark := si;
        p := p + 1;
      } else if p < |pat| && pat[p] == s[si] {
        TakeByte(pat, s, p, si, star, mark);
        PayRound(rounds, mark, p, mark, p + 1, |pat|);
        p := p + 1;
        si := si + 1;
      } else if star.Some? {
        BackTrack(pat, s, p, si, star, mark);
        PayRound(rounds, mark, p, mark + 1, star.value + 1, |pat|);
        p := star.value + 1;
        mark := mark + 1;
        si := mark;
      } else {
        BackTrack(pat, s, p, si, star, mark);
        PayRound(rounds, mark, p, mark + 1, 0, |pat|);
        AllPaid(rounds + 1, mark + 1, 0, |pat|, |s|);
        return false, rounds + 1;
      }
      rounds := rounds + 1;
    }
    AllPaid(rounds, mark, p, |pat|, |s|);
    AtEnd(pat, s, p, star, mark);
    ghost var q := p;
    while p < |pat| && pat[p] == STAR
      invariant q <= p <= |pat|
      invariant forall i :: q <= i < p ==> pat[i] == STAR
    {
      p := p + 1;
    }
    matched := p == |pat|;
  }

  /** The rounds made so far are paid for by the marks passed, a pattern and one each, and the place in the pattern. */
  predicate Paid(rounds: nat, mark: nat, p: nat, n: nat) {
    rounds <= mark * (n + 1) + p
  }

  lemma NothingPaid(n: nat)
    ensures Paid(0, 0, 0, n)
  {
  }

  /** One more round, which moves on in the pattern, or moves the mark on and goes back in the pattern. */
  lemma PayRound(rounds: nat, mark: nat, p: nat, mark': nat, p': nat, n: nat)
    requires Paid(rounds, mark, p, n) && p <= n
    requires (mark' >= mark && p' == p + 1) || mark' == mark + 1
    ensures Paid(rounds + 1, mark', p', n)
  {
    if mark' == mark + 1 {
      assert (mark + 1) * (n + 1) == mark * (n + 1) + (n + 1);
    } else {
      MulMonotone(mark, mark', n + 1);
    }
  }

  lemma AllPaid(rounds: nat, mark: nat, p: nat, n: nat, end: nat)
    requires Paid(rounds, mark, p, n) && mark <= end && p <= n
    ensures rounds < (end + 1) * (n + 1)
  {
    MulMonotone(mark, end, n + 1);
    assert (end + 1) * (n + 1) == end * (n + 1) + (n + 1);
  }

  lemma MulMonotone(a: nat, b: nat, c: nat)
    requires a <= b
    ensures a * c <= b * c
  {
    assert b * c == a * c + (b - a) * c;
  }

  /** `matches_tool`: no matcher, an empty one or `*` takes every tool; otherwise any alternative. */
  predicate MatchesTool(matcher: Option<Str>, tool: Str) {
    || matcher.None?
    || matcher.value == []
    || matcher.value == [STAR]
    || exists i | 0 <= i < |SplitOn(matcher.value, BAR)| :: Matches(Trim(SplitOn(matcher.value, BAR)[i]), tool)
  }

  /** `matches_tool` as it runs, on the fast matcher. */
  method MatchTool(matcher: Option<Str>, tool: Str) returns (matched: bool)
    ensures matched == MatchesTool(matcher, tool)
  {
    if matcher.None? || matcher.value == [] || matcher.value == [STAR] {
      return true;
    }
    var alternatives := SplitOn(matcher.value, BAR);
    for i := 0 to |alternatives|
      invariant forall j :: 0 <= j < i ==> !Matches(Trim(alternatives[j]), tool)
    {
      ghost var rounds;
      matched, rounds := GlobMatch(Trim(alternatives[i]), tool);
      if matched {
        return true;
      }
    }
    matched := false;
  }

  /** A star alone takes everything. */
  lemma StarTakesAll(s: Str)
    ensures Matches([STAR], s)
  {
    assert s[|s|..] == [];
    assert [STAR][1..] == [];
  }

  /** Alternatives written out: a name is taken exactly when one of the joined patterns takes it. */
  lemma AlternativesMean(alternatives: seq<Str>, tool: Str)
    requires |alternatives| >= 1
    requires forall i :: 0 <= i < |alternatives| ==> BAR !in alternatives[i]
    requires Join(alternatives, BAR) != []
    ensures MatchesTool(Some(Join(alternatives, BAR)), tool)
       <==> exists i :: 0 <= i < |alternatives| && Matches(Trim(alternatives[i]), tool)
  {
    SplitOnJoin(alternatives, BAR);
    if Join(alternatives, BAR) == [STAR] {
      SplitOnWhole([STAR], BAR);
      assert alternatives[0] == [STAR] == Trim([STAR]);
      StarTakesAll(tool);
    }
  }
}
