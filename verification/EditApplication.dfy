/**
  `apply_edits`: edits named by an excerpt of the draft are located, checked, sorted, and spliced in from
  right to left. Strings are sequences of characters, as Python's are.
*/
module EditApplication {
  import opened Bytes
  import Ordering

  const MAX_EDITS: nat := 5
  const MAX_LENGTH: nat := 500

  datatype Kind = Contradiction | UnsupportedFact | OtherKind

  /** One edit: replace the excerpt `find` by `put`, on the ground of a quotation from the conversation. */
  datatype Edit = Edit(find: string, put: string, kind: Kind, historyIndex: Option<int>, quote: string)

  datatype Problem = InvalidList | NotUnique | InvalidReplacement | InvalidKind | Ungrounded | Unverifiable | Overlap

  datatype Result = Applied(answer: string) | Rejected(why: Problem)

  /** A stretch of the draft and what goes in its place. */
  datatype Span = Span(start: nat, end: nat, put: string)

  // ----- locating an excerpt

  /** Python's `draft.count(find)` from offset `i` on: an occurrence is counted and stepped over. */
  function CountFrom(draft: string, find: string, i: nat): nat
    requires find != []
    decreases |draft| - i
  {
    if i > |draft| - |find| then 0
    else if OccursAt(draft, find, i) then 1 + CountFrom(draft, find, i + |find|)
    else CountFrom(draft, find, i + 1)
  }

  function Count(draft: string, find: string): nat
    requires find != []
  {
    CountFrom(draft, find, 0)
  }

  /** `draft.index(find)` from offset `i` on. */
  function IndexFrom(draft: string, find: string, i: nat): (at: Option<nat>)
    ensures at.Some? ==> i <= at.value && OccursAt(draft, find, at.value)
    ensures at.Some? ==> forall k :: i <= k < at.value ==> !OccursAt(draft, find, k)
    ensures at.None? ==> forall k :: i <= k ==> !OccursAt(draft, find, k)
    decreases |draft| - i
  {
    if i > |draft| - |find| then None
    else if OccursAt(draft, find, i) then Some(i)
    else IndexFrom(draft, find, i + 1)
  }

  lemma {:induction false} CountZero(draft: string, find: string, i: nat)
    requires find != []
    ensures CountFrom(draft, find, i) == 0 <==> forall k :: i <= k ==> !OccursAt(draft, find, k)
    decreases |draft| - i
  {
    if i <= |draft| - |find| && !OccursAt(draft, find, i) {
      CountZero(draft, find, i + 1);
    }
  }

  lemma {:induction false} CountSkips(draft: string, find: string, i: nat, k: nat)
    requires find != [] && i <= k && OccursAt(draft, find, k) && forall j :: i <= j < k ==> !OccursAt(draft, find, j)
    ensures CountFrom(draft, find, i) == 1 + CountFrom(draft, find, k + |find|)
    decreases k - i
  {
    if i < k {
      CountSkips(draft, find, i + 1, k);
    }
  }

  /** What "exactly once" means here: there is an occurrence, and any other overlaps the first. */
  lemma CountIsOne(draft: string, find: string)
    requires find != []
    ensures Count(draft, find) == 1 <==>
            var at := IndexFrom(draft, find, 0);
            at.Some? && forall k :: OccursAt(draft, find, k) ==> at.value <= k < at.value + |find|
  {
    CountZero(draft, find, 0);
    var at := IndexFrom(draft, find, 0);
    if at.Some? {
      CountSkips(draft, find, 0, at.value);
      CountZero(draft, find, at.value + |find|);
    }
  }

  ghost predicate OccursOnce(draft: string, find: string) {
    forall j, k :: OccursAt(draft, find, j) && OccursAt(draft, find, k) ==> j == k
  }

  /** An excerpt that ends the way it begins. */
  predicate Bordered(find: string) {
    exists b :: 0 < b < |find| && find[..b] == find[|find| - b..]
  }

  /** Counting to one shows that an excerpt is unique in every draft exactly when the excerpt has no border. */
  lemma CountMeansUnique(find: string)
    requires find != []
    ensures (forall draft: string :: Count(draft, find) == 1 ==> OccursOnce(draft, find)) <==> !Bordered(find)
  {
    if Bordered(find) {
      var b :| 0 < b < |find| && find[..b] == find[|find| - b..];
      BorderedCounterexample(find, b);
    } else {
      forall draft: string | Count(draft, find) == 1
        ensures OccursOnce(draft, find)
      {
        CountedOnceOrBordered(draft, find);
      }
    }
  }

  /** `aba` in `ababa`: two occurrences, counted once. */
  lemma BorderedCounterexample(find: string, b: nat)
    requires 0 < b < |find| && find[..b] == find[|find| - b..]
    ensures var draft := find + find[b..]; Count(draft, find) == 1 && !OccursOnce(draft, find)
  {
    var draft := find + find[b..];
    var n := |find|;
    assert draft[0..n] == find;
    assert draft[n - b..n - b + n] == find[n - b..] + find[b..] == find[..b] + find[b..] == find;
    assert OccursAt(draft, find, 0) && OccursAt(draft, find, n - b);
    CountSkips(draft, find, 0, 0);
    CountZero(draft, find, n);
  }

  lemma OverlapMakesBorder(draft: string, find: string, a: nat, k: nat)
    requires OccursAt(draft, find, a) && OccursAt(draft, find, k) && a < k < a + |find|
    ensures Bordered(find)
  {
    var b := a + |find| - k;
    assert find[..b] == draft[k..k + |find|][..b] == draft[k..a + |find|];
    assert find[|find| - b..] == draft[a..a + |find|][|find| - b..] == draft[k..a + |find|];
  }

  lemma CountedOnceOrBordered(draft: string, find: string)
    requires find != [] && Count(draft, find) == 1
    ensures OccursOnce(draft, find) || Bordered(find)
  {
    hide OccursAt;
    CountIsOne(draft, find);
    var a := IndexFrom(draft, find, 0).value;
    if k :| OccursAt(draft, find, k) && k != a {
      OverlapMakesBorder(draft, find, a, k);
    }
  }

  // ----- checking one edit

  /** What is wrong with an edit, looked for in this order. */
  function Check(edit: Edit, history: seq<string>, draft: string): Option<Problem> {
    if edit.find == [] || |edit.find| > MAX_LENGTH || Count(draft, edit.find) != 1 then Some(NotUnique)
    else if |edit.put| > MAX_LENGTH || edit.find == edit.put then Some(InvalidReplacement)
    else if edit.kind == OtherKind then Some(InvalidKind)
    else if edit.historyIndex.None? then
      if edit.kind != UnsupportedFact || edit.quote != [] then Some(Ungrounded) else None
    else if !(0 <= edit.historyIndex.value < |history|) || edit.quote == []
            || IndexFrom(history[edit.historyIndex.value], edit.quote, 0).None? then Some(Unverifiable)
    else None
  }

  // ----- what passing the checks means

  /** `find` stands at `at`, and wherever else it stands it overlaps that. */
  ghost predicate OnceAt(draft: string, find: string, at: nat) {
    OccursAt(draft, find, at) && forall k :: OccursAt(draft, find, k) ==> at <= k < at + |find|
  }

  /** A short excerpt of the draft that picks out one place in it. */
  ghost predicate PicksPlace(edit: Edit, draft: string) {
    0 < |edit.find| <= 500 && exists at: nat :: OnceAt(draft, edit.find, at)
  }

  predicate Replaces(edit: Edit) {
    |edit.put| <= 500 && edit.put != edit.find
  }

  predicate OfKnownKind(edit: Edit) {
    edit.kind == Contradiction || edit.kind == UnsupportedFact
  }

  /** A quotation that stands in the turn it is said to be from; only an unsupported fact may go without one. */
  ghost predicate Grounded(edit: Edit, history: seq<string>) {
    match edit.historyIndex
    case None => edit.kind == UnsupportedFact && edit.quote == []
    case Some(turn) => 0 <= turn < |history| && edit.quote != [] && exists k :: OccursAt(history[turn], edit.quote, k)
  }

  ghost predicate Sound(edit: Edit, history: seq<string>, draft: string) {
    PicksPlace(edit, draft) && Replaces(edit) && OfKnownKind(edit) && Grounded(edit, history)
  }

  /** The first of these that an edit fails. */
  ghost predicate Fails(edit: Edit, history: seq<string>, draft: string, why: Problem) {
    match why
    case NotUnique => !PicksPlace(edit, draft)
    case InvalidReplacement => PicksPlace(edit, draft) && !Replaces(edit)
    case InvalidKind => PicksPlace(edit, draft) && Replaces(edit) && !OfKnownKind(edit)
    case Ungrounded =>
      && PicksPlace(edit, draft) && Replaces(edit) && OfKnownKind(edit)
      && !Grounded(edit, history) && edit.historyIndex.None?
    case Unverifiable =>
      && PicksPlace(edit, draft) && Replaces(edit) && OfKnownKind(edit)
      && !Grounded(edit, history) && edit.historyIndex.Some?
    case _ => false
  }

  lemma PicksPlaceExactly(edit: Edit, draft: string)
    ensures PicksPlace(edit, draft) <==> 0 < |edit.find| <= MAX_LENGTH && Count(draft, edit.find) == 1
    ensures PicksPlace(edit, draft) ==> OnceAt(draft, edit.find, SpanOf(edit, draft).start)
    ensures forall at: nat :: edit.find != [] && OnceAt(draft, edit.find, at) ==> at == SpanOf(edit, draft).start
  {
    hide OccursAt;
    if edit.find != [] {
      CountIsOne(draft, edit.find);
      var first := IndexFrom(draft, edit.find, 0);
      assert first.Some? && Count(draft, edit.find) == 1 ==> OnceAt(draft, edit.find, first.value);
      forall at: nat | OnceAt(draft, edit.find, at)
        ensures first == Some(at)
      {
      }
    }
  }

  /** The check, in the source's order, finds exactly the first thing an edit fails. */
  lemma CheckMeans(edit: Edit, history: seq<string>, draft: string)
    ensures Check(edit, history, draft).None? <==> Sound(edit, history, draft)
    ensures forall why :: Check(edit, history, draft) == Some(why) <==> Fails(edit, history, draft, why)
  {
    PicksPlaceExactly(edit, draft);
    hide PicksPlace, OccursAt, Count;
    match edit.historyIndex
    case None =>
    case Some(turn) =>
      if 0 <= turn < |history| {
        QuoteFound(history[turn], edit.quote);
      }
  }

  lemma QuoteFound(text: string, quote: string)
    ensures IndexFrom(text, quote, 0).Some? <==> exists k :: OccursAt(text, quote, k)
  {
  }

  /** The edits can be made, at these places: at most five, all sound, and no two touching one character. */
  ghost predicate Fits(edits: seq<Edit>, history: seq<string>, draft: string, places: seq<nat>) {
    && |edits| <= 5 && |places| == |edits|
    && (forall i :: 0 <= i < |edits| ==> Sound(edits[i], history, draft) && OnceAt(draft, edits[i].find, places[i]))
    && (forall i, j :: 0 <= i < j < |edits| ==>
          places[i] + |edits[i].find| <= places[j] || places[j] + |edits[j].find| <= places[i])
  }

  /** The edits as replacements at these places. */
  function PutAt(edits: seq<Edit>, places: seq<nat>): seq<Span>
    requires |places| == |edits|
  {
    seq(|edits|, i requires 0 <= i < |edits| => Span(places[i], places[i] + |edits[i].find|, edits[i].put))
  }

  /** What a list of edits is turned down for: too many, the first thing its first unsound edit fails, or an overlap
      of sound ones. */
  ghost predicate TurnedDown(edits: seq<Edit>, history: seq<string>, draft: string, why: Problem) {
    if |edits| > 5 then why == InvalidList
    else if forall i :: 0 <= i < |edits| ==> Sound(edits[i], history, draft) then why == Overlap
    else exists i :: FirstFails(edits, history, draft, why, i)
  }

  ghost predicate FirstFails(edits: seq<Edit>, history: seq<string>, draft: string, why: Problem, i: int) {
    && 0 <= i < |edits| && Fails(edits[i], history, draft, why)
    && forall j :: 0 <= j < i ==> Sound(edits[j], history, draft)
  }

  /** Where an edit goes: the first occurrence of its excerpt. */
  function SpanOf(edit: Edit, draft: string): Span {
    var at := IndexFrom(draft, edit.find, 0);
    var start := if at.Some? then at.value else 0;
    Span(start, start + |edit.find|, edit.put)
  }

  function SpansOf(edits: seq<Edit>, draft: string): (spans: seq<Span>)
    ensures |spans| == |edits|
  {
    seq(|edits|, i requires 0 <= i < |edits| => SpanOf(edits[i], draft))
  }

  // ----- spans

  predicate Apart(a: Span, b: Span) {
    a.end <= b.start || b.end <= a.start
  }

  /** No two of the spans share a character. */
  predicate Disjoint(spans: seq<Span>) {
    forall i, j :: 0 <= i < j < |spans| ==> Apart(spans[i], spans[j])
  }

  predicate Within(spans: seq<Span>, n: nat) {
    forall i :: 0 <= i < |spans| ==> spans[i].start < spans[i].end <= n
  }

  function Codes(s: string): seq<int> {
    seq(|s|, i requires 0 <= i < |s| => s[i] as int)
  }

  /** The order of tuples: by start, then by end, then by replacement. */
  predicate NoLater(a: Span, b: Span) {
    a.start < b.start || (a.start == b.start && (a.end < b.end || (a.end == b.end && LexLeq(Codes(a.put), Codes(b.put)))))
  }

  lemma CodesInjective(s: string, t: string)
    requires Codes(s) == Codes(t)
    ensures s == t
  {
    assert |s| == |Codes(s)| == |Codes(t)| == |t|;
    forall i | 0 <= i < |s|
      ensures s[i] == t[i]
    {
      assert Codes(s)[i] == s[i] as int && Codes(t)[i] == t[i] as int;
    }
  }

  lemma NoLaterTotal(a: Span, b: Span)
    ensures NoLater(a, b) || NoLater(b, a)
    ensures NoLater(a, b) && NoLater(b, a) ==> a == b
  {
    LexTotal(Codes(a.put), Codes(b.put));
    if Codes(a.put) == Codes(b.put) {
      CodesInjective(a.put, b.put);
    }
  }

  lemma NoLaterTransitive(a: Span, b: Span, c: Span)
    requires NoLater(a, b) && NoLater(b, c)
    ensures NoLater(a, c)
  {
    if LexLeq(Codes(a.put), Codes(b.put)) && LexLeq(Codes(b.put), Codes(c.put)) {
      LexTransitive(Codes(a.put), Codes(b.put), Codes(c.put));
    }
  }

  lemma NoLaterIsOrder()
    ensures Ordering.TotalOrder(NoLater)
  {
    hide NoLater;
    forall a: Span, b: Span
      ensures NoLater(a, b) || NoLater(b, a)
    {
      NoLaterTotal(a, b);
    }
    forall a: Span, b: Span, c: Span | NoLater(a, b) && NoLater(b, c)
      ensures NoLater(a, c)
    {
      NoLaterTransitive(a, b, c);
    }
  }

  predicate Sorted(spans: seq<Span>) {
    forall i, j :: 0 <= i < j < |spans| ==> NoLater(spans[i], spans[j])
  }

  /** The check the source makes: neighbours only. */
  predicate NeighboursApart(spans: seq<Span>) {
    forall i :: 0 <= i < |spans| - 1 ==> spans[i].end <= spans[i + 1].start
  }

  lemma {:induction false} InOrder(spans: seq<Span>, n: nat, i: nat, j: nat)
    requires Within(spans, n) && NeighboursApart(spans) && i < j < |spans|
    ensures spans[i].end <= spans[j].start
    decreases j
  {
    if i < j - 1 {
      InOrder(spans, n, i, j - 1);
    }
  }

  /** Once sorted, looking at neighbours is looking at all pairs. */
  lemma NeighboursSuffice(spans: seq<Span>, n: nat)
    requires Within(spans, n) && Sorted(spans)
    ensures NeighboursApart(spans) <==> Disjoint(spans)
  {
    if NeighboursApart(spans) {
      forall i, j | 0 <= i < j < |spans|
        ensures Apart(spans[i], spans[j])
      {
        InOrder(spans, n, i, j);
      }
    }
  }

  // ----- order does not matter

  lemma {:induction false} TwicePresent(s: seq<Span>, x: Span) returns (i: nat, j: nat)
    requires multiset(s)[x] >= 2
    ensures i < j < |s| && s[i] == x && s[j] == x
  {
    var n := |s| - 1;
    assert s == s[..n] + [s[n]];
    if s[n] == x {
      assert x in multiset(s[..n]);
      i :| 0 <= i < n && s[..n][i] == x;
      j := n;
    } else {
      i, j := TwicePresent(s[..n], x);
    }
  }

  lemma TwiceCounted(s: seq<Span>, i: nat, j: nat)
    requires i < j < |s| && s[i] == s[j]
    ensures multiset(s)[s[i]] >= 2
  {
    assert s == s[..j] + s[j..];
    assert s[..j][i] == s[i] && s[j..][0] == s[i];
    assert s[i] in multiset(s[..j]) && s[i] in multiset(s[j..]);
  }

  lemma DisjointReordered(s: seq<Span>, t: seq<Span>, n: nat)
    requires Within(s, n) && Disjoint(s) && multiset(s) == multiset(t)
    ensures Within(t, n) && Disjoint(t)
  {
    forall i | 0 <= i < |t|
      ensures t[i] in s
    {
      assert t[i] in multiset(t);
    }
    forall i, j | 0 <= i < j < |t|
      ensures Apart(t[i], t[j])
    {
      if t[i] == t[j] {
        TwiceCounted(t, i, j);
        var i', j' := TwicePresent(s, t[i]);
        assert Apart(s[i'], s[j']);
      } else {
        assert t[i] in s && t[j] in s;
        var i' :| 0 <= i' < |s| && s[i'] == t[i];
        var j' :| 0 <= j' < |s| && s[j'] == t[j];
        assert if i' < j' then Apart(s[i'], s[j']) else Apart(s[j'], s[i']);
      }
    }
  }

  // ----- simultaneous substitution

  /** The span that starts at `pos`, if one does. */
  function Starting(spans: seq<Span>, pos: nat): (span: Option<Span>)
    ensures span.Some? ==> span.value in spans && span.value.start == pos
    ensures span.None? ==> forall i :: 0 <= i < |spans| ==> spans[i].start != pos
  {
    if spans == [] then None
    else if spans[0].start == pos then Some(spans[0])
    else Starting(spans[1..], pos)
  }

  /** The draft from `pos` on with every span replaced, all offsets being the draft's own. */
  function Substituted(draft: string, spans: seq<Span>, pos: nat): string
    decreases |draft| - pos
  {
    if pos >= |draft| then []
    else
      var span := Starting(spans, pos);
      if span.Some? && span.value.end > pos then span.value.put + Substituted(draft, spans, span.value.end)
      else [draft[pos]] + Substituted(draft, spans, pos + 1)
  }

  /** Text in which no span starts is copied. */
  lemma {:induction false} CopiedBetween(draft: string, spans: seq<Span>, a: nat, b: nat)
    requires a <= b <= |draft|
    requires forall i :: 0 <= i < |spans| ==> !(a <= spans[i].start < b)
    ensures Substituted(draft, spans, a) == draft[a..b] + Substituted(draft, spans, b)
    decreases b - a
  {
    hide Substituted;
    if a < b {
      CopiedOne(draft, spans, a);
      CopiedBetween(draft, spans, a + 1, b);
      assert draft[a..b] == [draft[a]] + draft[a + 1..b];
    }
  }

  lemma CopiedOne(draft: string, spans: seq<Span>, a: nat)
    requires a < |draft|
    requires forall i :: 0 <= i < |spans| ==> spans[i].start != a
    ensures Substituted(draft, spans, a) == [draft[a]] + Substituted(draft, spans, a + 1)
  {
  }

  /** Which span starts where does not depend on the order they are listed in. */
  lemma StartingReordered(s: seq<Span>, t: seq<Span>, n: nat, pos: nat)
    requires Within(s, n) && Disjoint(s) && multiset(s) == multiset(t)
    ensures Starting(s, pos) == Starting(t, pos)
  {
    var x, y := Starting(s, pos), Starting(t, pos);
    assert forall a :: a in t <==> a in multiset(t);
    assert forall a :: a in s <==> a in multiset(s);
    if x.Some? && y.Some? {
      var i :| 0 <= i < |s| && s[i] == x.value;
      var j :| 0 <= j < |s| && s[j] == y.value;
      assert i == j;
    }
  }

  lemma {:induction false} SubstitutedReordered(draft: string, s: seq<Span>, t: seq<Span>, pos: nat)
    requires Within(s, |draft|) && Disjoint(s) && multiset(s) == multiset(t)
    ensures Substituted(draft, s, pos) == Substituted(draft, t, pos)
    decreases |draft| - pos
  {
    hide Disjoint, Within, Starting;
    if pos < |draft| {
      StartingReordered(s, t, |draft|, pos);
      var span := Starting(s, pos);
      if span.Some? && span.value.end > pos {
        SubstitutedReordered(draft, s, t, span.value.end);
      } else {
        SubstitutedReordered(draft, s, t, pos + 1);
      }
    }
  }

  // ----- the two loops

  /** What comes first: the earlier start, then the earlier end, then the replacement that comes first character by
      character. */
  lemma NoLaterMeans(a: Span, b: Span)
    ensures a.start < b.start ==> NoLater(a, b) && !NoLater(b, a)
    ensures a.start == b.start && a.end < b.end ==> NoLater(a, b) && !NoLater(b, a)
    ensures a.start == b.start && a.end == b.end ==> (NoLater(a, b) <==> LexLeq(Codes(a.put), Codes(b.put)))
  {
    NoLaterTotal(a, b);
  }

  /** `spans.sort()`. */
  function SortedSpans(spans: seq<Span>): (sorted: seq<Span>)
    ensures Sorted(sorted) && multiset(sorted) == multiset(spans)
  {
    NoLaterIsOrder();
    Ordering.SortSorts(NoLater, spans);
    Ordering.Sort(NoLater, spans)
  }

  /** The reverse loop: each span is spliced into an answer that is still the draft up to the span after it. */
  method Splice(draft: string, spans: seq<Span>) returns (answer: string)
    requires Within(spans, |draft|) && NeighboursApart(spans)
    ensures answer == Substituted(draft, spans, 0)
  {
    hide Substituted;
    answer := draft;
    ghost var upTo := |draft|;
    NothingLeft(draft, spans);
    for k := |spans| downto 0
      invariant upTo == if k < |spans| then spans[k].start else |draft|
      invariant answer == draft[..upTo] + Substituted(draft, spans, upTo)
    {
      var span := spans[k];
      SpliceStep(draft, spans, k, upTo);
      assert answer[..span.start] == draft[..span.start];
      assert answer[span.end..] == draft[span.end..upTo] + Substituted(draft, spans, upTo);
      answer := answer[..span.start] + span.put + answer[span.end..];
      upTo := span.start;
      assert answer == draft[..upTo] + (span.put + Substituted(draft, spans, span.end));
    }
    forall i | 0 <= i < |spans|
      ensures upTo <= spans[i].start
    {
      if i > 0 {
        InOrder(spans, |draft|, 0, i);
      }
    }
    CopiedBetween(draft, spans, 0, upTo);
  }

  lemma SpliceStep(draft: string, spans: seq<Span>, k: nat, upTo: nat)
    requires Within(spans, |draft|) && NeighboursApart(spans) && k < |spans|
    requires upTo == if k + 1 < |spans| then spans[k + 1].start else |draft|
    ensures spans[k].end <= upTo <= |draft|
    ensures Substituted(draft, spans, spans[k].end) == draft[spans[k].end..upTo] + Substituted(draft, spans, upTo)
    ensures Substituted(draft, spans, spans[k].start) == spans[k].put + Substituted(draft, spans, spans[k].end)
  {
    forall i | 0 <= i < |spans|
      ensures i < k ==> spans[i].end <= spans[k].start
      ensures k < i ==> upTo <= spans[i].start && spans[k].end <= spans[i].start
    {
      if i < k {
        InOrder(spans, |draft|, i, k);
      } else if k + 1 < i {
        InOrder(spans, |draft|, k + 1, i);
      }
    }
    CopiedBetween(draft, spans, spans[k].end, upTo);
    var span := Starting(spans, spans[k].start);
    assert span.Some?;
    var i :| 0 <= i < |spans| && spans[i] == span.value;
    assert i == k;
  }

  /** `apply_edits`, on a list of well-typed edits. */
  method ApplyEdits(edits: seq<Edit>, history: seq<string>, draft: string) returns (result: Result)
    ensures result.Applied? <==> exists places :: Fits(edits, history, draft, places)
    ensures forall places :: Fits(edits, history, draft, places) ==>
              result == Applied(Substituted(draft, PutAt(edits, places), 0))
    ensures result.Rejected? ==> TurnedDown(edits, history, draft, result.why)
    ensures result.Applied? <==> Accepted(edits, history, draft)
    ensures result.Applied? ==> result.answer == Substituted(draft, SpansOf(edits, draft), 0)
  {
    AcceptedMeans(edits, history, draft);
    hide Check, SpanOf, Count, Fits, Sound, TurnedDown, PutAt;
    if |edits| > MAX_EDITS {
      TooMany(edits, history, draft);
      return Rejected(InvalidList);
    }
    var spans: seq<Span> := [];
    for i := 0 to |edits|
      invariant spans == SpansOf(edits, draft)[..i]
      invariant forall j :: 0 <= j < i ==> Check(edits[j], history, draft).None?
    {
      var problem := Check(edits[i], history, draft);
      if problem.Some? {
        FirstComplaint(edits, history, draft, i, problem.value);
        return Rejected(problem.value);
      }
      assert SpansOf(edits, draft)[..i + 1] == SpansOf(edits, draft)[..i] + [SpanOf(edits[i], draft)];
      spans := spans + [SpanOf(edits[i], draft)];
    }
    assert spans == SpansOf(edits, draft);
    CheckedWithin(edits, history, draft);
    OverlapLeft(edits, history, draft);
    var sorted := SortedSpans(spans);
    SortedVerdict(spans, sorted, |draft|);
    var overlap := exists i | 0 <= i < |sorted| - 1 :: sorted[i].end > sorted[i + 1].start;
    if overlap {
      return Rejected(Overlap);
    }
    var answer := Splice(draft, sorted);
    SubstitutedReordered(draft, spans, sorted, 0);
    result := Applied(answer);
  }

  /** When all is well: at most five edits, each passing its checks, none touching another. */
  predicate Accepted(edits: seq<Edit>, history: seq<string>, draft: string) {
    && |edits| <= MAX_EDITS
    && (forall i :: 0 <= i < |edits| ==> Check(edits[i], history, draft).None?)
    && Disjoint(SpansOf(edits, draft))
  }

  /** Acceptance as the checks decide it is that the edits fit, at the places they are located at. */
  lemma AcceptedMeans(edits: seq<Edit>, history: seq<string>, draft: string)
    ensures Accepted(edits, history, draft) <==> exists places :: Fits(edits, history, draft, places)
    ensures forall places :: Fits(edits, history, draft, places) ==> SpansOf(edits, draft) == PutAt(edits, places)
  {
    forall i | 0 <= i < |edits|
      ensures Check(edits[i], history, draft).None? <==> Sound(edits[i], history, draft)
      ensures Sound(edits[i], history, draft) ==> OnceAt(draft, edits[i].find, SpansOf(edits, draft)[i].start)
      ensures SpansOf(edits, draft)[i].end == SpansOf(edits, draft)[i].start + |edits[i].find|
      ensures SpansOf(edits, draft)[i].put == edits[i].put
    {
      CheckMeans(edits[i], history, draft);
      PicksPlaceExactly(edits[i], draft);
    }
    hide Check, Sound, SpanOf, OnceAt, Substituted;
    if Accepted(edits, history, draft) {
      var places := seq(|edits|, i requires 0 <= i < |edits| => SpansOf(edits, draft)[i].start);
      forall i, j | 0 <= i < j < |edits|
        ensures places[i] + |edits[i].find| <= places[j] || places[j] + |edits[j].find| <= places[i]
      {
        assert Apart(SpansOf(edits, draft)[i], SpansOf(edits, draft)[j]);
      }
      assert Fits(edits, history, draft, places);
    }
    forall places | Fits(edits, history, draft, places)
      ensures SpansOf(edits, draft) == PutAt(edits, places)
    {
      PlacesAreSpans(edits, history, draft, places);
    }
  }

  lemma PlacesAreSpans(edits: seq<Edit>, history: seq<string>, draft: string, places: seq<nat>)
    requires Fits(edits, history, draft, places)
    ensures SpansOf(edits, draft) == PutAt(edits, places)
  {
    hide OnceAt, Check;
    forall i | 0 <= i < |edits|
      ensures SpansOf(edits, draft)[i] == PutAt(edits, places)[i]
    {
      assert Sound(edits[i], history, draft);
      PicksPlaceExactly(edits[i], draft);
    }
  }

  lemma TooMany(edits: seq<Edit>, history: seq<string>, draft: string)
    requires |edits| > MAX_EDITS
    ensures TurnedDown(edits, history, draft, InvalidList)
  {
  }

  /** The first edit with a problem names it. */
  lemma FirstComplaint(edits: seq<Edit>, history: seq<string>, draft: string, i: nat, why: Problem)
    requires |edits| <= MAX_EDITS && i < |edits| && Check(edits[i], history, draft) == Some(why)
    requires forall j :: 0 <= j < i ==> Check(edits[j], history, draft).None?
    ensures TurnedDown(edits, history, draft, why)
  {
    hide Check, Sound, Fails;
    forall j | 0 <= j <= i
      ensures Check(edits[j], history, draft).None? <==> Sound(edits[j], history, draft)
    {
      CheckMeans(edits[j], history, draft);
    }
    CheckMeans(edits[i], history, draft);
    assert FirstFails(edits, history, draft, why, i);
  }

  /** With none, what is left to complain of is an overlap. */
  lemma OverlapLeft(edits: seq<Edit>, history: seq<string>, draft: string)
    requires |edits| <= MAX_EDITS && forall j :: 0 <= j < |edits| ==> Check(edits[j], history, draft).None?
    ensures TurnedDown(edits, history, draft, Overlap)
  {
    hide Check, Sound;
    forall j | 0 <= j < |edits|
      ensures Sound(edits[j], history, draft)
    {
      CheckMeans(edits[j], history, draft);
    }
  }

  lemma CheckedWithin(edits: seq<Edit>, history: seq<string>, draft: string)
    requires forall j :: 0 <= j < |edits| ==> Check(edits[j], history, draft).None?
    ensures Within(SpansOf(edits, draft), |draft|)
  {
    forall i | 0 <= i < |edits|
      ensures var s := SpansOf(edits, draft)[i]; s.start < s.end <= |draft|
    {
      CountIsOne(draft, edits[i].find);
    }
  }

  lemma SortedVerdict(spans: seq<Span>, sorted: seq<Span>, n: nat)
    requires Within(spans, n) && Sorted(sorted) && multiset(sorted) == multiset(spans)
    ensures Within(sorted, n) && (NeighboursApart(sorted) <==> Disjoint(spans))
  {
    forall i | 0 <= i < |sorted|
      ensures sorted[i].start < sorted[i].end <= n
    {
      assert sorted[i] in multiset(sorted);
      assert sorted[i] in spans;
    }
    NeighboursSuffice(sorted, n);
    if Disjoint(spans) {
      DisjointReordered(spans, sorted, n);
    }
    if Disjoint(sorted) {
      DisjointReordered(sorted, spans, n);
    }
  }

  // ----- what the application promises

  /** The order of the edits changes neither the verdict nor the answer. */
  lemma OrderDoesNotMatter(edits: seq<Edit>, reordered: seq<Edit>, history: seq<string>, draft: string)
    requires multiset(edits) == multiset(reordered)
    ensures Accepted(edits, history, draft) <==> Accepted(reordered, history, draft)
    ensures Accepted(edits, history, draft) ==>
              Substituted(draft, SpansOf(reordered, draft), 0) == Substituted(draft, SpansOf(edits, draft), 0)
  {
    hide Accepted;
    if Accepted(edits, history, draft) {
      OrderKept(edits, reordered, history, draft);
    }
    if Accepted(reordered, history, draft) {
      OrderKept(reordered, edits, history, draft);
    }
  }

  lemma OrderKept(edits: seq<Edit>, reordered: seq<Edit>, history: seq<string>, draft: string)
    requires multiset(edits) == multiset(reordered) && Accepted(edits, history, draft)
    ensures Accepted(reordered, history, draft)
    ensures Substituted(draft, SpansOf(reordered, draft), 0) == Substituted(draft, SpansOf(edits, draft), 0)
  {
    hide Check, SpanOf;
    assert |edits| == |multiset(edits)| == |multiset(reordered)| == |reordered|;
    forall i | 0 <= i < |reordered|
      ensures Check(reordered[i], history, draft).None?
    {
      assert reordered[i] in multiset(reordered);
      assert reordered[i] in edits;
    }
    SpansReordered(edits, reordered, draft);
    CheckedWithin(edits, history, draft);
    DisjointReordered(SpansOf(edits, draft), SpansOf(reordered, draft), |draft|);
    SubstitutedReordered(draft, SpansOf(edits, draft), SpansOf(reordered, draft), 0);
  }

  function Without<T>(s: seq<T>, k: nat): seq<T>
    requires k < |s|
  {
    s[..k] + s[k + 1..]
  }

  lemma PullOut<T>(s: seq<T>, k: nat)
    requires k < |s|
    ensures multiset(s) == multiset(Without(s, k)) + multiset{s[k]}
  {
    assert s == s[..k] + [s[k]] + s[k + 1..];
  }

  lemma {:induction false} SpansReordered(edits: seq<Edit>, reordered: seq<Edit>, draft: string)
    requires multiset(edits) == multiset(reordered)
    ensures multiset(SpansOf(edits, draft)) == multiset(SpansOf(reordered, draft))
    decreases |edits|
  {
    hide SpanOf, Without;
    if edits == [] {
      assert |multiset(reordered)| == 0;
    } else {
      var e := edits[0];
      assert e in multiset(edits) && e in reordered;
      var k :| 0 <= k < |reordered| && reordered[k] == e;
      PullOut(edits, 0);
      PullOut(reordered, k);
      assert multiset(Without(edits, 0)) == multiset(edits) - multiset{e};
      assert multiset(Without(reordered, k)) == multiset(reordered) - multiset{e};
      WithoutSpans(edits, 0, draft);
      WithoutSpans(reordered, k, draft);
      SpansReordered(Without(edits, 0), Without(reordered, k), draft);
      PullOut(SpansOf(edits, draft), 0);
      PullOut(SpansOf(reordered, draft), k);
    }
  }

  lemma WithoutSpans(edits: seq<Edit>, k: nat, draft: string)
    requires k < |edits|
    ensures SpansOf(Without(edits, k), draft) == Without(SpansOf(edits, draft), k)
    ensures |Without(edits, k)| == |edits| - 1
  {
  }

  /** The draft with sorted spans cut out and their replacements put in: the text between them is the draft's. */
  function Woven(draft: string, sorted: seq<Span>, from: nat): string
    requires from <= |draft| && Within(sorted, |draft|) && NeighboursApart(sorted)
    requires sorted != [] ==> from <= sorted[0].start
    decreases |sorted|
  {
    if sorted == [] then draft[from..]
    else draft[from..sorted[0].start] + sorted[0].put + Woven(draft, sorted[1..], sorted[0].end)
  }

  function Growth(spans: seq<Span>): int {
    if spans == [] then 0 else |spans[0].put| - (spans[0].end - spans[0].start) + Growth(spans[1..])
  }

  /** The sum of what each edit adds. */
  function Added(edits: seq<Edit>): int {
    if edits == [] then 0 else |edits[0].put| - |edits[0].find| + Added(edits[1..])
  }

  /** Spans as a sorting of them leaves them. */
  ghost predicate Sorting(sorted: seq<Span>, spans: seq<Span>, n: nat) {
    multiset(sorted) == multiset(spans) && Within(sorted, n) && NeighboursApart(sorted)
  }

  /** Outside the excerpts nothing changes: for accepted edits in any order, the answer is the draft's own
      stretches, in order, with the replacements between them; and its length differs by exactly the sum of
      the edits' differences. */
  lemma OutsideIsUnchanged(edits: seq<Edit>, history: seq<string>, draft: string)
    requires Accepted(edits, history, draft)
    ensures var answer := Substituted(draft, SpansOf(edits, draft), 0);
            && (exists sorted :: Sorting(sorted, SpansOf(edits, draft), |draft|) && answer == Woven(draft, sorted, 0))
            && |answer| == |draft| + Added(edits)
  {
    hide Check, SpanOf, Substituted, Woven, Added;
    var spans := SpansOf(edits, draft);
    CheckedWithin(edits, history, draft);
    var sorted := SortedSpans(spans);
    SortedVerdict(spans, sorted, |draft|);
    SubstitutedReordered(draft, spans, sorted, 0);
    OutsideSorted(draft, sorted);
    GrowthReordered(sorted, spans);
    GrowthIsAdded(edits, draft);
    assert Sorting(sorted, spans, |draft|);
  }

  lemma {:induction false} GrowthAppend(a: seq<Span>, b: seq<Span>)
    ensures Growth(a + b) == Growth(a) + Growth(b)
  {
    if a == [] {
      assert a + b == b;
    } else {
      assert (a + b)[1..] == a[1..] + b;
      GrowthAppend(a[1..], b);
    }
  }

  lemma {:induction false} GrowthReordered(s: seq<Span>, t: seq<Span>)
    requires multiset(s) == multiset(t)
    ensures Growth(s) == Growth(t)
    decreases |s|
  {
    hide Growth, Without;
    if s == [] {
      assert |multiset(t)| == 0;
    } else {
      assert s[0] in multiset(s) && s[0] in t;
      var k :| 0 <= k < |t| && t[k] == s[0];
      PullOut(s, 0);
      PullOut(t, k);
      assert multiset(Without(s, 0)) == multiset(s) - multiset{s[0]};
      assert multiset(Without(t, k)) == multiset(t) - multiset{s[0]};
      GrowthWithout(s, 0);
      GrowthWithout(t, k);
      GrowthReordered(Without(s, 0), Without(t, k));
    }
  }

  lemma GrowthWithout(s: seq<Span>, k: nat)
    requires k < |s|
    ensures Growth(s) == Growth(Without(s, k)) + Growth([s[k]]) && |Without(s, k)| == |s| - 1
  {
    hide Growth;
    assert s == s[..k] + ([s[k]] + s[k + 1..]);
    GrowthAppend(s[..k], [s[k]] + s[k + 1..]);
    GrowthAppend([s[k]], s[k + 1..]);
    GrowthAppend(s[..k], s[k + 1..]);
  }

  lemma {:induction false} GrowthIsAdded(edits: seq<Edit>, draft: string)
    ensures Growth(SpansOf(edits, draft)) == Added(edits)
  {
    if edits != [] {
      assert SpansOf(edits, draft)[1..] == SpansOf(edits[1..], draft);
      GrowthIsAdded(edits[1..], draft);
    }
  }

  lemma OutsideSorted(draft: string, sorted: seq<Span>)
    requires Within(sorted, |draft|) && NeighboursApart(sorted)
    ensures Substituted(draft, sorted, 0) == Woven(draft, sorted, 0)
    ensures |Substituted(draft, sorted, 0)| == |draft| + Growth(sorted)
  {
    assert sorted[0..] == sorted;
    WovenFrom(draft, sorted, 0, 0);
    WovenLength(draft, sorted, 0);
  }

  lemma {:induction false} WovenLength(draft: string, sorted: seq<Span>, from: nat)
    requires from <= |draft| && Within(sorted, |draft|) && NeighboursApart(sorted)
    requires sorted != [] ==> from <= sorted[0].start
    ensures |Woven(draft, sorted, from)| == |draft| - from + Growth(sorted)
    decreases |sorted|
  {
    if sorted != [] {
      WovenLength(draft, sorted[1..], sorted[0].end);
    }
  }

  lemma {:induction false} WovenFrom(draft: string, spans: seq<Span>, k: nat, from: nat)
    requires Within(spans, |draft|) && NeighboursApart(spans) && k <= |spans| && from <= |draft|
    requires if k == 0 then from == 0 else from == spans[k - 1].end
    ensures Substituted(draft, spans, from) == Woven(draft, spans[k..], from)
    decreases |spans| - k
  {
    hide Substituted;
    NoneBefore(draft, spans, k, from);
    if k == |spans| {
      CopiedBetween(draft, spans, from, |draft|);
      assert draft[from..|draft|] == draft[from..];
      NothingLeft(draft, spans);
    } else {
      CopiedBetween(draft, spans, from, spans[k].start);
      SpliceStep(draft, spans, k, if k + 1 < |spans| then spans[k + 1].start else |draft|);
      assert spans[k..][1..] == spans[k + 1..];
      WovenFrom(draft, spans, k + 1, spans[k].end);
      var rest := Substituted(draft, spans, spans[k].end);
      assert draft[from..spans[k].start] + (spans[k].put + rest) == draft[from..spans[k].start] + spans[k].put + rest;
    }
  }

  lemma NothingLeft(draft: string, spans: seq<Span>)
    ensures Substituted(draft, spans, |draft|) == []
  {
  }

  /** After the first `k` spans, the next to start is the one at `k`. */
  lemma NoneBefore(draft: string, spans: seq<Span>, k: nat, from: nat)
    requires Within(spans, |draft|) && NeighboursApart(spans) && k <= |spans|
    requires if k == 0 then from == 0 else from == spans[k - 1].end
    ensures forall i :: 0 <= i < |spans| ==>
              (i < k ==> spans[i].start < from) && (k <= i ==> spans[k].start <= spans[i].start)
  {
    forall i | 0 <= i < |spans|
      ensures (i < k ==> spans[i].start < from) && (k <= i ==> spans[k].start <= spans[i].start)
    {
      if i < k - 1 {
        InOrder(spans, |draft|, i, k - 1);
      } else if k < i {
        InOrder(spans, |draft|, k, i);
      }
    }
  }
}
