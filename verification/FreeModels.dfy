/** Choosing the free models to offer: `select_top_free_models_ranked`, from the rows the models list parses to. */
module FreeModels {
  import opened Bytes
  import Ordering

  /** `:free` */
  const FREE_SUFFIX: Str := [58, 102, 114, 101, 101]

  /** One row, with what its price, its parameters and its output modalities come down to. */
  datatype Row = Row(id: Str, name: Option<Str>, contextLength: nat, zeroPriced: bool, tools: bool, emitsText: bool)

  /** Free, takes tools, answers in text. */
  predicate Eligible(m: Row) {
    && (m.zeroPriced || (|m.id| >= |FREE_SUFFIX| && m.id[|m.id| - |FREE_SUFFIX|..] == FREE_SUFFIX))
    && m.tools && m.emitsText
  }

  function Filtered(rows: seq<Row>): seq<Row> {
    if rows == [] then []
    else Filtered(rows[..|rows| - 1]) + if Eligible(rows[|rows| - 1]) then [rows[|rows| - 1]] else []
  }

  // ----- the order

  /** The place the ranking gives an id; an id it does not name comes after all it does. */
  function Place(ranking: seq<Str>, id: Str): nat {
    if ranking == [] then 0 else if ranking[0] == id then 0 else 1 + Place(ranking[1..], id)
  }

  /** By place in the ranking, then the longer context, then the id. */
  predicate Leq(ranking: seq<Str>, a: Row, b: Row) {
    var p, q := Place(ranking, a.id), Place(ranking, b.id);
    p < q || (p == q && (a.contextLength > b.contextLength
                         || (a.contextLength == b.contextLength && LexLeq(a.id, b.id))))
  }

  lemma LeqTotal(ranking: seq<Str>, a: Row, b: Row)
    ensures Leq(ranking, a, b) || Leq(ranking, b, a)
    ensures Leq(ranking, a, b) && Leq(ranking, b, a) ==> a.id == b.id
  {
    LexTotal(a.id, b.id);
  }

  lemma LeqTransitive(ranking: seq<Str>, a: Row, b: Row, c: Row)
    requires Leq(ranking, a, b) && Leq(ranking, b, c)
    ensures Leq(ranking, a, c)
  {
    if LexLeq(a.id, b.id) && LexLeq(b.id, c.id) {
      LexTransitive(a.id, b.id, c.id);
    }
  }

  ghost predicate Sorted(ranking: seq<Str>, s: seq<Row>) {
    forall i, j :: 0 <= i < j < |s| ==> Leq(ranking, s[i], s[j])
  }

  /** `all` put in order. */
  ghost predicate SortOf(ranking: seq<Str>, sorted: seq<Row>, all: seq<Row>) {
    Sorted(ranking, sorted) && multiset(sorted) == multiset(all)
  }

  // ----- the selection

  /** The first `limit` of the eligible rows: in order, as many as limit and list allow, each of them eligible and
      none more often than it is listed, and nothing left out that comes before anything chosen. */
  ghost predicate IsTop(top: seq<Row>, rows: seq<Row>, ranking: seq<Str>, limit: nat) {
    && Sorted(ranking, top)
    && |top| == (if limit < |Filtered(rows)| then limit else |Filtered(rows)|)
    && multiset(top) <= multiset(Filtered(rows))
    && forall a, b :: a in top && b in multiset(Filtered(rows)) - multiset(top) ==> Leq(ranking, a, b)
  }

  /** `select_top_free_models_ranked`. */
  method SelectTop(rows: seq<Row>, ranking: seq<Str>, limit: nat) returns (top: seq<Row>)
    ensures IsTop(top, rows, ranking, limit)
  {
    var free: seq<Row> := [];
    for i := 0 to |rows|
      invariant free == Filtered(rows[..i])
    {
      assert rows[..i + 1][..i] == rows[..i];
      if Eligible(rows[i]) {
        free := free + [rows[i]];
      }
    }
    assert rows[..|rows|] == rows;
    var sorted := SortedRows(ranking, free);
    var n := if limit < |sorted| then limit else |sorted|;
    top := sorted[..n];
    PrefixIsTop(rows, ranking, limit, sorted, n);
  }

  lemma PrefixIsTop(rows: seq<Row>, ranking: seq<Str>, limit: nat, sorted: seq<Row>, n: nat)
    requires SortOf(ranking, sorted, Filtered(rows)) && n == if limit < |sorted| then limit else |sorted|
    ensures IsTop(sorted[..n], rows, ranking, limit)
  {
    hide Leq, Sorted, Filtered;
    assert |sorted| == |multiset(sorted)| == |multiset(Filtered(rows))|;
    assert sorted == sorted[..n] + sorted[n..];
    assert multiset(Filtered(rows)) - multiset(sorted[..n]) == multiset(sorted[n..]);
    PrefixBeats(ranking, sorted, n);
  }

  lemma PrefixBeats(ranking: seq<Str>, sorted: seq<Row>, n: nat)
    requires Sorted(ranking, sorted) && n <= |sorted|
    ensures Sorted(ranking, sorted[..n])
    ensures forall a, b :: a in sorted[..n] && b in multiset(sorted[n..]) ==> Leq(ranking, a, b)
  {
    hide Leq;
    forall a, b | a in sorted[..n] && b in multiset(sorted[n..])
      ensures Leq(ranking, a, b)
    {
      assert b in sorted[n..];
      var i :| 0 <= i < n && sorted[..n][i] == a;
      var j :| 0 <= j < |sorted| - n && sorted[n..][j] == b;
      assert sorted[i] == a && sorted[n + j] == b;
    }
  }

  function Order(ranking: seq<Str>): (Row, Row) -> bool {
    (a, b) => Leq(ranking, a, b)
  }

  lemma LeqIsOrder(ranking: seq<Str>)
    ensures Ordering.TotalOrder(Order(ranking))
  {
    hide Leq;
    forall a: Row, b: Row
      ensures Order(ranking)(a, b) || Order(ranking)(b, a)
    {
      LeqTotal(ranking, a, b);
    }
    forall a: Row, b: Row, c: Row | Order(ranking)(a, b) && Order(ranking)(b, c)
      ensures Order(ranking)(a, c)
    {
      LeqTransitive(ranking, a, b, c);
    }
  }

  /** `sort_by` with the order above. */
  function SortedRows(ranking: seq<Str>, rows: seq<Row>): (sorted: seq<Row>)
    ensures SortOf(ranking, sorted, rows)
  {
    LeqIsOrder(ranking);
    Ordering.SortSorts(Order(ranking), rows);
    Ordering.Sort(Order(ranking), rows)
  }

  // ----- what the selection promises

  /** A row a coding agent can use for nothing: it takes tools, answers in text, and has no price or the `:free` mark. */
  ghost predicate Usable(m: Row) {
    m.tools && m.emitsText && (m.zeroPriced || exists base: Str :: m.id == base + FREE_SUFFIX)
  }

  lemma EligibleIsUsable(m: Row)
    ensures Eligible(m) <==> Usable(m)
  {
    var n := |m.id| - |FREE_SUFFIX|;
    if n >= 0 && m.id[n..] == FREE_SUFFIX {
      assert m.id == m.id[..n] + FREE_SUFFIX;
    }
    forall base: Str | m.id == base + FREE_SUFFIX
      ensures |base| == n && m.id[n..] == FREE_SUFFIX
    {
    }
  }

  /** The ranking only orders: nothing but usable rows is chosen, wherever the ranking puts it, and a usable row is left
      out only when the limit is reached. */
  lemma RankingOnlyOrders(top: seq<Row>, rows: seq<Row>, ranking: seq<Str>, limit: nat, m: Row)
    requires IsTop(top, rows, ranking, limit)
    ensures m in top ==> m in rows && Usable(m)
    ensures m in rows && Usable(m) && |top| < limit ==> m in top
  {
    hide Leq, Sorted, Usable, Eligible, Filtered;
    FilteredAre(rows);
    EligibleIsUsable(m);
    assert m in top <==> m in multiset(top);
    assert m in Filtered(rows) <==> m in multiset(Filtered(rows));
    if |top| < limit {
      assert |multiset(top)| == |multiset(Filtered(rows))|;
      NoMoreIsEqual(multiset(top), multiset(Filtered(rows)));
    }
  }

  /** The ranking names `a` before it names `b`, if it names `b` at all. */
  ghost predicate NamedBefore(ranking: seq<Str>, a: Row, b: Row) {
    exists i :: NamedAt(ranking, a, b, i)
  }

  ghost predicate NamedAt(ranking: seq<Str>, a: Row, b: Row, i: int) {
    0 <= i < |ranking| && ranking[i] == a.id && forall j :: 0 <= j <= i ==> ranking[j] != b.id
  }

  /** What comes first: what the ranking names first; where it does not decide, the longer context, then the id. */
  lemma OrderMeans(ranking: seq<Str>, a: Row, b: Row)
    ensures NamedBefore(ranking, a, b) ==> Leq(ranking, a, b) && !Leq(ranking, b, a)
    ensures !NamedBefore(ranking, a, b) && !NamedBefore(ranking, b, a) ==>
              (Leq(ranking, a, b) <==> a.contextLength > b.contextLength
                                       || (a.contextLength == b.contextLength && LexLeq(a.id, b.id)))
  {
    hide LexLeq;
    PlaceMeans(ranking, a, b);
    PlaceMeans(ranking, b, a);
    hide NamedBefore, Place;
  }

  lemma {:induction false} PlaceMeans(ranking: seq<Str>, a: Row, b: Row)
    ensures NamedBefore(ranking, a, b) <==> Place(ranking, a.id) < Place(ranking, b.id)
  {
    if ranking != [] {
      var rest := ranking[1..];
      PlaceMeans(rest, a, b);
      if ranking[0] == a.id && a.id != b.id {
        assert NamedAt(ranking, a, b, 0);
      }
      if ranking[0] != b.id {
        forall i | 0 <= i < |rest|
          ensures NamedAt(rest, a, b, i) <==> NamedAt(ranking, a, b, i + 1)
        {
          NamedLater(ranking, a, b, i);
        }
        forall i | NamedAt(ranking, a, b, i) && i > 0
          ensures NamedAt(rest, a, b, i - 1)
        {
          NamedLater(ranking, a, b, i - 1);
        }
      }
    }
  }

  lemma NamedLater(ranking: seq<Str>, a: Row, b: Row, i: nat)
    requires i + 1 < |ranking| && ranking[0] != b.id
    ensures NamedAt(ranking[1..], a, b, i) <==> NamedAt(ranking, a, b, i + 1)
  {
    var rest := ranking[1..];
    if NamedAt(rest, a, b, i) {
      forall j | 0 <= j <= i + 1
        ensures ranking[j] != b.id
      {
        assert j > 0 ==> ranking[j] == rest[j - 1];
      }
    }
  }

  lemma {:induction false} FilteredAre(rows: seq<Row>)
    ensures forall m :: m in Filtered(rows) <==> m in rows && Eligible(m)
  {
    hide Eligible;
    if rows != [] {
      FilteredAre(rows[..|rows| - 1]);
      assert rows == rows[..|rows| - 1] + [rows[|rows| - 1]];
    }
  }

  /** Rows have ids of their own. */
  predicate DistinctIds(s: seq<Row>) {
    forall i, j :: 0 <= i < j < |s| ==> s[i].id != s[j].id
  }

  /** With distinct ids there is one way to put rows in order, whatever order they came in. */
  lemma {:induction false} SortIsUnique(ranking: seq<Str>, s: seq<Row>, t: seq<Row>)
    requires Sorted(ranking, s) && Sorted(ranking, t) && multiset(s) == multiset(t) && DistinctIds(s)
    ensures s == t
    decreases |s|
  {
    hide Leq, Sorted, DistinctIds;
    assert |s| == |multiset(s)| == |multiset(t)| == |t|;
    if s != [] {
      SameFirst(ranking, s, t);
      Tail(s);
      Tail(t);
      TailSorted(ranking, s);
      TailSorted(ranking, t);
      TailDistinct(s);
      SortIsUnique(ranking, s[1..], t[1..]);
      assert s == [s[0]] + s[1..] && t == [t[0]] + t[1..];
    }
  }

  lemma SameFirst(ranking: seq<Str>, s: seq<Row>, t: seq<Row>)
    requires Sorted(ranking, s) && Sorted(ranking, t) && multiset(s) == multiset(t) && DistinctIds(s)
    requires s != [] && t != []
    ensures s[0] == t[0]
  {
    hide Leq;
    assert s[0] in multiset(s) && t[0] in multiset(t);
    assert s[0] in t && t[0] in s;
    var i :| 0 <= i < |t| && t[i] == s[0];
    var j :| 0 <= j < |s| && s[j] == t[0];
    assert (j > 0 ==> Leq(ranking, s[0], s[j])) && (i > 0 ==> Leq(ranking, t[0], t[i]));
    LeqTotal(ranking, s[0], t[0]);
  }

  lemma Tail(s: seq<Row>)
    requires s != []
    ensures multiset(s[1..]) == multiset(s) - multiset{s[0]}
  {
    assert s == [s[0]] + s[1..];
  }

  lemma TailSorted(ranking: seq<Str>, s: seq<Row>)
    requires s != [] && Sorted(ranking, s)
    ensures Sorted(ranking, s[1..])
  {
    hide Leq;
  }

  lemma TailDistinct(s: seq<Row>)
    requires s != [] && DistinctIds(s)
    ensures DistinctIds(s[1..])
  {
  }

  /** The models offered do not depend on the order the API lists them in. */
  lemma ListingOrderDoesNotMatter(rows: seq<Row>, relisted: seq<Row>, ranking: seq<Str>, limit: nat,
                                  top: seq<Row>, other: seq<Row>)
    requires multiset(rows) == multiset(relisted) && DistinctIds(rows)
    requires IsTop(top, rows, ranking, limit) && IsTop(other, relisted, ranking, limit)
    ensures top == other
  {
    hide Leq, Sorted, DistinctIds;
    FilteredReordered(rows, relisted);
    hide Filtered;
    FilteredDistinct(rows);
    SameChosen(Filtered(rows), ranking, top, other);
    DistinctPart(Filtered(rows), top);
    SortIsUnique(ranking, top, other);
  }

  lemma FilteredReordered(rows: seq<Row>, relisted: seq<Row>)
    requires multiset(rows) == multiset(relisted)
    ensures multiset(Filtered(rows)) == multiset(Filtered(relisted)) && |Filtered(rows)| == |Filtered(relisted)|
  {
    hide Eligible, Filtered;
    FilteredCounts(rows);
    FilteredCounts(relisted);
    assert multiset(Filtered(rows)) == multiset(Filtered(relisted));
    assert |Filtered(rows)| == |multiset(Filtered(rows))| == |multiset(Filtered(relisted))| == |Filtered(relisted)|;
  }

  /** Of rows with distinct ids, two choices of the best, of one size, are the same rows. */
  lemma SameChosen(free: seq<Row>, ranking: seq<Str>, top: seq<Row>, other: seq<Row>)
    requires DistinctIds(free) && |top| == |other|
    requires multiset(top) <= multiset(free) && multiset(other) <= multiset(free)
    requires forall a, b :: a in top && b in multiset(free) - multiset(top) ==> Leq(ranking, a, b)
    requires forall a, b :: a in other && b in multiset(free) - multiset(other) ==> Leq(ranking, a, b)
    ensures multiset(top) == multiset(other)
  {
    hide Leq, DistinctIds;
    if multiset(top) != multiset(other) {
      NoMoreIsEqual(multiset(top), multiset(other));
      NoMoreIsEqual(multiset(other), multiset(top));
      var x :| multiset(top)[x] > multiset(other)[x];
      var y :| multiset(other)[y] > multiset(top)[y];
      ChosenComesFirst(free, ranking, top, x, y, multiset(other));
      ChosenComesFirst(free, ranking, other, y, x, multiset(top));
      LeqTotal(ranking, x, y);
      SameIdSameRow(free, x, y);
    }
  }

  /** What one choice has more often than another comes before what it has less often. */
  lemma ChosenComesFirst(free: seq<Row>, ranking: seq<Str>, top: seq<Row>, x: Row, y: Row, other: multiset<Row>)
    requires DistinctIds(free) && multiset(top) <= multiset(free) && other <= multiset(free)
    requires forall a, b :: a in top && b in multiset(free) - multiset(top) ==> Leq(ranking, a, b)
    requires multiset(top)[x] > other[x] && other[y] > multiset(top)[y]
    ensures x in free && Leq(ranking, x, y)
  {
    hide Leq, DistinctIds;
    assert x in multiset(top) && x in multiset(free);
    assert y in multiset(free) - multiset(top);
  }

  lemma SameIdSameRow(s: seq<Row>, x: Row, y: Row)
    requires DistinctIds(s) && x in s && y in s
    ensures x.id == y.id ==> x == y
  {
    var i :| 0 <= i < |s| && s[i] == x;
    var j :| 0 <= j < |s| && s[j] == y;
  }

  /** Of two multisets of one size, one has something more often than the other, unless they are equal. */
  lemma NoMoreIsEqual(a: multiset<Row>, b: multiset<Row>)
    requires |a| == |b|
    ensures (forall x :: a[x] <= b[x]) ==> a == b
  {
    if forall x :: a[x] <= b[x] {
      assert b == a + (b - a);
      assert |b - a| == 0;
      assert b - a == multiset{};
    }
  }

  lemma DistinctPart(s: seq<Row>, t: seq<Row>)
    requires DistinctIds(s) && multiset(t) <= multiset(s)
    ensures DistinctIds(t)
  {
    forall i, j | 0 <= i < j < |t|
      ensures t[i].id != t[j].id
    {
      assert t == t[..j] + t[j..];
      assert t[..j][i] == t[i] && t[j..][0] == t[j];
      assert t[i] in multiset(t[..j]) && t[j] in multiset(t[j..]);
      assert t[i] == t[j] ==> multiset(t)[t[i]] >= 2;
      DistinctCounts(s, t[i]);
      assert t[i] in multiset(s) && t[j] in multiset(s);
      SameIdSameRow(s, t[i], t[j]);
    }
  }

  lemma {:induction false} FilteredCounts(rows: seq<Row>)
    ensures forall m :: multiset(Filtered(rows))[m] == if Eligible(m) then multiset(rows)[m] else 0
  {
    hide Eligible;
    if rows != [] {
      FilteredCounts(rows[..|rows| - 1]);
      assert rows == rows[..|rows| - 1] + [rows[|rows| - 1]];
    }
  }

  lemma {:induction false} FilteredDistinct(rows: seq<Row>)
    requires DistinctIds(rows)
    ensures DistinctIds(Filtered(rows))
  {
    hide Eligible;
    if rows != [] {
      var most := rows[..|rows| - 1];
      FilteredDistinct(most);
      FilteredAre(most);
      forall i | 0 <= i < |Filtered(most)|
        ensures Filtered(most)[i].id != rows[|rows| - 1].id
      {
        assert Filtered(most)[i] in most;
      }
    }
  }

  lemma {:induction false} DistinctCounts(s: seq<Row>, m: Row)
    requires DistinctIds(s)
    ensures multiset(s)[m] <= 1
  {
    if s != [] {
      var most := s[..|s| - 1];
      assert s == most + [s[|s| - 1]];
      DistinctCounts(most, m);
      if m in most {
        assert m != s[|s| - 1];
      }
    }
  }
}
