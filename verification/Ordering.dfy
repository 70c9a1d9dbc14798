/** Sorting by any total order, as the standard libraries' `sort` does it. */
module Ordering {

  /** Any two compare, and comparisons chain. */
  ghost predicate TotalOrder<T(!new)>(leq: (T, T) -> bool) {
    && (forall a, b :: leq(a, b) || leq(b, a))
    && (forall a, b, c :: leq(a, b) && leq(b, c) ==> leq(a, c))
  }

  ghost predicate Ordered<T>(leq: (T, T) -> bool, s: seq<T>) {
    forall i, j :: 0 <= i < j < |s| ==> leq(s[i], s[j])
  }

  /** `sorted` with `x` put in after everything that may stand before it. */
  function Insert<T>(leq: (T, T) -> bool, sorted: seq<T>, x: T): seq<T> {
    if sorted == [] then [x]
    else
      var most, last := sorted[..|sorted| - 1], sorted[|sorted| - 1];
      if leq(last, x) then sorted + [x] else Insert(leq, most, x) + [last]
  }

  function Sort<T>(leq: (T, T) -> bool, s: seq<T>): seq<T> {
    if s == [] then [] else Insert(leq, Sort(leq, s[..|s| - 1]), s[|s| - 1])
  }

  lemma {:induction false} InsertKeeps<T>(leq: (T, T) -> bool, sorted: seq<T>, x: T)
    ensures multiset(Insert(leq, sorted, x)) == multiset(sorted) + multiset{x}
  {
    if sorted != [] {
      var most, last := sorted[..|sorted| - 1], sorted[|sorted| - 1];
      assert sorted == most + [last];
      InsertKeeps(leq, most, x);
    }
  }

  lemma {:induction false} InsertOrdered<T(!new)>(leq: (T, T) -> bool, sorted: seq<T>, x: T)
    requires TotalOrder(leq) && Ordered(leq, sorted)
    ensures Ordered(leq, Insert(leq, sorted, x))
  {
    if sorted != [] {
      var most, last := sorted[..|sorted| - 1], sorted[|sorted| - 1];
      if leq(last, x) {
        assert forall i :: 0 <= i < |sorted| ==> leq(sorted[i], x);
      } else {
        InsertOrdered(leq, most, x);
        InsertKeeps(leq, most, x);
        var r := Insert(leq, most, x);
        forall i | 0 <= i < |r|
          ensures leq(r[i], last)
        {
          assert r[i] in multiset(r);
          assert r[i] in most || r[i] == x;
        }
      }
    }
  }

  /** Sorting keeps every element, as often as it is there, and puts them in order. */
  lemma {:induction false} SortSorts<T(!new)>(leq: (T, T) -> bool, s: seq<T>)
    requires TotalOrder(leq)
    ensures Ordered(leq, Sort(leq, s)) && multiset(Sort(leq, s)) == multiset(s)
  {
    if s != [] {
      var most, last := s[..|s| - 1], s[|s| - 1];
      assert s == most + [last];
      SortSorts(leq, most);
      InsertOrdered(leq, Sort(leq, most), last);
      InsertKeeps(leq, Sort(leq, most), last);
    }
  }
}
