/** `List.sort(comparator)`, which the read path and the compaction use to order
    tables, modelled as a stable insertion sort. `before(a, b)` holds when the
    comparator puts `a` strictly ahead of `b` (it returns a negative number). */
module Sorting {

  /** What `List.sort` expects of a comparator: a strict weak order. */
  ghost predicate StrictWeakOrder<T(!new)>(before: (T, T) -> bool)
  {
    && (forall a, b :: before(a, b) ==> !before(b, a))
    && (forall a, b, c :: !before(a, b) && !before(b, c) ==> !before(a, c))
  }

  /** No element is placed strictly ahead of one that precedes it. */
  ghost predicate SortedBy<T>(s: seq<T>, before: (T, T) -> bool)
  {
    forall i, j :: 0 <= i < j < |s| ==> !before(s[j], s[i])
  }

  /** Puts `x` ahead of the first element that does not go strictly ahead of it. */
  function Insert<T(!new)>(x: T, s: seq<T>, before: (T, T) -> bool): (r: seq<T>)
    requires StrictWeakOrder(before) && SortedBy(s, before)
    ensures SortedBy(r, before)
    ensures multiset(r) == multiset(s) + multiset{x}
    decreases |s|
  {
    if |s| == 0 then [x]
    else if before(s[0], x) then
      var rest := Insert(x, s[1..], before);
      NoneAheadOfHead(x, s, rest, before);
      assert s == [s[0]] + s[1..];
      [s[0]] + rest
    else
      assert forall j :: 0 <= j < |s| ==> !before(s[j], x);
      [x] + s
  }

  /** What is inserted behind the head of a sorted sequence does not go
      ahead of that head. */
  lemma NoneAheadOfHead<T(!new)>(x: T, s: seq<T>, rest: seq<T>, before: (T, T) -> bool)
    requires StrictWeakOrder(before) && SortedBy(s, before)
    requires |s| > 0 && before(s[0], x)
    requires multiset(rest) == multiset(s[1..]) + multiset{x}
    ensures forall y :: y in rest ==> !before(y, s[0])
  {
    forall y | y in rest ensures !before(y, s[0]) {
      assert y in multiset(rest);
      if y != x {
        assert y in multiset(s[1..]);
        var j :| 0 <= j < |s[1..]| && s[1..][j] == y;
        assert s[j + 1] == y;
      }
    }
  }

  /** `list.sort(comparator)`. */
  function Sort<T(!new)>(s: seq<T>, before: (T, T) -> bool): (r: seq<T>)
    requires StrictWeakOrder(before)
    ensures SortedBy(r, before)
    ensures multiset(r) == multiset(s)
    ensures |r| == |s|
    decreases |s|
  {
    if |s| == 0 then []
    else
      assert s == [s[0]] + s[1..];
      Insert(s[0], Sort(s[1..], before), before)
  }

  /** Sorting keeps exactly the same elements. */
  lemma SortSameElements<T(!new)>(s: seq<T>, before: (T, T) -> bool)
    requires StrictWeakOrder(before)
    ensures forall x :: x in Sort(s, before) <==> x in s
  {
    var r := Sort(s, before);
    forall x ensures x in r <==> x in s {
      assert x in r <==> x in multiset(r);
      assert x in s <==> x in multiset(s);
    }
  }
}
