/** Python's sorted(): a stable sort by an order given as a "comes before" relation. */
module Sorting {
  ghost predicate IsOrder<T(!new)>(before: (T, T) -> bool) {
    && (forall x, y :: before(x, y) ==> !before(y, x))
    && forall x, y, z :: !before(y, x) && !before(z, y) ==> !before(z, x)
  }

  ghost predicate Ordered<T>(before: (T, T) -> bool, xs: seq<T>) {
    forall i, j | 0 <= i < j < |xs| :: !before(xs[j], xs[i])
  }

  /** Insert x in front of the first element that does not come before it. */
  function Insert<T>(before: (T, T) -> bool, x: T, xs: seq<T>): (r: seq<T>)
    ensures |r| == |xs| + 1
  {
    if xs == [] || !before(xs[0], x) then [x] + xs else [xs[0]] + Insert(before, x, xs[1..])
  }

  function Sorted<T>(before: (T, T) -> bool, xs: seq<T>): (r: seq<T>)
    ensures |r| == |xs|
  {
    if xs == [] then [] else Insert(before, xs[0], Sorted(before, xs[1..]))
  }

  lemma {:induction false} InsertKeepsElements<T>(before: (T, T) -> bool, x: T, xs: seq<T>)
    ensures multiset(Insert(before, x, xs)) == multiset(xs) + multiset{x}
  {
    if xs != [] {
      InsertKeepsElements(before, x, xs[1..]);
      assert xs == [xs[0]] + xs[1..];
    }
  }

  /** An element in front of others that do not come before it. */
  lemma OneInFront<T>(before: (T, T) -> bool, x: T, xs: seq<T>)
    requires Ordered(before, xs) && forall y | y in multiset(xs) :: !before(y, x)
    ensures Ordered(before, [x] + xs)
  {
    var all := [x] + xs;
    forall i, j | 0 <= i < j < |all| ensures !before(all[j], all[i]) {
      assert xs[j - 1] in multiset(xs);
    }
  }

  lemma {:induction false} InsertKeepsOrder<T(!new)>(before: (T, T) -> bool, x: T, xs: seq<T>)
    requires IsOrder(before) && Ordered(before, xs)
    ensures Ordered(before, Insert(before, x, xs))
  {
    if xs != [] {
      forall y | y in multiset(xs) ensures !before(y, xs[0]) { AfterFirst(before, xs, y); }
      if before(xs[0], x) {
        InsertKeepsOrder(before, x, xs[1..]);
        InsertKeepsElements(before, x, xs[1..]);
        assert xs == [xs[0]] + xs[1..];
        OneInFront(before, xs[0], Insert(before, x, xs[1..]));
      } else {
        OneInFront(before, x, xs);
      }
    }
  }

  lemma AfterFirst<T(!new)>(before: (T, T) -> bool, xs: seq<T>, y: T)
    requires IsOrder(before) && Ordered(before, xs) && y in multiset(xs)
    ensures !before(y, xs[0])
  {
    var i :| 0 <= i < |xs| && xs[i] == y;
  }

  /** Sorting puts a list in order and keeps its elements, each as often as before. */
  lemma {:induction false} SortedIsOrdered<T(!new)>(before: (T, T) -> bool, xs: seq<T>)
    requires IsOrder(before)
    ensures Ordered(before, Sorted(before, xs)) && multiset(Sorted(before, xs)) == multiset(xs)
  {
    if xs != [] {
      SortedIsOrdered(before, xs[1..]);
      InsertKeepsOrder(before, xs[0], Sorted(before, xs[1..]));
      InsertKeepsElements(before, xs[0], Sorted(before, xs[1..]));
      assert xs == [xs[0]] + xs[1..];
    }
  }

  /** A list in order stays as it is. */
  lemma {:induction false} SortedAlready<T>(before: (T, T) -> bool, xs: seq<T>)
    requires Ordered(before, xs)
    ensures Sorted(before, xs) == xs
  {
    if xs != [] { SortedAlready(before, xs[1..]); }
  }

  lemma InsertIntoTwo<T>(before: (T, T) -> bool, a: T, b: T, c: T)
    ensures Insert(before, a, [b]) == if before(b, a) then [b, a] else [a, b]
    ensures Insert(before, a, [b, c])
         == if !before(b, a) then [a, b, c] else if !before(c, a) then [b, a, c] else [b, c, a]
  {
    assert [b][1..] == [] && [c][1..] == [] && [b, c][1..] == [c];
    assert Insert(before, a, []) == [a] && Insert(before, a, [c]) == if before(c, a) then [c, a] else [a, c];
  }

  lemma SortedOfThree<T>(before: (T, T) -> bool, a: T, b: T, c: T)
    ensures var first := if before(c, b) then [c, b] else [b, c];
      Sorted(before, [a, b, c])
      == if !before(first[0], a) then [a] + first
         else if !before(first[1], a) then [first[0], a, first[1]]
         else first + [a]
  {
    assert [a, b, c][1..] == [b, c] && [b, c][1..] == [c] && [c][1..] == [];
    assert Sorted(before, [c]) == Insert(before, c, Sorted(before, [])) == [c];
    assert Sorted(before, [b, c]) == Insert(before, b, [c]);
    InsertIntoTwo(before, b, c, c);
    InsertIntoTwo(before, a, b, c);
    InsertIntoTwo(before, a, c, b);
  }
}
