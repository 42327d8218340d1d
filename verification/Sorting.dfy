/** Sorting by a total order, as the standard library's sorts do it: any of them gives this result. */
module Sorting {

  ghost predicate TotalOrder<T(!new)>(leq: (T, T) -> bool) {
    && (forall x, y :: leq(x, y) || leq(y, x))
    && (forall x, y, z :: leq(x, y) && leq(y, z) ==> leq(x, z))
    && (forall x, y :: leq(x, y) && leq(y, x) ==> x == y)
  }

  ghost predicate Sorted<T>(xs: seq<T>, leq: (T, T) -> bool) {
    forall i, j | 0 <= i < j < |xs| :: leq(xs[i], xs[j])
  }

  function Insert<T>(x: T, xs: seq<T>, leq: (T, T) -> bool): seq<T> {
    if xs == [] then [x]
    else if leq(x, xs[0]) then [x] + xs
    else [xs[0]] + Insert(x, xs[1..], leq)
  }

  function Sort<T>(xs: seq<T>, leq: (T, T) -> bool): seq<T> {
    if xs == [] then [] else Insert(xs[0], Sort(xs[1..], leq), leq)
  }

  lemma {:induction false} InsertKeepsElements<T>(x: T, xs: seq<T>, leq: (T, T) -> bool)
    ensures multiset(Insert(x, xs, leq)) == multiset{x} + multiset(xs)
  {
    if xs != [] {
      assert xs == [xs[0]] + xs[1..];
      InsertKeepsElements(x, xs[1..], leq);
    }
  }

  lemma SortedTail<T>(xs: seq<T>, leq: (T, T) -> bool)
    requires Sorted(xs, leq) && xs != []
    ensures Sorted(xs[1..], leq)
    ensures forall x | x in xs[1..] :: leq(xs[0], x)
  {
  }

  lemma SortedFront<T>(x: T, xs: seq<T>, leq: (T, T) -> bool)
    requires Sorted(xs, leq) && forall y | y in xs :: leq(x, y)
    ensures Sorted([x] + xs, leq)
  {
  }

  lemma {:induction false} InsertSorted<T(!new)>(x: T, xs: seq<T>, leq: (T, T) -> bool)
    requires TotalOrder(leq) && Sorted(xs, leq)
    ensures Sorted(Insert(x, xs, leq), leq)
  {
    if xs != [] {
      SortedTail(xs, leq);
      if leq(x, xs[0]) {
        SortedFront(x, xs, leq);
      } else {
        var rest := Insert(x, xs[1..], leq);
        InsertSorted(x, xs[1..], leq);
        InsertKeepsElements(x, xs[1..], leq);
        forall y | y in rest
          ensures leq(xs[0], y)
        {
          assert y in multiset(rest);
        }
        SortedFront(xs[0], rest, leq);
      }
    }
  }

  /** The result is sorted and holds the same elements. */
  lemma {:induction false} SortSorts<T(!new)>(xs: seq<T>, leq: (T, T) -> bool)
    requires TotalOrder(leq)
    ensures Sorted(Sort(xs, leq), leq)
    ensures multiset(Sort(xs, leq)) == multiset(xs)
    ensures |Sort(xs, leq)| == |xs|
  {
    if xs != [] {
      assert xs == [xs[0]] + xs[1..];
      SortSorts(xs[1..], leq);
      InsertSorted(xs[0], Sort(xs[1..], leq), leq);
      InsertKeepsElements(xs[0], Sort(xs[1..], leq), leq);
      assert |multiset(Sort(xs, leq))| == |Sort(xs, leq)|;
      assert |multiset(xs)| == |xs|;
    }
  }

  lemma WithoutFirst<T>(xs: seq<T>)
    requires xs != []
    ensures multiset(xs) == multiset{xs[0]} + multiset(xs[1..])
  {
    assert xs == [xs[0]] + xs[1..];
  }

  lemma FirstIsLeast<T(!new)>(xs: seq<T>, leq: (T, T) -> bool, y: T)
    requires TotalOrder(leq) && Sorted(xs, leq) && y in multiset(xs)
    ensures leq(xs[0], y)
  {
    var i :| 0 <= i < |xs| && xs[i] == y;
  }

  /** There is only one sorted sequence of given elements. */
  lemma {:induction false} SortedIsUnique<T(!new)>(a: seq<T>, b: seq<T>, leq: (T, T) -> bool)
    requires TotalOrder(leq) && Sorted(a, leq) && Sorted(b, leq)
    requires multiset(a) == multiset(b)
    ensures a == b
  {
    if a == [] {
      assert |multiset(b)| == 0;
    } else {
      assert a[0] in multiset(b) && b != [];
      assert b[0] in multiset(a);
      FirstIsLeast(a, leq, b[0]);
      FirstIsLeast(b, leq, a[0]);
      SortedTails(a, b, leq);
      SortedIsUnique(a[1..], b[1..], leq);
      assert a == [a[0]] + a[1..] && b == [b[0]] + b[1..];
    }
  }

  lemma SortedTails<T>(a: seq<T>, b: seq<T>, leq: (T, T) -> bool)
    requires Sorted(a, leq) && Sorted(b, leq) && a != [] && b != []
    requires multiset(a) == multiset(b) && a[0] == b[0]
    ensures Sorted(a[1..], leq) && Sorted(b[1..], leq) && multiset(a[1..]) == multiset(b[1..])
  {
    WithoutFirst(a);
    WithoutFirst(b);
    assert multiset(a[1..]) == multiset(a) - multiset{a[0]};
    assert multiset(b[1..]) == multiset(b) - multiset{b[0]};
  }

  /** Sorting forgets the order of its input. */
  lemma SortForgetsOrder<T(!new)>(a: seq<T>, b: seq<T>, leq: (T, T) -> bool)
    requires TotalOrder(leq) && multiset(a) == multiset(b)
    ensures Sort(a, leq) == Sort(b, leq)
  {
    SortSorts(a, leq);
    SortSorts(b, leq);
    SortedIsUnique(Sort(a, leq), Sort(b, leq), leq);
  }

  /** Lexicographic order of sequences. */
  predicate LexLeq<T(==)>(a: seq<T>, b: seq<T>, leq: (T, T) -> bool) {
    a == [] || (b != [] && (if a[0] == b[0] then LexLeq(a[1..], b[1..], leq) else leq(a[0], b[0])))
  }

  function Lexicographic<T(==)>(leq: (T, T) -> bool): (seq<T>, seq<T>) -> bool {
    (a: seq<T>, b: seq<T>) => LexLeq(a, b, leq)
  }

  lemma {:induction false} LexTotal<T(!new)>(a: seq<T>, b: seq<T>, leq: (T, T) -> bool)
    requires TotalOrder(leq)
    ensures LexLeq(a, b, leq) || LexLeq(b, a, leq)
    ensures LexLeq(a, b, leq) && LexLeq(b, a, leq) ==> a == b
  {
    if a != [] && b != [] {
      LexTotal(a[1..], b[1..], leq);
      assert a == [a[0]] + a[1..] && b == [b[0]] + b[1..];
    }
  }

  lemma {:induction false} LexTransitive<T(!new)>(a: seq<T>, b: seq<T>, c: seq<T>, leq: (T, T) -> bool)
    requires TotalOrder(leq) && LexLeq(a, b, leq) && LexLeq(b, c, leq)
    ensures LexLeq(a, c, leq)
  {
    if a != [] && b != [] && c != [] {
      if a[0] == b[0] && b[0] == c[0] {
        LexTransitive(a[1..], b[1..], c[1..], leq);
      }
    }
  }

  lemma LexicographicIsTotalOrder<T(!new)>(leq: (T, T) -> bool)
    requires TotalOrder(leq)
    ensures TotalOrder(Lexicographic(leq))
  {
    forall a: seq<T>, b: seq<T>
      ensures Lexicographic(leq)(a, b) || Lexicographic(leq)(b, a)
      ensures Lexicographic(leq)(a, b) && Lexicographic(leq)(b, a) ==> a == b
    {
      LexTotal(a, b, leq);
    }
    forall a: seq<T>, b: seq<T>, c: seq<T> | Lexicographic(leq)(a, b) && Lexicographic(leq)(b, c)
      ensures Lexicographic(leq)(a, c)
    {
      LexTransitive(a, b, c, leq);
    }
  }
}
