/**
 Sets listed in a strict total order: the `ORDER BY` of a query. There is one such
 listing (`ListingIsUnique`), and `List` finds it by taking out the least element
 again and again.
 */
module Listings {

  type Order<!T> = (T, T) -> bool

  /** On these elements the order is strict and total. */
  ghost predicate Orders<T(!new)>(less: Order<T>, elements: set<T>) {
    && (forall x | x in elements :: !less(x, x))
    && (forall x, y | x in elements && y in elements && x != y :: less(x, y) || less(y, x))
    && (forall x, y, z | x in elements && y in elements && z in elements && less(x, y) && less(y, z) :: less(x, z))
  }

  /** The order is strict and total everywhere. */
  ghost predicate IsOrder<T(!new)>(less: Order<T>) {
    && (forall x :: !less(x, x))
    && (forall x, y | x != y :: less(x, y) || less(y, x))
    && (forall x, y, z | less(x, y) && less(y, z) :: less(x, z))
  }

  /** All elements, each once, in ascending order. */
  ghost predicate Lists<T(!new)>(listed: seq<T>, elements: set<T>, less: Order<T>) {
    && (forall x :: x in listed <==> x in elements)
    && (forall i, j | 0 <= i < j < |listed| :: less(listed[i], listed[j]))
  }

  lemma {:induction false} ListingIsUnique<T(!new)>(a: seq<T>, b: seq<T>, elements: set<T>, less: Order<T>)
    requires Orders(less, elements) && Lists(a, elements, less) && Lists(b, elements, less)
    ensures a == b
    decreases |a|
  {
    EmptyIff(a, elements, less);
    EmptyIff(b, elements, less);
    if a != [] {
      FirstIsFirst(a, b, elements, less);
      TailLists(a, elements, less);
      TailLists(b, elements, less);
      ListingIsUnique(a[1..], b[1..], elements - {a[0]}, less);
      assert a == [a[0]] + a[1..] && b == [b[0]] + b[1..];
    }
  }

  lemma EmptyIff<T(!new)>(a: seq<T>, elements: set<T>, less: Order<T>)
    requires Lists(a, elements, less)
    ensures a == [] <==> elements == {}
  {
    if a != [] {
      assert a[0] in elements;
    }
  }

  lemma FirstIsLeast<T(!new)>(a: seq<T>, elements: set<T>, less: Order<T>)
    requires Lists(a, elements, less) && a != []
    ensures a[0] in elements && forall x | x in elements :: x == a[0] || less(a[0], x)
  {
    assert a[0] in a;
  }

  lemma FirstIsFirst<T(!new)>(a: seq<T>, b: seq<T>, elements: set<T>, less: Order<T>)
    requires Orders(less, elements) && Lists(a, elements, less) && Lists(b, elements, less) && a != []
    ensures b != [] && a[0] == b[0]
  {
    assert a[0] in b;
    FirstIsLeast(a, elements, less);
    FirstIsLeast(b, elements, less);
  }

  lemma TailLists<T(!new)>(a: seq<T>, elements: set<T>, less: Order<T>)
    requires Orders(less, elements) && Lists(a, elements, less) && a != []
    ensures Lists(a[1..], elements - {a[0]}, less) && Orders(less, elements - {a[0]})
  {
    forall x ensures x in a[1..] <==> x in elements - {a[0]} {
      if x in a[1..] {
        var i :| 0 <= i < |a| - 1 && a[1..][i] == x;
        assert less(a[0], a[i + 1]) && a[i + 1] in elements && a[0] in elements;
      }
      if x in elements && x != a[0] {
        var i :| 0 <= i < |a| && a[i] == x;
        assert a[1..][i - 1] == x;
      }
    }
  }

  method Least<T(==, !new)>(elements: set<T>, less: Order<T>) returns (least: T)
    requires elements != {} && Orders(less, elements)
    ensures least in elements && forall x | x in elements && x != least :: less(least, x)
  {
    least :| least in elements;
    var left := elements - {least};
    while left != {}
      invariant left <= elements && least in elements && least !in left
      invariant forall x | x in elements - left && x != least :: less(least, x)
      decreases left
    {
      var x :| x in left;
      if less(x, least) {
        least := x;
      }
      left := left - {x};
    }
  }

  method List<T(==, !new)>(elements: set<T>, less: Order<T>) returns (listed: seq<T>)
    requires Orders(less, elements)
    ensures Lists(listed, elements, less)
  {
    listed := [];
    var left := elements;
    while left != {}
      invariant left <= elements && Lists(listed, elements - left, less)
      invariant forall i, x | 0 <= i < |listed| && x in left :: less(listed[i], x)
      decreases left
    {
      var x := Least(left, less);
      assert elements - (left - {x}) == (elements - left) + {x};
      listed, left := listed + [x], left - {x};
    }
    assert elements - left == elements;
  }
}
