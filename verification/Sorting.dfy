/** Sorting by a strict order, as `std::sort` and the key order of `std::map` use it. */
module Sorting {

  ghost predicate StrictOrder<T(!new)>(less: (T, T) -> bool) {
    && (forall x :: !less(x, x))
    && (forall x, y, z :: less(x, y) && less(y, z) ==> less(x, z))
    && (forall x, y :: less(x, y) || less(y, x) || x == y)
  }

  ghost predicate StrictlySorted<T(!new)>(s: seq<T>, less: (T, T) -> bool) {
    forall i, j :: 0 <= i < j < |s| ==> less(s[i], s[j])
  }

  ghost predicate Distinct<T>(s: seq<T>) {
    forall i, j :: 0 <= i < j < |s| ==> s[i] != s[j]
  }

  function Insert<T>(x: T, s: seq<T>, less: (T, T) -> bool): seq<T> {
    if s == [] || !less(s[0], x) then [x] + s else [s[0]] + Insert(x, s[1..], less)
  }

  function Sort<T>(s: seq<T>, less: (T, T) -> bool): seq<T> {
    if s == [] then [] else Insert(s[0], Sort(s[1..], less), less)
  }

  lemma {:induction false} InsertElements<T>(x: T, s: seq<T>, less: (T, T) -> bool)
    ensures |Insert(x, s, less)| == |s| + 1
    ensures forall y :: y in Insert(x, s, less) <==> y == x || y in s
  {
    if s != [] && less(s[0], x) {
      InsertElements(x, s[1..], less);
      assert s == [s[0]] + s[1..];
    }
  }

  lemma {:induction false} InsertSorted<T(!new)>(x: T, s: seq<T>, less: (T, T) -> bool)
    requires StrictOrder(less) && StrictlySorted(s, less) && x !in s
    ensures StrictlySorted(Insert(x, s, less), less)
  {
    if s != [] {
      if less(s[0], x) {
        InsertSorted(x, s[1..], less);
        InsertElements(x, s[1..], less);
        var r := Insert(x, s[1..], less);
        forall j | 0 <= j < |r|
          ensures less(s[0], r[j])
        {
          assert r[j] in r;
          if r[j] != x {
            var k :| 0 <= k < |s[1..]| && s[1..][k] == r[j];
            assert less(s[0], s[k + 1]);
          }
        }
      } else {
        assert less(x, s[0]);
      }
    }
  }

  /** Distinct elements sort to the strictly ascending sequence of the same elements. */
  lemma {:induction false} SortCorrect<T(!new)>(s: seq<T>, less: (T, T) -> bool)
    requires StrictOrder(less) && Distinct(s)
    ensures StrictlySorted(Sort(s, less), less) && |Sort(s, less)| == |s|
    ensures forall x :: x in Sort(s, less) <==> x in s
  {
    if s != [] {
      var r := Sort(s[1..], less);
      SortCorrect(s[1..], less);
      assert s == [s[0]] + s[1..];
      forall k | 0 <= k < |s[1..]|
        ensures s[1..][k] != s[0]
      {
        assert s[1..][k] == s[k + 1];
      }
      InsertSorted(s[0], r, less);
      InsertElements(s[0], r, less);
    }
  }

  /** Elements that may be equal to the order, as chunks with the same number. */
  ghost predicate WeakOrder<T(!new)>(less: (T, T) -> bool) {
    && (forall x, y :: less(x, y) ==> !less(y, x))
    && (forall x, y, z :: !less(x, y) && !less(y, z) ==> !less(x, z))
  }

  ghost predicate NowhereDescends<T>(s: seq<T>, less: (T, T) -> bool) {
    forall i, j :: 0 <= i < j < |s| ==> !less(s[j], s[i])
  }

  lemma {:induction false} InsertMultiset<T>(x: T, s: seq<T>, less: (T, T) -> bool)
    ensures multiset(Insert(x, s, less)) == multiset(s) + multiset{x}
  {
    if s == [] || !less(s[0], x) {
      assert multiset([x] + s) == multiset{x} + multiset(s);
    } else {
      InsertMultiset(x, s[1..], less);
      assert s == [s[0]] + s[1..];
    }
  }

  lemma {:induction false} InsertKeepsOrder<T(!new)>(x: T, s: seq<T>, less: (T, T) -> bool)
    requires WeakOrder(less) && NowhereDescends(s, less)
    ensures NowhereDescends(Insert(x, s, less), less)
  {
    if s == [] || !less(s[0], x) {
      forall j | 0 <= j < |s|
        ensures !less(s[j], x)
      {
        assert s[j] == s[0] || !less(s[j], s[0]);
      }
    } else {
      InsertKeepsOrder(x, s[1..], less);
      InsertElements(x, s[1..], less);
      forall y | y in Insert(x, s[1..], less)
        ensures !less(y, s[0])
      {
        if y in s[1..] {
          var k :| 0 <= k < |s[1..]| && s[1..][k] == y;
          assert y == s[k + 1];
        }
      }
      NothingBelowFirst(s[0], Insert(x, s[1..], less), less);
    }
  }

  lemma NothingBelowFirst<T(!new)>(first: T, rest: seq<T>, less: (T, T) -> bool)
    requires NowhereDescends(rest, less) && forall y :: y in rest ==> !less(y, first)
    ensures NowhereDescends([first] + rest, less)
  {
    var s := [first] + rest;
    forall i, j | 0 <= i < j < |s|
      ensures !less(s[j], s[i])
    {
      assert s[j] == rest[j - 1];
      if i > 0 {
        assert s[i] == rest[i - 1];
      }
    }
  }

  /** Sorting any elements gives the same elements, each as often as before, in ascending order. */
  lemma {:induction false} SortPermutes<T(!new)>(s: seq<T>, less: (T, T) -> bool)
    requires WeakOrder(less)
    ensures NowhereDescends(Sort(s, less), less) && multiset(Sort(s, less)) == multiset(s)
  {
    if s != [] {
      SortPermutes(s[1..], less);
      InsertKeepsOrder(s[0], Sort(s[1..], less), less);
      InsertMultiset(s[0], Sort(s[1..], less), less);
      assert s == [s[0]] + s[1..];
    }
  }

  /** A strictly ascending sequence is determined by its elements. */
  lemma {:induction false} SortedUnique<T(!new)>(a: seq<T>, b: seq<T>, less: (T, T) -> bool)
    requires StrictOrder(less) && StrictlySorted(a, less) && StrictlySorted(b, less)
    requires forall x :: x in a <==> x in b
    ensures a == b
  {
    assert a != [] ==> a[0] in b;
    assert b != [] ==> b[0] in a;
    if a != [] {
      FirstIsLeast(a, b[0], less);
      FirstIsLeast(b, a[0], less);
      assert a[0] == b[0];
      forall x
        ensures x in a[1..] <==> x in b[1..]
      {
        TailElements(a, x, less);
        TailElements(b, x, less);
      }
      SortedUnique(a[1..], b[1..], less);
      assert a == [a[0]] + a[1..] && b == [b[0]] + b[1..];
    }
  }

  /** What is in order already stays as it is. */
  lemma {:induction false} SortOfSorted<T>(s: seq<T>, less: (T, T) -> bool)
    requires forall i, j :: 0 <= i < j < |s| ==> !less(s[j], s[i])
    ensures Sort(s, less) == s
  {
    if s != [] {
      SortOfSorted(s[1..], less);
      assert |s| > 1 ==> s[1..][0] == s[1];
      assert s == [s[0]] + s[1..];
    }
  }

  lemma FirstIsLeast<T(!new)>(s: seq<T>, x: T, less: (T, T) -> bool)
    requires StrictOrder(less) && StrictlySorted(s, less) && x in s
    ensures !less(x, s[0])
  {
    var k :| 0 <= k < |s| && s[k] == x;
    if k > 0 {
      assert less(s[0], s[k]);
      assert less(x, s[0]) ==> less(x, x);
    }
  }

  lemma TailElements<T(!new)>(s: seq<T>, x: T, less: (T, T) -> bool)
    requires StrictOrder(less) && StrictlySorted(s, less) && s != []
    ensures x in s[1..] <==> x in s && x != s[0]
  {
    assert s == [s[0]] + s[1..];
    forall k | 0 <= k < |s[1..]|
      ensures s[1..][k] != s[0]
    {
      assert less(s[0], s[k + 1]);
    }
  }

  function LessNat(x: nat, y: nat): bool {
    x < y
  }

  /** The order of `std::string`: bytes compared as unsigned numbers, a prefix first. */
  function LessText(x: string, y: string): bool {
    if y == "" then false
    else if x == "" then true
    else x[0] < y[0] || (x[0] == y[0] && LessText(x[1..], y[1..]))
  }

  lemma NatOrder()
    ensures StrictOrder(LessNat)
  {
  }

  lemma {:induction false} TextIrreflexive(x: string)
    ensures !LessText(x, x)
  {
    if x != "" {
      TextIrreflexive(x[1..]);
    }
  }
}
