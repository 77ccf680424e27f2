/** The contract of `slice::sort_by_key`: a stable sort by an integer key. */
module Sorting {

  ghost predicate Sorted<T(!new)>(xs: seq<T>, key: T -> int) {
    forall i, j :: 0 <= i < j < |xs| ==> key(xs[i]) <= key(xs[j])
  }

  ghost predicate StrictlySorted<T(!new)>(xs: seq<T>, key: T -> int) {
    forall i, j :: 0 <= i < j < |xs| ==> key(xs[i]) < key(xs[j])
  }

  /** `x` goes after every element whose key is at most its own. */
  function Insert<T(!new)>(x: T, xs: seq<T>, key: T -> int): (r: seq<T>)
    ensures multiset(r) == multiset(xs) + multiset{x}
    ensures |r| == |xs| + 1
  {
    if xs == [] || key(x) < key(xs[0]) then [x] + xs
    else
      assert xs == [xs[0]] + xs[1..];
      [xs[0]] + Insert(x, xs[1..], key)
  }

  function SortBy<T(!new)>(xs: seq<T>, key: T -> int): (r: seq<T>)
    ensures multiset(r) == multiset(xs)
    ensures |r| == |xs|
  {
    if xs == [] then []
    else
      var n := |xs| - 1;
      assert xs == xs[..n] + [xs[n]];
      Insert(xs[n], SortBy(xs[..n], key), key)
  }

  lemma {:induction false} InsertSorted<T(!new)>(x: T, xs: seq<T>, key: T -> int)
    requires Sorted(xs, key)
    ensures Sorted(Insert(x, xs, key), key)
  {
    if xs != [] && key(xs[0]) <= key(x) {
      InsertSorted(x, xs[1..], key);
      var rest := Insert(x, xs[1..], key);
      forall j | 0 <= j < |rest|
        ensures key(xs[0]) <= key(rest[j])
      {
        assert rest[j] in multiset(rest);
        assert rest[j] == x || rest[j] in multiset(xs[1..]);
      }
    }
  }

  lemma {:induction false} SortBySorted<T(!new)>(xs: seq<T>, key: T -> int)
    ensures Sorted(SortBy(xs, key), key)
  {
    if xs != [] {
      SortBySorted(xs[..|xs| - 1], key);
      InsertSorted(xs[|xs| - 1], SortBy(xs[..|xs| - 1], key), key);
    }
  }

  lemma HeadRemoved<T>(a: seq<T>)
    requires a != []
    ensures multiset(a[1..]) == multiset(a) - multiset{a[0]}
  {
    assert a == [a[0]] + a[1..];
  }

  lemma Removed<T>(a: seq<T>, p: nat)
    requires p < |a|
    ensures multiset(a[..p] + a[p + 1..]) == multiset(a) - multiset{a[p]}
    ensures a[p] in multiset(a)
  {
    assert a == a[..p] + [a[p]] + a[p + 1..];
  }

  lemma SameSize<T>(a: seq<T>, b: seq<T>)
    requires multiset(a) == multiset(b)
    ensures |a| == |b|
    ensures a != [] ==> a[0] in b && b[0] in a
  {
    assert |multiset(a)| == |a| && |multiset(b)| == |b|;
    if a != [] {
      assert a[0] in multiset(b) && b[0] in multiset(a);
    }
  }

  /** Two strictly sorted arrangements of the same elements are equal. */
  lemma {:induction false} StrictUnique<T(!new)>(a: seq<T>, b: seq<T>, key: T -> int)
    requires StrictlySorted(a, key) && StrictlySorted(b, key)
    requires multiset(a) == multiset(b)
    ensures a == b
  {
    SameSize(a, b);
    if a != [] {
      assert a[0] == b[0];
      HeadRemoved(a);
      HeadRemoved(b);
      StrictUnique(a[1..], b[1..], key);
      assert a == [a[0]] + a[1..] && b == [b[0]] + b[1..];
    }
  }

  // ----- properties of all pairs do not depend on the order -----

  ghost predicate Symmetric<T(!new)>(r: (T, T) -> bool) {
    forall x, y :: r(x, y) <==> r(y, x)
  }

  ghost predicate Pairwise<T(!new)>(xs: seq<T>, r: (T, T) -> bool) {
    forall i, j :: 0 <= i < j < |xs| ==> r(xs[i], xs[j])
  }

  lemma {:induction false} PairwiseUnordered<T(!new)>(a: seq<T>, b: seq<T>, r: (T, T) -> bool)
    requires Symmetric(r) && Pairwise(a, r) && multiset(a) == multiset(b)
    ensures Pairwise(b, r)
  {
    SameSize(a, b);
    if a != [] {
      var p :| 0 <= p < |b| && b[p] == a[0];
      var b' := b[..p] + b[p + 1..];
      HeadRemoved(a);
      Removed(b, p);
      PairwiseUnordered(a[1..], b', r);
      forall k | 0 <= k < |b'|
        ensures r(a[0], b'[k])
      {
        assert b'[k] in multiset(a[1..]);
        var i :| 0 <= i < |a| - 1 && a[1..][i] == b'[k];
        assert r(a[0], a[i + 1]);
      }
      PairwiseInserted(b, p, b', r);
    }
  }

  lemma PairwiseInserted<T(!new)>(b: seq<T>, p: nat, c: seq<T>, r: (T, T) -> bool)
    requires p < |b| && c == b[..p] + b[p + 1..] && Symmetric(r)
    requires Pairwise(c, r)
    requires forall k :: 0 <= k < |c| ==> r(b[p], c[k])
    ensures Pairwise(b, r)
  {
    forall i, j | 0 <= i < j < |b|
      ensures r(b[i], b[j])
    {
      var i', j' := if i > p then i - 1 else i, if j > p then j - 1 else j;
      assert i != p ==> c[i'] == b[i];
      assert j != p ==> c[j'] == b[j];
      assert i != p && j != p ==> i' < j';
    }
  }

  /** With distinct keys the sorted order is strict and any strictly sorted
      arrangement of the elements is the result of the sort. */
  lemma SortByUnique<T(!new)>(xs: seq<T>, key: T -> int)
    requires Pairwise(xs, (x, y) => key(x) != key(y))
    ensures StrictlySorted(SortBy(xs, key), key)
    ensures forall b: seq<T> :: StrictlySorted(b, key) && multiset(b) == multiset(xs) ==> b == SortBy(xs, key)
  {
    var sorted := SortBy(xs, key);
    var differ := (x, y) => key(x) != key(y);
    SortBySorted(xs, key);
    PairwiseUnordered(xs, sorted, differ);
    forall i, j | 0 <= i < j < |sorted|
      ensures key(sorted[i]) < key(sorted[j])
    {
      assert differ(sorted[i], sorted[j]);
    }
    forall b: seq<T> | StrictlySorted(b, key) && multiset(b) == multiset(xs)
      ensures b == sorted
    {
      StrictUnique(b, sorted, key);
    }
  }

  /** Sorting gives the strictly sorted arrangement of the elements, if there is one. */
  lemma SortStrict<T(!new)>(xs: seq<T>, b: seq<T>, key: T -> int)
    requires StrictlySorted(b, key) && multiset(b) == multiset(xs)
    ensures SortBy(xs, key) == b
  {
    var differ := (x, y) => key(x) != key(y);
    assert Pairwise(b, differ);
    PairwiseUnordered(b, xs, differ);
    forall i, j | 0 <= i < j < |xs|
      ensures key(xs[i]) != key(xs[j])
    {
      assert differ(xs[i], xs[j]);
    }
    SortByUnique(xs, key);
  }

  function Reverse<T>(xs: seq<T>): (r: seq<T>)
    ensures |r| == |xs|
    ensures forall i :: 0 <= i < |xs| ==> r[i] == xs[|xs| - 1 - i]
    ensures multiset(r) == multiset(xs)
  {
    if xs == [] then []
    else
      assert xs == [xs[0]] + xs[1..];
      Reverse(xs[1..]) + [xs[0]]
  }

  /** Sorting by the negated key gives the reverse order when keys are distinct. */
  lemma SortDescending<T(!new)>(xs: seq<T>, key: T -> int, negated: T -> int)
    requires Pairwise(xs, (x, y) => key(x) != key(y))
    requires forall x :: negated(x) == -key(x)
    ensures Reverse(SortBy(xs, negated)) == SortBy(xs, key)
  {
    forall i, j | 0 <= i < j < |xs|
      ensures negated(xs[i]) != negated(xs[j])
    {
      assert ((x, y) => key(x) != key(y))(xs[i], xs[j]);
    }
    SortByUnique(xs, negated);
    SortByUnique(xs, key);
    var desc := SortBy(xs, negated);
    assert StrictlySorted(Reverse(desc), key) by {
      forall i, j | 0 <= i < j < |desc|
        ensures key(Reverse(desc)[i]) < key(Reverse(desc)[j])
      {
        assert negated(desc[|desc| - 1 - j]) < negated(desc[|desc| - 1 - i]);
      }
    }
  }

  // ----- sorting and renaming -----

  function Map<T, U>(f: T -> U, xs: seq<T>): (r: seq<U>)
    ensures |r| == |xs|
    ensures forall i :: 0 <= i < |xs| ==> r[i] == f(xs[i])
  {
    if xs == [] then [] else [f(xs[0])] + Map(f, xs[1..])
  }

  /** `f` keeps the order of the keys of the listed elements. */
  ghost predicate KeepsOrder<T(!new), U(!new)>(xs: set<T>, key: T -> int, f: T -> U, key': U -> int) {
    forall x, y :: x in xs && y in xs ==> (key(x) < key(y) <==> key'(f(x)) < key'(f(y)))
  }

  lemma {:induction false} InsertMapped<T(!new), U(!new)>(
      x: T, xs: seq<T>, all: set<T>, key: T -> int, f: T -> U, key': U -> int)
    requires KeepsOrder(all, key, f, key') && x in all && forall i :: 0 <= i < |xs| ==> xs[i] in all
    ensures Map(f, Insert(x, xs, key)) == Insert(f(x), Map(f, xs), key')
  {
    if xs != [] {
      assert Map(f, xs)[1..] == Map(f, xs[1..]);
      InsertMapped(x, xs[1..], all, key, f, key');
    }
  }

  lemma {:induction false} SortMapped<T(!new), U(!new)>(
      xs: seq<T>, all: set<T>, key: T -> int, f: T -> U, key': U -> int)
    requires KeepsOrder(all, key, f, key') && forall i :: 0 <= i < |xs| ==> xs[i] in all
    ensures Map(f, SortBy(xs, key)) == SortBy(Map(f, xs), key')
  {
    if xs != [] {
      var n := |xs| - 1;
      assert Map(f, xs)[..n] == Map(f, xs[..n]);
      SortMapped(xs[..n], all, key, f, key');
      var init := SortBy(xs[..n], key);
      forall i | 0 <= i < |init|
        ensures init[i] in all
      {
        assert init[i] in multiset(init);
        assert init[i] in multiset(xs[..n]);
      }
      InsertMapped(xs[n], init, all, key, f, key');
    }
  }
}
