/**
 * std::sort as the library uses it: a permutation in key order. The order of ties is left to the
 * sort, which is a function of its input: equal inputs come out equal.
 */
module Sorting {

  lemma SplitContents<T>(before: seq<T>, x: T, after: seq<T>)
    ensures multiset(before + [x] + after) == multiset(before + after) + multiset{x}
  {
  }

  lemma RemoveContents<T>(s: seq<T>, i: nat)
    requires i < |s|
    ensures multiset(s) == multiset(s[..i] + s[i + 1..]) + multiset{s[i]}
  {
    SplitContents(s[..i], s[i], s[i + 1..]);
    assert s == s[..i] + [s[i]] + s[i + 1..];
  }

  // ---------------------------------------------------------------- the order a sort leaves

  /** The first place from `at` on whose key is above x's. */
  function PlaceFor<T>(r: seq<T>, x: T, key: T -> real, at: nat): (place: nat)
    requires at <= |r|
    ensures at <= place <= |r|
    decreases |r| - at
  {
    if at < |r| && key(r[at]) <= key(x) then PlaceFor(r, x, key, at + 1) else at
  }

  function Inserted<T>(r: seq<T>, x: T, key: T -> real): (r': seq<T>)
    ensures |r'| == |r| + 1
  {
    var at := PlaceFor(r, x, key, 0);
    r[..at] + [x] + r[at..]
  }

  /** The order a sort by key leaves a sequence in: one function of the sequence and the keys. */
  function Sorted<T>(s: seq<T>, key: T -> real): (r: seq<T>)
    ensures |r| == |s|
  {
    if s == [] then [] else Inserted(Sorted(s[..|s| - 1], key), s[|s| - 1], key)
  }

  lemma SortedNothing<T>(none: seq<T>, key: T -> real)
    requires none == []
    ensures Sorted(none, key) == []
  {
  }

  lemma SortedNext<T>(s: seq<T>, n: nat, key: T -> real)
    requires n < |s|
    ensures Sorted(s[..n + 1], key) == Inserted(Sorted(s[..n], key), s[n], key)
  {
    assert s[..n + 1][..n] == s[..n];
  }

  method InsertBy<T>(r: seq<T>, x: T, key: T -> real) returns (r': seq<T>)
    requires forall i, j :: 0 <= i < j < |r| ==> key(r[i]) <= key(r[j])
    ensures r' == Inserted(r, x, key)
    ensures multiset(r') == multiset(r) + multiset{x}
    ensures forall i, j :: 0 <= i < j < |r'| ==> key(r'[i]) <= key(r'[j])
  {
    var at := 0;
    while at < |r| && key(r[at]) <= key(x)
      invariant at <= |r| && PlaceFor(r, x, key, at) == PlaceFor(r, x, key, 0)
      invariant forall i :: 0 <= i < at ==> key(r[i]) <= key(x)
    {
      at := at + 1;
    }
    InsertOrders(r, x, key, at);
    r' := r[..at] + [x] + r[at..];
  }

  lemma InsertOrders<T>(r: seq<T>, x: T, key: T -> real, at: nat)
    requires at <= |r| && forall i, j :: 0 <= i < j < |r| ==> key(r[i]) <= key(r[j])
    requires forall i :: 0 <= i < at ==> key(r[i]) <= key(x)
    requires at < |r| ==> key(x) <= key(r[at])
    ensures var r' := r[..at] + [x] + r[at..];
            && multiset(r') == multiset(r) + multiset{x}
            && forall i, j :: 0 <= i < j < |r'| ==> key(r'[i]) <= key(r'[j])
  {
    SplitContents(r[..at], x, r[at..]);
    assert r == r[..at] + r[at..];
    var r' := r[..at] + [x] + r[at..];
    forall i, j | 0 <= i < j < |r'|
      ensures key(r'[i]) <= key(r'[j])
    {
      assert r'[i] == if i < at then r[i] else if i == at then x else r[i - 1];
      assert r'[j] == if j < at then r[j] else if j == at then x else r[j - 1];
    }
  }

  /** Sorts ascending by key. */
  method SortBy<T>(s: seq<T>, key: T -> real) returns (r: seq<T>)
    ensures r == Sorted(s, key)
    ensures multiset(r) == multiset(s)
    ensures forall i, j :: 0 <= i < j < |r| ==> key(r[i]) <= key(r[j])
  {
    hide Sorted, Inserted;
    r := [];
    SortedNothing(s[..0], key);
    for n := 0 to |s|
      invariant r == Sorted(s[..n], key) && multiset(r) == multiset(s[..n])
      invariant forall i, j :: 0 <= i < j < |r| ==> key(r[i]) <= key(r[j])
    {
      assert s[..n + 1] == s[..n] + [s[n]];
      SortedNext(s, n, key);
      r := InsertBy(r, s[n], key);
    }
    assert s[..|s|] == s;
  }

  lemma InsertedContents<T>(r: seq<T>, x: T, key: T -> real)
    ensures multiset(Inserted(r, x, key)) == multiset(r) + multiset{x}
  {
    var at := PlaceFor(r, x, key, 0);
    SplitContents(r[..at], x, r[at..]);
    assert r == r[..at] + r[at..];
  }

  lemma {:induction false} SortedContents<T>(s: seq<T>, key: T -> real)
    ensures multiset(Sorted(s, key)) == multiset(s)
  {
    hide Inserted;
    if s != [] {
      var init, x := s[..|s| - 1], s[|s| - 1];
      SortedContents(init, key);
      InsertedContents(Sorted(init, key), x, key);
      assert s == init + [x];
    }
  }

  lemma SameSize<T>(a: seq<T>, b: seq<T>)
    requires multiset(a) == multiset(b)
    ensures |a| == |b|
  {
    assert |multiset(a)| == |multiset(b)|;
  }

  /** Where the last element of a sits in a permutation b, and that the rest still match. */
  lemma Rematch<T>(a: seq<T>, b: seq<T>) returns (i: nat)
    requires multiset(a) == multiset(b) && a != []
    ensures i < |b| && b[i] == a[|a| - 1]
    ensures multiset(a[..|a| - 1]) == multiset(b[..i] + b[i + 1..])
  {
    var init, last := a[..|a| - 1], a[|a| - 1];
    assert a == init + [last];
    assert last in multiset(b);
    i :| 0 <= i < |b| && b[i] == last;
    RemoveContents(b, i);
    assert multiset(init) == multiset(a) - multiset{last};
    assert multiset(b[..i] + b[i + 1..]) == multiset(b) - multiset{last};
  }
}
