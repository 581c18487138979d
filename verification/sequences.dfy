/** The list operations the downloader builds on: comprehensions with a condition,
    `set()` and `sorted(key=...)`, stated over Dafny sequences. */
module Sequences {
  import opened Wrappers

  /** `m` lists strictly increasing positions of `b` that spell out `a`. */
  ghost predicate Embedding<T>(m: seq<nat>, a: seq<T>, b: seq<T>) {
    && |m| == |a|
    && (forall i :: 0 <= i < |m| ==> m[i] < |b| && a[i] == b[m[i]])
    && (forall i, j :: 0 <= i < j < |m| ==> m[i] < m[j])
  }

  /** `a` is `b` with some elements left out and the rest in their order. */
  ghost predicate IsSubsequence<T>(a: seq<T>, b: seq<T>) {
    exists m :: Embedding(m, a, b)
  }

  /** `[x for x in xs if p(x)]`. */
  function Filter<T(!new)>(xs: seq<T>, p: T -> bool): (r: seq<T>)
    ensures |r| <= |xs|
    ensures forall x :: x in r <==> x in xs && p(x)
  {
    if xs == [] then []
    else
      var n := |xs| - 1;
      assert xs == xs[..n] + [xs[n]];
      Filter(xs[..n], p) + (if p(xs[n]) then [xs[n]] else [])
  }

  /** What `Filter` keeps stays in its original order. */
  lemma {:induction false} FilterIsSubsequence<T(!new)>(xs: seq<T>, p: T -> bool)
    ensures IsSubsequence(Filter(xs, p), xs)
  {
    if xs == [] {
      assert Embedding([], Filter(xs, p), xs);
    } else {
      var n := |xs| - 1;
      FilterIsSubsequence(xs[..n], p);
      var m :| Embedding(m, Filter(xs[..n], p), xs[..n]);
      if p(xs[n]) {
        assert Embedding(m + [n], Filter(xs, p), xs);
      } else {
        assert Embedding(m, Filter(xs, p), xs);
      }
    }
  }

  /** Filtering distributes over concatenation. */
  lemma {:induction false} FilterAppend<T(!new)>(a: seq<T>, b: seq<T>, p: T -> bool)
    ensures Filter(a + b, p) == Filter(a, p) + Filter(b, p)
    decreases |b|
  {
    if b == [] {
      assert a + b == a;
    } else {
      var n := |b| - 1;
      var last := b[n];
      var tail := if p(last) then [last] else [];
      FilterAppend(a, b[..n], p);
      assert (a + b)[..|a + b| - 1] == a + b[..n];
      assert (a + b)[|a + b| - 1] == last;
      assert Filter(a + b, p) == Filter(a + b[..n], p) + tail;
      assert Filter(b, p) == Filter(b[..n], p) + tail;
    }
  }

  /** Two conditions that agree wherever `q` holds keep the same elements among those
      satisfying `q`. */
  lemma {:induction false} FilterAgreeing<T(!new)>(xs: seq<T>, p1: T -> bool, p2: T -> bool, q: T -> bool)
    requires forall x :: x in xs && q(x) ==> (p1(x) <==> p2(x))
    ensures Filter(Filter(xs, p1), q) == Filter(Filter(xs, p2), q)
  {
    if xs != [] {
      var n := |xs| - 1;
      assert forall x :: x in xs[..n] ==> x in xs;
      FilterAgreeing(xs[..n], p1, p2, q);
      var last := xs[n];
      FilterAppend(Filter(xs[..n], p1), if p1(last) then [last] else [], q);
      FilterAppend(Filter(xs[..n], p2), if p2(last) then [last] else [], q);
    }
  }

  /** `u` is `f(x)` for some `x` of `xs` that `keep` selects. */
  ghost predicate Produces<T, U>(xs: seq<T>, keep: T -> bool, f: T -> U, u: U) {
    exists k :: 0 <= k < |xs| && keep(xs[k]) && u == f(xs[k])
  }

  /** `[f(x) for x in xs if keep(x)]`. */
  function FilterMap<T, U(!new)>(xs: seq<T>, keep: T -> bool, f: T -> U): (r: seq<U>)
    ensures |r| <= |xs|
    ensures forall u :: u in r <==> Produces(xs, keep, f, u)
  {
    if xs == [] then []
    else
      var n := |xs| - 1;
      var p := FilterMap(xs[..n], keep, f);
      var r := p + (if keep(xs[n]) then [f(xs[n])] else []);
      forall u | u in r ensures Produces(xs, keep, f, u) {
        if u in p {
          var k :| 0 <= k < n && keep(xs[..n][k]) && u == f(xs[..n][k]);
          assert xs[k] == xs[..n][k];
        }
      }
      forall u | Produces(xs, keep, f, u) ensures u in r {
        var k :| 0 <= k < |xs| && keep(xs[k]) && u == f(xs[k]);
        if k < n {
          assert xs[..n][k] == xs[k];
          assert Produces(xs[..n], keep, f, u);
        }
      }
      r
  }

  /** `[v for x in xs if (v := f(x)) is not None]`: the present results, in order. */
  function FilterSome<T, U>(xs: seq<T>, f: T -> Option<U>): (r: seq<U>)
    ensures |r| <= |xs|
  {
    if xs == [] then [] else FilterSome(xs[..|xs| - 1], f) + Present(f(xs[|xs| - 1]))
  }

  lemma {:induction false} FilterSomeMembers<T, U>(xs: seq<T>, f: T -> Option<U>)
    ensures forall u :: u in FilterSome(xs, f) <==> exists k :: 0 <= k < |xs| && f(xs[k]) == Some(u)
  {
    if xs != [] {
      var n := |xs| - 1;
      FilterSomeMembers(xs[..n], f);
      assert forall k :: 0 <= k < n ==> xs[..n][k] == xs[k];
    }
  }

  lemma {:induction false} FilterSomeNone<T, U>(xs: seq<T>, f: T -> Option<U>)
    requires forall k :: 0 <= k < |xs| ==> f(xs[k]).None?
    ensures FilterSome(xs, f) == []
  {
    if xs != [] {
      var n := |xs| - 1;
      assert forall k :: 0 <= k < n ==> xs[..n][k] == xs[k];
      FilterSomeNone(xs[..n], f);
    }
  }

  /** The value of `o` as a sequence of zero or one elements. */
  function Present<U>(o: Option<U>): seq<U> {
    match o
    case None => []
    case Some(v) => [v]
  }

  lemma FilterSomeDropsMiddle<T, U>(x: T, y: T, z: T, f: T -> Option<U>, a: U, b: U)
    requires f(x) == Some(a) && f(y) == None && f(z) == Some(b)
    ensures FilterSome([x, y, z], f) == [a, b]
  {
    FilterSomeOfThree(x, y, z, f);
  }

  lemma FilterSomeOfThree<T, U>(x: T, y: T, z: T, f: T -> Option<U>)
    ensures FilterSome([x, y, z], f) == Present(f(x)) + Present(f(y)) + Present(f(z))
  {
    assert [x, y, z][..2] == [x, y];
    assert [x, y][..1] == [x];
    assert [x][..0] == [];
    assert FilterSome([x], f) == Present(f(x));
    assert FilterSome([x, y], f) == Present(f(x)) + Present(f(y));
  }

  lemma {:induction false} FilterSomeAppend<T, U>(a: seq<T>, b: seq<T>, f: T -> Option<U>)
    ensures FilterSome(a + b, f) == FilterSome(a, f) + FilterSome(b, f)
    decreases |b|
  {
    if b == [] {
      assert a + b == a;
    } else {
      var n := |b| - 1;
      var tail := Present(f(b[n]));
      FilterSomeAppend(a, b[..n], f);
      assert (a + b)[..|a + b| - 1] == a + b[..n];
      assert (a + b)[|a + b| - 1] == b[n];
      calc {
        FilterSome(a + b, f);
        FilterSome(a + b[..n], f) + tail;
        (FilterSome(a, f) + FilterSome(b[..n], f)) + tail;
        FilterSome(a, f) + (FilterSome(b[..n], f) + tail);
        FilterSome(a, f) + FilterSome(b, f);
      }
    }
  }

  predicate NoDuplicates<T(==)>(xs: seq<T>) {
    forall i, j :: 0 <= i < j < |xs| ==> xs[i] != xs[j]
  }

  /** `set(xs)`, as a duplicate-free sequence keeping first occurrences. */
  function Dedupe<T(==,!new)>(xs: seq<T>): (r: seq<T>)
    ensures NoDuplicates(r)
    ensures |r| <= |xs|
    ensures forall u :: u in r <==> u in xs
  {
    if xs == [] then []
    else
      var init := xs[..|xs| - 1];
      var last := xs[|xs| - 1];
      var p := Dedupe(init);
      assert xs == init + [last];
      if last in p then p else p + [last]
  }

  /** Non-decreasing in `key`. */
  predicate SortedBy<T>(xs: seq<T>, key: T -> real) {
    forall i, j :: 0 <= i < j < |xs| ==> key(xs[i]) <= key(xs[j])
  }

  /** Places `x` before the first element with a larger key. */
  function Insert<T(==,!new)>(x: T, xs: seq<T>, key: T -> real): (r: seq<T>)
    requires SortedBy(xs, key) && NoDuplicates(xs) && x !in xs
    ensures SortedBy(r, key) && NoDuplicates(r)
    ensures |r| == |xs| + 1
    ensures forall u :: u in r <==> u == x || u in xs
  {
    if xs == [] || key(x) <= key(xs[0]) then [x] + xs
    else
      var rest := Insert(x, xs[1..], key);
      var r := [xs[0]] + rest;
      forall j | 1 <= j < |r| ensures key(xs[0]) <= key(r[j]) && xs[0] != r[j] {
        assert r[j] == rest[j - 1];
        assert rest[j - 1] in rest;
      }
      r
  }

  /** `sorted(xs, key=key)` over a duplicate-free collection, by insertion. */
  function SortBy<T(==,!new)>(xs: seq<T>, key: T -> real): (r: seq<T>)
    requires NoDuplicates(xs)
    ensures SortedBy(r, key) && NoDuplicates(r)
    ensures |r| == |xs|
    ensures forall u :: u in r <==> u in xs
  {
    if xs == [] then []
    else
      var init := xs[..|xs| - 1];
      assert xs == init + [xs[|xs| - 1]];
      Insert(xs[|xs| - 1], SortBy(init, key), key)
  }

  lemma SubsequenceKeepsSorted<T>(a: seq<T>, b: seq<T>, key: T -> real)
    requires IsSubsequence(a, b) && SortedBy(b, key)
    ensures SortedBy(a, key)
  {
    var m :| Embedding(m, a, b);
    forall i, j | 0 <= i < j < |a| ensures key(a[i]) <= key(a[j]) {
      assert a[i] == b[m[i]] && a[j] == b[m[j]];
    }
  }

  lemma SubsequenceKeepsDistinct<T>(a: seq<T>, b: seq<T>)
    requires IsSubsequence(a, b) && NoDuplicates(b)
    ensures NoDuplicates(a)
  {
    var m :| Embedding(m, a, b);
    forall i, j | 0 <= i < j < |a| ensures a[i] != a[j] {
      assert a[i] == b[m[i]] && a[j] == b[m[j]];
    }
  }
}
