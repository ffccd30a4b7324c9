/**
 * Sequence operations the extractor is built from: filtering a list in
 * order, the order-keeping "is a subsequence of" relation, and LINQ's
 * `Enumerable.Except`.
 */
module Seqs {

  /** The elements of `s` that satisfy `p`, in their order in `s`. */
  function Filter<T>(s: seq<T>, p: T -> bool): seq<T>
  {
    if s == [] then []
    else Filter(s[..|s| - 1], p) + (if p(s[|s| - 1]) then [s[|s| - 1]] else [])
  }

  /** `xs` is obtained from `ys` by deleting elements; the order is kept. */
  predicate Subsequence<T(==)>(xs: seq<T>, ys: seq<T>)
    decreases |ys|
  {
    xs == [] ||
    (ys != [] &&
     ((xs[|xs| - 1] == ys[|ys| - 1] && Subsequence(xs[..|xs| - 1], ys[..|ys| - 1])) ||
      Subsequence(xs, ys[..|ys| - 1])))
  }

  predicate NoDuplicates<T(==)>(s: seq<T>)
  {
    forall i, j :: 0 <= i < j < |s| ==> s[i] != s[j]
  }

  /**
   * `a.Except(b)`: the elements of `a` that are not in `b`, each once, in the
   * order of their first occurrence in `a`.
   */
  function Except<T(==)>(a: seq<T>, b: seq<T>): seq<T>
  {
    if a == [] then []
    else
      var r := Except(a[..|a| - 1], b);
      if a[|a| - 1] in b || a[|a| - 1] in r then r else r + [a[|a| - 1]]
  }

  lemma {:induction false} FilterMembership<T>(s: seq<T>, p: T -> bool, x: T)
    ensures x in Filter(s, p) <==> x in s && p(x)
    decreases |s|
  {
    if s != [] {
      FilterMembership(s[..|s| - 1], p, x);
      assert s == s[..|s| - 1] + [s[|s| - 1]];
    }
  }

  lemma {:induction false} FilterIsSubsequence<T>(s: seq<T>, p: T -> bool)
    ensures Subsequence(Filter(s, p), s)
    decreases |s|
  {
    if s != [] {
      var init := s[..|s| - 1];
      FilterIsSubsequence(init, p);
      var r := Filter(s, p);
      if p(s[|s| - 1]) {
        assert r[|r| - 1] == s[|s| - 1] && r[..|r| - 1] == Filter(init, p);
      } else {
        assert r == Filter(init, p);
      }
    }
  }

  lemma {:induction false} FilterKeepsNoDuplicates<T>(s: seq<T>, p: T -> bool)
    requires NoDuplicates(s)
    ensures NoDuplicates(Filter(s, p))
    decreases |s|
  {
    if s != [] {
      var init := s[..|s| - 1];
      FilterKeepsNoDuplicates(init, p);
      if p(s[|s| - 1]) {
        FilterMembership(init, p, s[|s| - 1]);
      }
    }
  }

  /** Filtering by `p` and by its negation splits `s` without loss. */
  lemma {:induction false} FilterSplits<T>(s: seq<T>, p: T -> bool, q: T -> bool)
    requires forall x :: q(x) == !p(x)
    ensures multiset(Filter(s, p)) + multiset(Filter(s, q)) == multiset(s)
    decreases |s|
  {
    if s != [] {
      FilterSplits(s[..|s| - 1], p, q);
      assert s == s[..|s| - 1] + [s[|s| - 1]];
    }
  }

  /** Everything a subsequence holds comes from the sequence it was taken from. */
  lemma {:induction false} SubsequenceMembership<T>(xs: seq<T>, ys: seq<T>, x: T)
    requires Subsequence(xs, ys)
    requires x in xs
    ensures x in ys
    decreases |ys|
  {
    var yi := ys[..|ys| - 1];
    if xs[|xs| - 1] == ys[|ys| - 1] && Subsequence(xs[..|xs| - 1], yi) {
      assert xs == xs[..|xs| - 1] + [xs[|xs| - 1]];
      assert ys == yi + [ys[|ys| - 1]];
      if x != xs[|xs| - 1] {
        SubsequenceMembership(xs[..|xs| - 1], yi, x);
      }
    } else {
      SubsequenceMembership(xs, yi, x);
    }
  }

  lemma {:induction false} ExceptMembership<T>(a: seq<T>, b: seq<T>, x: T)
    ensures x in Except(a, b) <==> x in a && x !in b
    decreases |a|
  {
    if a != [] {
      ExceptMembership(a[..|a| - 1], b, x);
      assert a == a[..|a| - 1] + [a[|a| - 1]];
    }
  }

  lemma {:induction false} ExceptNoDuplicates<T>(a: seq<T>, b: seq<T>)
    ensures NoDuplicates(Except(a, b))
    decreases |a|
  {
    if a != [] {
      ExceptNoDuplicates(a[..|a| - 1], b);
    }
  }

  lemma {:induction false} ExceptIsSubsequence<T>(a: seq<T>, b: seq<T>)
    ensures Subsequence(Except(a, b), a)
    decreases |a|
  {
    if a != [] {
      var init := a[..|a| - 1];
      ExceptIsSubsequence(init, b);
      var r := Except(a, b);
      if r != Except(init, b) {
        assert r[..|r| - 1] == Except(init, b);
      }
    }
  }

  /** When `a` is duplicate-free and shares nothing with `b`, `a.Except(b)` is `a` itself. */
  lemma {:induction false} ExceptDisjoint<T>(a: seq<T>, b: seq<T>)
    requires NoDuplicates(a)
    requires forall x :: x in a ==> x !in b
    ensures Except(a, b) == a
    decreases |a|
  {
    if a != [] {
      var init, last := a[..|a| - 1], a[|a| - 1];
      assert forall x :: x in init ==> x in a;
      ExceptDisjoint(init, b);
      assert a == init + [last];
    }
  }

  lemma FilterSnoc<T>(s: seq<T>, x: T, p: T -> bool)
    ensures Filter(s + [x], p) == Filter(s, p) + (if p(x) then [x] else [])
  {
  }
}
