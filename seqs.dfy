/**
 * The two list operations the routes and the page build on: `filter`
 * (MongoDB's `find` with an equality query, `deleteMany`'s complement,
 * `Array.prototype.filter`) and sorting by a total preorder (MongoDB's
 * `sort`, `Array.prototype.sort` with a comparator).
 */
module Seqs {

  /** The elements of `s` that satisfy `p`, in their original order. */
  function Filter<T(!new)>(s: seq<T>, p: T -> bool): (r: seq<T>)
    ensures |r| <= |s|
    ensures forall x :: x in r <==> x in s && p(x)
    decreases |s|
  {
    if s == [] then []
    else
      var rest := Filter(s[1..], p);
      assert s == [s[0]] + s[1..];
      if p(s[0]) then [s[0]] + rest else rest
  }

  /** Filtering keeps every copy of an element that passes and no copy of
      one that fails. */
  lemma {:induction false} FilterCounts<T(!new)>(s: seq<T>, p: T -> bool)
    ensures forall x :: multiset(Filter(s, p))[x] == if p(x) then multiset(s)[x] else 0
    decreases |s|
  {
    if s != [] {
      FilterCounts(s[1..], p);
      assert s == [s[0]] + s[1..];
    }
  }

  /** `f` maps the positions of `r` to increasing positions of `s` that
      hold the same elements: `r` is `s` with some elements left out. */
  ghost predicate Embedding<T>(f: seq<nat>, r: seq<T>, s: seq<T>) {
    && |f| == |r|
    && (forall i :: 0 <= i < |f| ==> f[i] < |s| && r[i] == s[f[i]])
    && (forall i, j :: 0 <= i < j < |f| ==> f[i] < f[j])
  }

  function Shift(f: seq<nat>): (g: seq<nat>)
    ensures |g| == |f| && forall i :: 0 <= i < |f| ==> g[i] == f[i] + 1
  {
    seq(|f|, i requires 0 <= i < |f| => f[i] + 1)
  }

  lemma EmbeddingSkip<T>(f: seq<nat>, r: seq<T>, s: seq<T>, x: T)
    requires Embedding(f, r, s)
    ensures Embedding(Shift(f), r, [x] + s)
  {
    forall i | 0 <= i < |f|
      ensures Shift(f)[i] < |[x] + s| && r[i] == ([x] + s)[Shift(f)[i]]
    {
    }
  }

  lemma EmbeddingKeep<T>(f: seq<nat>, r: seq<T>, s: seq<T>, x: T)
    requires Embedding(f, r, s)
    ensures Embedding([0] + Shift(f), [x] + r, [x] + s)
  {
    var g := [0] + Shift(f);
    forall i | 0 < i < |g|
      ensures g[i] < |[x] + s| && ([x] + r)[i] == ([x] + s)[g[i]]
    {
      assert g[i] == f[i - 1] + 1;
    }
  }

  /** Filtering keeps the relative order of what it keeps. */
  lemma {:induction false} FilterKeepsOrder<T(!new)>(s: seq<T>, p: T -> bool) returns (f: seq<nat>)
    ensures Embedding(f, Filter(s, p), s)
    decreases |s|
  {
    if s == [] {
      f := [];
    } else {
      var g := FilterKeepsOrder(s[1..], p);
      assert s == [s[0]] + s[1..];
      if p(s[0]) {
        EmbeddingKeep(g, Filter(s[1..], p), s[1..], s[0]);
        f := [0] + Shift(g);
      } else {
        EmbeddingSkip(g, Filter(s[1..], p), s[1..], s[0]);
        f := Shift(g);
      }
    }
  }

  lemma {:induction false} FilterAppend<T(!new)>(a: seq<T>, b: seq<T>, p: T -> bool)
    ensures Filter(a + b, p) == Filter(a, p) + Filter(b, p)
    decreases |a|
  {
    if a == [] {
      assert a + b == b;
    } else {
      assert (a + b)[0] == a[0];
      assert (a + b)[1..] == a[1..] + b;
      FilterAppend(a[1..], b, p);
    }
  }

  /** Filtering a prefix one element longer: the loop step of a filter. */
  lemma FilterPrefixStep<T(!new)>(s: seq<T>, i: nat, p: T -> bool)
    requires i < |s|
    ensures Filter(s[..i + 1], p) == Filter(s[..i], p) + if p(s[i]) then [s[i]] else []
  {
    assert s[..i + 1] == s[..i] + [s[i]];
    FilterAppend(s[..i], [s[i]], p);
    assert [s[i]][1..] == [];
  }

  /** An element the test rejects leaves no trace, wherever it stands. */
  lemma {:induction false} FilterSkips<T(!new)>(a: seq<T>, x: T, b: seq<T>, p: T -> bool)
    requires !p(x)
    ensures Filter(a + [x] + b, p) == Filter(a + b, p)
    decreases |a|
  {
    if a == [] {
      assert a + [x] + b == [x] + b && a + b == b;
      assert ([x] + b)[1..] == b;
    } else {
      assert (a + [x] + b)[0] == (a + b)[0] == a[0];
      assert (a + [x] + b)[1..] == a[1..] + [x] + b;
      assert (a + b)[1..] == a[1..] + b;
      FilterSkips(a[1..], x, b, p);
    }
  }

  /** Two filters can be applied in either order. */
  lemma {:induction false} FilterCommutes<T(!new)>(s: seq<T>, p: T -> bool, q: T -> bool)
    ensures Filter(Filter(s, p), q) == Filter(Filter(s, q), p)
    decreases |s|
  {
    if s != [] {
      FilterCommutes(s[1..], p, q);
    }
  }

  /** Filtering twice by the same test is filtering once. */
  lemma {:induction false} FilterIdempotent<T(!new)>(s: seq<T>, p: T -> bool)
    ensures Filter(Filter(s, p), p) == Filter(s, p)
    decreases |s|
  {
    if s != [] {
      FilterIdempotent(s[1..], p);
    }
  }

  /** When `q` is the negation of `p`, the two filters split `s`. */
  lemma {:induction false} FilterSplits<T(!new)>(s: seq<T>, p: T -> bool, q: T -> bool)
    requires forall x :: q(x) == !p(x)
    ensures |Filter(s, p)| + |Filter(s, q)| == |s|
    decreases |s|
  {
    if s != [] {
      FilterSplits(s[1..], p, q);
    }
  }

  /** `leq` is total and transitive, as a sort comparator must be. */
  ghost predicate TotalPreorder<T(!new)>(leq: (T, T) -> bool) {
    && (forall a, b :: leq(a, b) || leq(b, a))
    && (forall a, b, c :: leq(a, b) && leq(b, c) ==> leq(a, c))
  }

  predicate SortedBy<T>(s: seq<T>, leq: (T, T) -> bool) {
    forall i, j :: 0 <= i < j < |s| ==> leq(s[i], s[j])
  }

  /** An element that precedes everything in a sorted sequence can go in
      front of it. */
  lemma ConsSorted<T>(h: T, t: seq<T>, leq: (T, T) -> bool)
    requires SortedBy(t, leq)
    requires forall y :: y in t ==> leq(h, y)
    ensures SortedBy([h] + t, leq)
  {
    var r := [h] + t;
    forall i, j | 0 <= i < j < |r|
      ensures leq(r[i], r[j])
    {
      assert r[j] == t[j - 1];
      if i > 0 {
        assert r[i] == t[i - 1];
      }
    }
  }

  /** Puts `x` in front of the first element it is not after. */
  function Insert<T(!new)>(x: T, s: seq<T>, leq: (T, T) -> bool): (r: seq<T>)
    requires TotalPreorder(leq) && SortedBy(s, leq)
    ensures SortedBy(r, leq)
    ensures multiset(r) == multiset(s) + multiset{x}
    decreases |s|
  {
    if s == [] then
      [x]
    else if leq(x, s[0]) then
      assert forall y :: y in s ==> leq(x, y) by {
        forall y | y in s
          ensures leq(x, y)
        {
          var k :| 0 <= k < |s| && s[k] == y;
          if k > 0 {
            assert leq(s[0], s[k]);
          }
        }
      }
      ConsSorted(x, s, leq);
      [x] + s
    else
      var rest := Insert(x, s[1..], leq);
      assert s == [s[0]] + s[1..];
      assert forall y :: y in rest ==> leq(s[0], y) by {
        forall y | y in rest
          ensures leq(s[0], y)
        {
          assert y in multiset(rest);
          if y != x {
            assert y in multiset(s[1..]);
            var k :| 0 <= k < |s[1..]| && s[1..][k] == y;
            assert s[k + 1] == y;
          }
        }
      }
      ConsSorted(s[0], rest, leq);
      [s[0]] + rest
  }

  /** Insertion sort: a sorted permutation of `s`. */
  function SortBy<T(!new)>(s: seq<T>, leq: (T, T) -> bool): (r: seq<T>)
    requires TotalPreorder(leq)
    ensures SortedBy(r, leq)
    ensures multiset(r) == multiset(s)
    decreases |s|
  {
    if s == [] then []
    else
      assert s == [s[0]] + s[1..];
      Insert(s[0], SortBy(s[1..], leq), leq)
  }
}
