/**
 * Python's stable `sorted` over a list of strings, for an ordering given as a
 * "may come before" relation `le`.
 */
module Sorting {

  ghost predicate TotalPreorder(le: (string, string) -> bool) {
    && (forall a, b :: le(a, b) || le(b, a))
    && (forall a, b, c :: le(a, b) && le(b, c) ==> le(a, c))
  }

  predicate SortedBy(xs: seq<string>, le: (string, string) -> bool) {
    forall i, j :: 0 <= i < j < |xs| ==> le(xs[i], xs[j])
  }

  /** Inserts `x` before the first element it may precede (after every element it ties with before it). */
  function Insert(x: string, xs: seq<string>, le: (string, string) -> bool): (r: seq<string>)
    ensures multiset(r) == multiset(xs) + multiset{x}
  {
    if xs == [] then [x]
    else if le(x, xs[0]) then [x] + xs
    else
      assert xs == [xs[0]] + xs[1..];
      [xs[0]] + Insert(x, xs[1..], le)
  }

  /** Insertion sort: stable, like Python's `sorted`. */
  function SortBy(xs: seq<string>, le: (string, string) -> bool): (r: seq<string>)
    ensures multiset(r) == multiset(xs)
  {
    if xs == [] then []
    else
      assert xs == [xs[0]] + xs[1..];
      Insert(xs[0], SortBy(xs[1..], le), le)
  }

  lemma {:induction false} InsertSorted(x: string, xs: seq<string>, le: (string, string) -> bool)
    requires TotalPreorder(le)
    requires SortedBy(xs, le)
    ensures SortedBy(Insert(x, xs, le), le)
  {
    if xs != [] && !le(x, xs[0]) {
      assert le(xs[0], x);
      InsertSorted(x, xs[1..], le);
      var r := Insert(x, xs[1..], le);
      forall j | 0 <= j < |r| ensures le(xs[0], r[j]) {
        assert r[j] in multiset(r);
        assert r[j] == x || r[j] in multiset(xs[1..]);
        if r[j] != x {
          var k :| 0 <= k < |xs[1..]| && xs[1..][k] == r[j];
          assert xs[k + 1] == r[j];
        }
      }
    }
  }

  /** The result of `SortBy` is ordered by `le` and is a permutation of its input. */
  lemma {:induction false} SortBySorted(xs: seq<string>, le: (string, string) -> bool)
    requires TotalPreorder(le)
    ensures SortedBy(SortBy(xs, le), le)
    ensures multiset(SortBy(xs, le)) == multiset(xs)
  {
    if xs != [] {
      SortBySorted(xs[1..], le);
      InsertSorted(xs[0], SortBy(xs[1..], le), le);
    }
  }

  /** A permutation of a list without repeated elements has no repeated elements either. */
  lemma {:induction false} PermutationKeepsDistinct(xs: seq<string>, ys: seq<string>)
    requires multiset(xs) == multiset(ys)
    requires forall i, j :: 0 <= i < j < |xs| ==> xs[i] != xs[j]
    ensures forall i, j :: 0 <= i < j < |ys| ==> ys[i] != ys[j]
  {
    forall i, j | 0 <= i < j < |ys| ensures ys[i] != ys[j] {
      if ys[i] == ys[j] {
        assert ys == ys[..i] + [ys[i]] + ys[i + 1..j] + [ys[j]] + ys[j + 1..];
        assert multiset(ys)[ys[i]] >= 2;
        DistinctCountsOne(xs, ys[i]);
        assert false;
      }
    }
  }

  lemma {:induction false} DistinctCountsOne(xs: seq<string>, x: string)
    requires forall i, j :: 0 <= i < j < |xs| ==> xs[i] != xs[j]
    ensures multiset(xs)[x] <= 1
  {
    if xs != [] {
      DistinctCountsOne(xs[1..], x);
      assert xs == [xs[0]] + xs[1..];
      if xs[0] == x {
        assert x !in xs[1..];
      }
    }
  }
}
