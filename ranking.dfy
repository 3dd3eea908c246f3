/**
 * The ranking chain at the end of RecipeSearchService#call:
 * select { score > 0 }, sort_by { -score }, first(limit), map { recipe }.
 * Ruby's sort_by is not stable, so what is specified here is "the first
 * `limit` candidates of SOME ordering by non-increasing score": IsTop says
 * exactly that and nothing about the order of ties.
 */
module Ranking {

  /** The { recipe:, score: } hash built for each candidate. */
  datatype Scored<T> = Scored(item: T, score: real)

  function Min(a: int, b: int): int {
    if a <= b then a else b
  }

  /** Non-increasing score order. */
  predicate SortedByScore<T>(s: seq<Scored<T>>) {
    forall i, j :: 0 <= i < j < |s| ==> s[i].score >= s[j].score
  }

  /** select { |item| item[:score] > 0 }: keeps the positive candidates, in order. */
  function Positive<T>(s: seq<Scored<T>>): (r: seq<Scored<T>>)
    ensures forall i :: 0 <= i < |r| ==> r[i] in s && r[i].score > 0.0
    ensures |r| <= |s|
  {
    if s == [] then []
    else (if s[0].score > 0.0 then [s[0]] else []) + Positive(s[1..])
  }

  /** Every candidate with a positive score survives the selection. */
  lemma {:induction false} PositiveKeeps<T>(s: seq<Scored<T>>, x: Scored<T>)
    requires x in s && x.score > 0.0
    ensures x in Positive(s)
  {
    if s[0] != x {
      PositiveKeeps(s[1..], x);
    }
  }

  /** The selection keeps the input order and every copy: it distributes over concatenation. */
  lemma {:induction false} PositiveAppend<T>(a: seq<Scored<T>>, b: seq<Scored<T>>)
    ensures Positive(a + b) == Positive(a) + Positive(b)
    decreases |a|
  {
    if a == [] {
      assert a + b == b;
    } else {
      assert (a + b)[1..] == a[1..] + b;
      PositiveAppend(a[1..], b);
    }
  }

  /** An element no lower than the head of a sorted list can go in front of it. */
  lemma SortedCons<T>(h: Scored<T>, t: seq<Scored<T>>)
    requires SortedByScore(t)
    requires t == [] || h.score >= t[0].score
    ensures SortedByScore([h] + t)
  {
    forall i, j | 0 <= i < j < |t| + 1 ensures ([h] + t)[i].score >= ([h] + t)[j].score {
      if i == 0 && j > 1 {
        assert t[0].score >= t[j - 1].score;
      }
    }
  }

  /** Puts x into a list already in non-increasing score order. */
  function Insert<T(==)>(x: Scored<T>, s: seq<Scored<T>>): (r: seq<Scored<T>>)
    requires SortedByScore(s)
    ensures SortedByScore(r)
    ensures multiset(r) == multiset(s) + multiset{x}
    ensures r[0] == x || (s != [] && r[0] == s[0])
  {
    if s == [] || x.score >= s[0].score then
      SortedCons(x, s);
      [x] + s
    else
      var rest := Insert(x, s[1..]);
      assert s == [s[0]] + s[1..];
      SortedCons(s[0], rest);
      [s[0]] + rest
  }

  /** sort_by { -score }: one ordering of the candidates by non-increasing score. */
  function SortByScore<T(==)>(s: seq<Scored<T>>): (r: seq<Scored<T>>)
    ensures SortedByScore(r)
    ensures multiset(r) == multiset(s)
  {
    if s == [] then []
    else
      assert s == [s[0]] + s[1..];
      Insert(s[0], SortByScore(s[1..]))
  }

  /** Array#first(n): the first n elements, or all of them when there are fewer. */
  function First<T>(s: seq<T>, n: nat): (r: seq<T>)
    ensures |r| == Min(n, |s|)
    ensures r == s[..|r|]
  {
    if n <= |s| then s[..n] else s
  }

  /**
   * top is what first(n) can return after sort_by { -score } on the
   * candidates: min(n, |candidates|) of them, in non-increasing score order,
   * and none of the candidates left out scores higher than any taken.
   */
  ghost predicate IsTop<T>(top: seq<Scored<T>>, candidates: seq<Scored<T>>, n: nat) {
    && |top| == Min(n, |candidates|)
    && multiset(top) <= multiset(candidates)
    && SortedByScore(top)
    && forall x, i :: x in multiset(candidates) - multiset(top) && 0 <= i < |top| ==> x.score <= top[i].score
  }

  /** The ranking the model computes: a stable sort, then first(n). Ties may be ordered otherwise by Ruby. */
  function TopByScore<T(==)>(candidates: seq<Scored<T>>, n: nat): (top: seq<Scored<T>>)
    ensures IsTop(top, candidates, n)
  {
    var sorted := SortByScore(candidates);
    var top := First(sorted, n);
    TopOfSorted(sorted, n);
    top
  }

  /** The first n of a sorted list are a top-n of it. */
  lemma TopOfSorted<T>(sorted: seq<Scored<T>>, n: nat)
    requires SortedByScore(sorted)
    ensures IsTop(First(sorted, n), sorted, n)
  {
    var top := First(sorted, n);
    var rest := sorted[|top|..];
    assert multiset(sorted) == multiset(top) + multiset(rest) by {
      assert sorted == top + rest;
    }
    assert multiset(top) <= multiset(sorted);
    assert multiset(sorted) - multiset(top) == multiset(rest);
    assert SortedByScore(top) by {
      forall i, j | 0 <= i < j < |top| ensures top[i].score >= top[j].score {
        assert top[i] == sorted[i] && top[j] == sorted[j];
      }
    }
    forall x, i | x in multiset(sorted) - multiset(top) && 0 <= i < |top|
      ensures x.score <= top[i].score
    {
      assert x in rest;
      SortedSuffixBelow(sorted, |top|, x, i);
    }
  }

  /** In a sorted list, everything after position k scores no more than anything before it. */
  lemma SortedSuffixBelow<T>(sorted: seq<Scored<T>>, k: nat, x: Scored<T>, i: nat)
    requires SortedByScore(sorted) && k <= |sorted|
    requires x in sorted[k..] && i < k
    ensures x.score <= sorted[i].score
  {
    var j :| 0 <= j < |sorted| - k && sorted[k..][j] == x;
    assert sorted[k + j] == x;
  }

  /** map { |item| item[:recipe] }. */
  function Items<T>(s: seq<Scored<T>>): (r: seq<T>)
    ensures |r| == |s|
    ensures forall i :: 0 <= i < |s| ==> r[i] == s[i].item
  {
    seq(|s|, i requires 0 <= i < |s| => s[i].item)
  }

  /**
   * What follows from IsTop for the caller: every entry is a candidate, the
   * scores do not increase, and a candidate scoring strictly more than some
   * entry is itself among the entries (as many times as it occurs).
   */
  lemma TopProperties<T>(top: seq<Scored<T>>, candidates: seq<Scored<T>>, n: nat)
    requires IsTop(top, candidates, n)
    ensures |top| <= n
    ensures forall i :: 0 <= i < |top| ==> top[i] in candidates
    ensures forall i, j :: 0 <= i < j < |top| ==> top[i].score >= top[j].score
    ensures forall x, i :: x in candidates && 0 <= i < |top| && x.score > top[i].score ==>
              multiset(top)[x] == multiset(candidates)[x]
    ensures |top| < n ==> multiset(top) == multiset(candidates)
  {
    forall i | 0 <= i < |top| ensures top[i] in candidates {
      assert top[i] in multiset(top);
    }
    forall x, i | x in candidates && 0 <= i < |top| && x.score > top[i].score
      ensures multiset(top)[x] == multiset(candidates)[x]
    {
      assert x !in multiset(candidates) - multiset(top);
    }
    if |top| < n {
      assert |top| == |candidates|;
      assert |multiset(top)| == |multiset(candidates)|;
      MultisetSubsetSameSize(multiset(top), multiset(candidates));
    }
  }

  lemma MultisetSubsetSameSize<T>(a: multiset<T>, b: multiset<T>)
    requires a <= b && |a| == |b|
    ensures a == b
  {
    assert |b - a| == |b| - |a|;
  }
}
