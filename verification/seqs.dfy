/** Sequence utilities shared by the task list: the `filter` of JavaScript arrays
    and the stable sort that `Array.prototype.sort` performs with a comparator. */
module Seqs {

  /** `s.filter(p)`: the elements of `s` that satisfy `p`, in their original order. */
  function Filter<T(!new)>(s: seq<T>, p: T -> bool): (r: seq<T>)
    ensures |r| <= |s|
    ensures forall x :: x in r <==> x in s && p(x)
  {
    if s == [] then [] else (if p(s[0]) then [s[0]] else []) + Filter(s[1..], p)
  }

  /** Filtering a concatenation filters each part: the survivors keep their order. */
  lemma {:induction false} FilterConcat<T(!new)>(a: seq<T>, b: seq<T>, p: T -> bool)
    ensures Filter(a + b, p) == Filter(a, p) + Filter(b, p)
  {
    if a == [] {
      assert a + b == b;
    } else {
      assert (a + b)[0] == a[0];
      assert (a + b)[1..] == a[1..] + b;
      FilterConcat(a[1..], b, p);
    }
  }

  /** Filtering keeps every surviving element with its full multiplicity and drops the rest. */
  lemma {:induction false} FilterCount<T(!new)>(s: seq<T>, p: T -> bool, x: T)
    ensures multiset(Filter(s, p))[x] == if p(x) then multiset(s)[x] else 0
  {
    if s != [] {
      FilterCount(s[1..], p, x);
      assert s == [s[0]] + s[1..];
    }
  }

  /** A filter whose predicate holds everywhere on `s` returns `s` itself. */
  lemma {:induction false} FilterKeepsAll<T(!new)>(s: seq<T>, p: T -> bool)
    requires forall x :: x in s ==> p(x)
    ensures Filter(s, p) == s
  {
    if s != [] {
      FilterKeepsAll(s[1..], p);
    }
  }

  /** A filter whose predicate fails everywhere on `s` returns nothing. */
  lemma {:induction false} FilterDropsAll<T(!new)>(s: seq<T>, p: T -> bool)
    requires forall x :: x in s ==> !p(x)
    ensures Filter(s, p) == []
  {
    if s != [] {
      FilterDropsAll(s[1..], p);
    }
  }

  /** `le` is a total preorder: what a consistent `(a, b) => cmp(a, b) <= 0` comparator gives. */
  ghost predicate TotalPreorder<T(!new)>(le: (T, T) -> bool)
  {
    && (forall a, b :: le(a, b) || le(b, a))
    && (forall a, b, c :: le(a, b) && le(b, c) ==> le(a, c))
  }

  /** Every pair of elements of `s`, taken in order, is related by `R`; with a preorder for
      `R`, `s` is sorted by it. */
  ghost predicate Pairwise<T>(s: seq<T>, R: (T, T) -> bool)
  {
    forall i, j :: 0 <= i < j < |s| ==> R(s[i], s[j])
  }

  /** The elements that compare equal to `x` under `le`. */
  function Equiv<T>(le: (T, T) -> bool, x: T): T -> bool
  {
    y => le(x, y) && le(y, x)
  }

  /** Inserts `x` before the first element that is not strictly smaller than it. */
  function Insert<T>(x: T, s: seq<T>, le: (T, T) -> bool): (r: seq<T>)
    ensures multiset(r) == multiset(s) + multiset{x}
  {
    if s == [] || le(x, s[0]) then [x] + s
    else
      assert s == [s[0]] + s[1..];
      [s[0]] + Insert(x, s[1..], le)
  }

  /** Stable sort by `le`: each element goes in front of the later elements it does not exceed. */
  function SortBy<T>(s: seq<T>, le: (T, T) -> bool): (r: seq<T>)
    ensures multiset(r) == multiset(s)
  {
    if s == [] then []
    else
      assert s == [s[0]] + s[1..];
      Insert(s[0], SortBy(s[1..], le), le)
  }

  lemma {:induction false} InsertSorted<T(!new)>(x: T, s: seq<T>, le: (T, T) -> bool)
    requires TotalPreorder(le)
    requires Pairwise(s, le)
    ensures Pairwise(Insert(x, s, le), le)
  {
    if s == [] || le(x, s[0]) {
    } else {
      var t := Insert(x, s[1..], le);
      InsertSorted(x, s[1..], le);
      forall y | y in t
        ensures le(s[0], y)
      {
        assert y in multiset(t);
      }
      var r := [s[0]] + t;
      forall i, j | 0 <= i < j < |r|
        ensures le(r[i], r[j])
      {
        if i == 0 {
          assert r[j] in t;
        } else {
          assert r[i] == t[i - 1] && r[j] == t[j - 1];
        }
      }
    }
  }

  /** The sort's output is ordered by `le`. */
  lemma {:induction false} SortBySorted<T(!new)>(s: seq<T>, le: (T, T) -> bool)
    requires TotalPreorder(le)
    ensures Pairwise(SortBy(s, le), le)
  {
    if s != [] {
      SortBySorted(s[1..], le);
      InsertSorted(s[0], SortBy(s[1..], le), le);
    }
  }

  lemma FilterSingleton<T(!new)>(x: T, p: T -> bool)
    ensures Filter([x], p) == if p(x) then [x] else []
  {
    assert [x][1..] == [];
  }

  /** Two elements that are not both kept by `p` can trade places without changing the filter. */
  lemma FilterSwap<T(!new)>(x: T, y: T, rest: seq<T>, p: T -> bool)
    requires !(p(x) && p(y))
    ensures Filter([y], p) + (Filter([x], p) + rest) == Filter([x], p) + (Filter([y], p) + rest)
  {
    if !p(x) {
      FilterSingleton(x, p);
    } else {
      FilterSingleton(y, p);
    }
  }

  lemma {:induction false} InsertStable<T(!new)>(x: T, s: seq<T>, le: (T, T) -> bool, k: T)
    requires TotalPreorder(le)
    ensures Filter(Insert(x, s, le), Equiv(le, k)) == Filter([x] + s, Equiv(le, k))
  {
    var q := Equiv(le, k);
    if s != [] && !le(x, s[0]) {
      // s[0] is strictly below x, so the two are not both equivalent to k
      assert !(q(x) && q(s[0]));
      var t := Insert(x, s[1..], le);
      InsertStable(x, s[1..], le, k);
      FilterConcat([s[0]], t, q);
      FilterConcat([x], s[1..], q);
      FilterConcat([x], s, q);
      FilterConcat([s[0]], s[1..], q);
      assert [s[0]] + s[1..] == s;
      FilterSwap(x, s[0], Filter(s[1..], q), q);
    }
  }

  /** Stability: the elements equal to any `k` under `le` come out in their input order. */
  lemma {:induction false} SortByStable<T(!new)>(s: seq<T>, le: (T, T) -> bool, k: T)
    requires TotalPreorder(le)
    ensures Filter(SortBy(s, le), Equiv(le, k)) == Filter(s, Equiv(le, k))
  {
    if s != [] {
      var q, sorted := Equiv(le, k), SortBy(s[1..], le);
      calc {
        Filter(SortBy(s, le), q);
        Filter(Insert(s[0], sorted, le), q);
        { InsertStable(s[0], sorted, le, k); }
        Filter([s[0]] + sorted, q);
        { FilterConcat([s[0]], sorted, q); }
        Filter([s[0]], q) + Filter(sorted, q);
        { SortByStable(s[1..], le, k); }
        Filter([s[0]], q) + Filter(s[1..], q);
        { FilterConcat([s[0]], s[1..], q); assert [s[0]] + s[1..] == s; }
        Filter(s, q);
      }
    }
  }

  /** Sorting input that is already ordered changes nothing. */
  lemma {:induction false} SortBySortedIsIdentity<T>(s: seq<T>, le: (T, T) -> bool)
    requires Pairwise(s, le)
    ensures SortBy(s, le) == s
  {
    if s != [] {
      assert Pairwise(s[1..], le) by {
        forall i, j | 0 <= i < j < |s[1..]| ensures le(s[1..][i], s[1..][j]) {
          assert s[1..][i] == s[i + 1] && s[1..][j] == s[j + 1];
        }
      }
      SortBySortedIsIdentity(s[1..], le);
      assert s == [s[0]] + s[1..];
    }
  }


  lemma PairwiseTail<T>(s: seq<T>, R: (T, T) -> bool)
    requires s != [] && Pairwise(s, R)
    ensures Pairwise(s[1..], R)
    ensures forall y :: y in s[1..] ==> R(s[0], y)
  {
    forall i, j | 0 <= i < j < |s[1..]| ensures R(s[1..][i], s[1..][j]) {
      assert s[1..][i] == s[i + 1] && s[1..][j] == s[j + 1];
    }
  }

  lemma PairwiseCons<T>(x: T, s: seq<T>, R: (T, T) -> bool)
    requires Pairwise(s, R)
    requires forall y :: y in s ==> R(x, y)
    ensures Pairwise([x] + s, R)
  {
    var r := [x] + s;
    forall i, j | 0 <= i < j < |r| ensures R(r[i], r[j]) {
      assert r[j] == s[j - 1];
      if i > 0 {
        assert r[i] == s[i - 1];
      }
    }
  }

  /** A filter keeps every pairwise relation of its input. */
  lemma {:induction false} FilterPairwise<T(!new)>(s: seq<T>, p: T -> bool, R: (T, T) -> bool)
    requires Pairwise(s, R)
    ensures Pairwise(Filter(s, p), R)
  {
    if s != [] {
      PairwiseTail(s, R);
      FilterPairwise(s[1..], p, R);
      if p(s[0]) {
        PairwiseCons(s[0], Filter(s[1..], p), R);
      }
    }
  }

  /** Inserting an element related both ways to all others keeps a pairwise relation. */
  lemma {:induction false} InsertPairwise<T>(x: T, s: seq<T>, le: (T, T) -> bool, R: (T, T) -> bool)
    requires Pairwise(s, R)
    requires forall y :: y in s ==> R(x, y) && R(y, x)
    ensures Pairwise(Insert(x, s, le), R)
  {
    if s == [] || le(x, s[0]) {
      PairwiseCons(x, s, R);
    } else {
      PairwiseTail(s, R);
      InsertPairwise(x, s[1..], le, R);
      var t := Insert(x, s[1..], le);
      forall y | y in t ensures R(s[0], y) {
        assert y in multiset(t);
      }
      PairwiseCons(s[0], t, R);
    }
  }

  /** Sorting keeps every symmetric pairwise relation of its input. */
  lemma {:induction false} SortByPairwise<T>(s: seq<T>, le: (T, T) -> bool, R: (T, T) -> bool)
    requires Pairwise(s, R)
    requires forall a, b :: R(a, b) ==> R(b, a)
    ensures Pairwise(SortBy(s, le), R)
  {
    if s != [] {
      PairwiseTail(s, R);
      SortByPairwise(s[1..], le, R);
      forall y | y in SortBy(s[1..], le) ensures R(s[0], y) && R(y, s[0]) {
        assert y in multiset(SortBy(s[1..], le));
      }
      InsertPairwise(s[0], SortBy(s[1..], le), le, R);
    }
  }
}
