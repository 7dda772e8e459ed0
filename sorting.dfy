/** A stable sort by an integer key. It is the model of the two library sorts the
    source calls: Python's `sorted(xs, key=..., reverse=True)` and JavaScript's
    `Array.prototype.sort` with a numeric comparator (stable since ES2019). A
    descending sort is the stable ascending sort on the negated key, which is exactly
    how Python defines `reverse=True` (equal keys keep their original order).
    The insertion-sort body is only a definition; what the model relies on is what
    both libraries guarantee: the lemmas SortSorted, SortPermutes and SortStable. */
module Sorting {
  import opened Seqs

  predicate SortedBy<T>(xs: seq<T>, key: T -> int) {
    forall i, j :: 0 <= i < j < |xs| ==> key(xs[i]) <= key(xs[j])
  }

  /** No two elements share a value of `g`. */
  predicate DistinctBy<T, U(==)>(xs: seq<T>, g: T -> U) {
    forall i, j :: 0 <= i < j < |xs| ==> g(xs[i]) != g(xs[j])
  }

  /** Every two elements, taken in order, are related by `R`. */
  predicate PairwiseBy<T>(xs: seq<T>, R: (T, T) -> bool) {
    forall i, j :: 0 <= i < j < |xs| ==> R(xs[i], xs[j])
  }

  /** Puts `x` before the first element whose key is not smaller than its own. */
  function Insert<T>(x: T, ys: seq<T>, key: T -> int): (r: seq<T>)
    ensures multiset(r) == multiset(ys) + multiset{x}
  {
    if ys == [] || key(x) <= key(ys[0]) then [x] + ys
    else
      assert ys == [ys[0]] + ys[1..];
      [ys[0]] + Insert(x, ys[1..], key)
  }

  function Sort<T>(xs: seq<T>, key: T -> int): (r: seq<T>)
    ensures multiset(r) == multiset(xs)
  {
    if xs == [] then []
    else
      assert xs == [xs[0]] + xs[1..];
      Insert(xs[0], Sort(xs[1..], key), key)
  }

  /** Selects the elements whose key is `k`. */
  function HasKey<T>(key: T -> int, k: int): T -> bool {
    z => key(z) == k
  }

  /** A head no larger than anything after it extends a sorted sequence. */
  lemma ConsSorted<T>(h: T, rest: seq<T>, key: T -> int)
    requires SortedBy(rest, key)
    requires forall z :: z in rest ==> key(h) <= key(z)
    ensures SortedBy([h] + rest, key)
  {
    var r := [h] + rest;
    forall i, j | 0 <= i < j < |r|
      ensures key(r[i]) <= key(r[j])
    {
      assert r[j] == rest[j - 1] && r[j] in rest;
      if i > 0 {
        assert r[i] == rest[i - 1];
      }
    }
  }

  lemma {:induction false} InsertSorted<T>(x: T, ys: seq<T>, key: T -> int)
    requires SortedBy(ys, key)
    ensures SortedBy(Insert(x, ys, key), key)
  {
    if ys == [] || key(x) <= key(ys[0]) {
      forall z | z in ys
        ensures key(x) <= key(z)
      {
        var m :| 0 <= m < |ys| && ys[m] == z;
      }
      ConsSorted(x, ys, key);
    } else {
      var tail := ys[1..];
      assert SortedBy(tail, key) by {
        forall i, j | 0 <= i < j < |tail|
          ensures key(tail[i]) <= key(tail[j])
        {
          assert tail[i] == ys[i + 1] && tail[j] == ys[j + 1];
        }
      }
      InsertSorted(x, tail, key);
      var rest := Insert(x, tail, key);
      forall z | z in rest
        ensures key(ys[0]) <= key(z)
      {
        assert z in multiset(rest);
        if z != x {
          assert z in multiset(tail);
          var m :| 0 <= m < |tail| && tail[m] == z;
          assert ys[m + 1] == z;
        }
      }
      ConsSorted(ys[0], rest, key);
    }
  }

  lemma {:induction false} SortSorted<T>(xs: seq<T>, key: T -> int)
    ensures SortedBy(Sort(xs, key), key)
  {
    if xs != [] {
      SortSorted(xs[1..], key);
      InsertSorted(xs[0], Sort(xs[1..], key), key);
    }
  }

  lemma SortPermutes<T>(xs: seq<T>, key: T -> int, x: T)
    ensures multiset(Sort(xs, key)) == multiset(xs)
    ensures x in Sort(xs, key) <==> x in xs
  {
    assert x in Sort(xs, key) <==> x in multiset(Sort(xs, key));
  }

  lemma {:induction false} InsertStable<T>(x: T, ys: seq<T>, key: T -> int, k: int)
    ensures Filter(Insert(x, ys, key), HasKey(key, k))
         == (if key(x) == k then [x] else []) + Filter(ys, HasKey(key, k))
  {
    var p := HasKey(key, k);
    if ys == [] || key(x) <= key(ys[0]) {
      assert ([x] + ys)[1..] == ys;
    } else {
      InsertStable(x, ys[1..], key, k);
      assert ([ys[0]] + Insert(x, ys[1..], key))[1..] == Insert(x, ys[1..], key);
    }
  }

  /** Elements with equal keys leave the sort in the order they entered it. */
  lemma {:induction false} SortStable<T>(xs: seq<T>, key: T -> int, k: int)
    ensures Filter(Sort(xs, key), HasKey(key, k)) == Filter(xs, HasKey(key, k))
  {
    if xs != [] {
      SortStable(xs[1..], key, k);
      InsertStable(xs[0], Sort(xs[1..], key), key, k);
    }
  }

  /** Sorting what is already sorted changes nothing. */
  lemma {:induction false} SortOfSorted<T>(xs: seq<T>, key: T -> int)
    requires SortedBy(xs, key)
    ensures Sort(xs, key) == xs
  {
    if xs != [] {
      SortOfSorted(xs[1..], key);
      assert [xs[0]] + xs[1..] == xs;
    }
  }

  lemma {:induction false} InsertPairwise<T>(x: T, ys: seq<T>, key: T -> int, R: (T, T) -> bool)
    requires PairwiseBy(ys, R)
    requires forall y :: y in ys ==> R(x, y) && R(y, x)
    ensures PairwiseBy(Insert(x, ys, key), R)
  {
    if ys == [] || key(x) <= key(ys[0]) {
      var r := [x] + ys;
      forall i, j | 0 <= i < j < |r|
        ensures R(r[i], r[j])
      {
        if i == 0 {
          assert r[j] == ys[j - 1];
        } else {
          assert r[i] == ys[i - 1] && r[j] == ys[j - 1];
        }
      }
    } else {
      var tail := ys[1..];
      assert forall y :: y in tail ==> y in ys;
      assert PairwiseBy(tail, R) by {
        forall i, j | 0 <= i < j < |tail|
          ensures R(tail[i], tail[j])
        {
          assert tail[i] == ys[i + 1] && tail[j] == ys[j + 1];
        }
      }
      InsertPairwise(x, tail, key, R);
      var rest := Insert(x, tail, key);
      var r := [ys[0]] + rest;
      forall i, j | 0 <= i < j < |r|
        ensures R(r[i], r[j])
      {
        if i == 0 {
          var z := rest[j - 1];
          assert z in multiset(rest);
          if z != x {
            assert z in multiset(tail);
            var m :| 0 <= m < |tail| && tail[m] == z;
            assert ys[m + 1] == z;
          }
        } else {
          assert r[i] == rest[i - 1] && r[j] == rest[j - 1];
        }
      }
    }
  }

  /** Sorting keeps every two elements related by a symmetric relation `R`. */
  lemma {:induction false} SortPairwise<T>(xs: seq<T>, key: T -> int, R: (T, T) -> bool)
    requires PairwiseBy(xs, R)
    requires forall a, b :: R(a, b) ==> R(b, a)
    ensures PairwiseBy(Sort(xs, key), R)
  {
    if xs != [] {
      var tail := xs[1..];
      assert PairwiseBy(tail, R) by {
        forall i, j | 0 <= i < j < |tail|
          ensures R(tail[i], tail[j])
        {
          assert tail[i] == xs[i + 1] && tail[j] == xs[j + 1];
        }
      }
      SortPairwise(tail, key, R);
      var sorted := Sort(tail, key);
      forall y | y in sorted
        ensures R(xs[0], y) && R(y, xs[0])
      {
        SortPermutes(tail, key, y);
        var m :| 0 <= m < |tail| && tail[m] == y;
        assert xs[m + 1] == y;
      }
      InsertPairwise(xs[0], sorted, key, R);
    }
  }

  /** Sorting keeps a sequence free of duplicate `g` values. */
  lemma SortDistinct<T, U>(xs: seq<T>, key: T -> int, g: T -> U)
    requires DistinctBy(xs, g)
    ensures DistinctBy(Sort(xs, key), g)
  {
    var differ := (a: T, b: T) => g(a) != g(b);
    assert PairwiseBy(xs, differ);
    SortPairwise(xs, key, differ);
    var r := Sort(xs, key);
    assert forall i, j :: 0 <= i < j < |r| ==> differ(r[i], r[j]);
  }
}
