/**
 * A stable insertion sort by a rank key, independent of what is being
 * ranked. A rank is a luxury flag and a star count; a rank goes first when it
 * is luxury and the other is not, or when both are in the same tier and it
 * has more stars.
 */
module StableSort {
  import opened Sequences

  datatype Rank = Rank(luxury: bool, stars: int)

  /** Rank a goes strictly before rank b. */
  predicate Ahead(a: Rank, b: Rank)
  {
    (a.luxury && !b.luxury) || (a.luxury == b.luxury && a.stars > b.stars)
  }

  /** Ranks form a strict weak order in which incomparable ranks are equal. */
  lemma AheadIsStrictOrder(a: Rank, b: Rank, c: Rank)
    ensures !Ahead(a, a)
    ensures Ahead(a, b) ==> !Ahead(b, a)
    ensures Ahead(a, b) && Ahead(b, c) ==> Ahead(a, c)
    ensures !Ahead(a, b) && !Ahead(b, a) <==> a == b
  {
  }

  /** The key is defined on every element of s. */
  ghost predicate Keyed<T>(key: T --> Rank, s: seq<T>)
  {
    forall x :: x in s ==> key.requires(x)
  }

  /** No element ranks ahead of an earlier one. */
  predicate Sorted<T>(key: T --> Rank, s: seq<T>)
    requires Keyed(key, s)
  {
    forall i, j :: 0 <= i < j < |s| ==> !Ahead(key(s[j]), key(s[i]))
  }

  lemma SortedTail<T>(key: T --> Rank, s: seq<T>)
    requires Keyed(key, s) && Sorted(key, s) && |s| > 0
    ensures Keyed(key, s[1..]) && Sorted(key, s[1..])
  {
    assert forall i :: 0 <= i < |s[1..]| ==> s[1..][i] == s[i + 1];
  }

  /** Puts x in front of the first element it does not rank behind. */
  function Insert<T>(key: T --> Rank, x: T, s: seq<T>): (r: seq<T>)
    requires key.requires(x) && Keyed(key, s)
    ensures |r| == |s| + 1
    ensures multiset(r) == multiset(s) + multiset{x}
    ensures Keyed(key, r)
    ensures Sorted(key, s) ==> Sorted(key, r)
    decreases |s|
  {
    if |s| == 0 then [x]
    else if !Ahead(key(s[0]), key(x)) then
      InsertAtFront(key, x, s);
      [x] + s
    else
      var t := Insert(key, x, s[1..]);
      InsertBehind(key, x, s, t);
      [s[0]] + t
  }

  lemma InsertAtFront<T>(key: T --> Rank, x: T, s: seq<T>)
    requires key.requires(x) && Keyed(key, s) && |s| > 0
    requires !Ahead(key(s[0]), key(x))
    ensures multiset([x] + s) == multiset(s) + multiset{x}
    ensures Keyed(key, [x] + s)
    ensures Sorted(key, s) ==> Sorted(key, [x] + s)
  {
    var r := [x] + s;
    assert forall i :: 0 < i < |r| ==> r[i] == s[i - 1];
    if Sorted(key, s) {
      forall i, j | 0 <= i < j < |r|
        ensures !Ahead(key(r[j]), key(r[i]))
      {
        if i == 0 && j > 1 {
          assert !Ahead(key(s[j - 1]), key(s[0]));
          AheadIsStrictOrder(key(s[j - 1]), key(s[0]), key(x));
        }
      }
    }
  }

  lemma InsertBehind<T>(key: T --> Rank, x: T, s: seq<T>, t: seq<T>)
    requires key.requires(x) && Keyed(key, s) && |s| > 0
    requires Ahead(key(s[0]), key(x))
    requires Keyed(key, t) && multiset(t) == multiset(s[1..]) + multiset{x}
    requires Sorted(key, s[1..]) ==> Sorted(key, t)
    ensures multiset([s[0]] + t) == multiset(s) + multiset{x}
    ensures Keyed(key, [s[0]] + t)
    ensures Sorted(key, s) ==> Sorted(key, [s[0]] + t)
  {
    var r := [s[0]] + t;
    assert s == [s[0]] + s[1..];
    assert forall i :: 0 < i < |r| ==> r[i] == t[i - 1];
    if Sorted(key, s) {
      SortedTail(key, s);
      forall i, j | 0 <= i < j < |r|
        ensures !Ahead(key(r[j]), key(r[i]))
      {
        if i == 0 {
          var y := t[j - 1];
          assert y in multiset(t);
          if y == x {
            AheadIsStrictOrder(key(s[0]), key(x), key(x));
          } else {
            assert y in multiset(s[1..]);
            var k :| 0 <= k < |s[1..]| && s[1..][k] == y;
            assert !Ahead(key(s[k + 1]), key(s[0]));
          }
        }
      }
    }
  }

  /** Insertion sort: a sorted permutation of xs. */
  function InsertionSort<T>(key: T --> Rank, xs: seq<T>): (r: seq<T>)
    requires Keyed(key, xs)
    ensures |r| == |xs|
    ensures multiset(r) == multiset(xs)
    ensures Keyed(key, r)
    ensures Sorted(key, r)
    decreases |xs|
  {
    if |xs| == 0 then []
    else
      assert xs == [xs[0]] + xs[1..];
      Insert(key, xs[0], InsertionSort(key, xs[1..]))
  }

  /** The elements of s whose rank is k, in the order of s. */
  function WithRank<T>(key: T --> Rank, s: seq<T>, k: Rank): seq<T>
    requires Keyed(key, s)
    decreases |s|
  {
    if |s| == 0 then []
    else (if key(s[0]) == k then [s[0]] else []) + WithRank(key, s[1..], k)
  }

  lemma {:induction false} WithRankMembers<T>(key: T --> Rank, s: seq<T>, k: Rank)
    requires Keyed(key, s)
    ensures forall y :: y in WithRank(key, s, k) ==> y in s && key.requires(y) && key(y) == k
    decreases |s|
  {
    if |s| > 0 {
      WithRankMembers(key, s[1..], k);
    }
  }

  lemma WithRankOfHead<T>(key: T --> Rank, s: seq<T>)
    requires Keyed(key, s) && |s| > 0
    ensures WithRank(key, s, key(s[0])) != []
  {
  }

  /** The rank class of a sequence with a known head. */
  lemma WithRankCons<T>(key: T --> Rank, y: T, t: seq<T>, k: Rank)
    requires key.requires(y) && Keyed(key, t)
    ensures Keyed(key, [y] + t)
    ensures WithRank(key, [y] + t, k) == (if key(y) == k then [y] else []) + WithRank(key, t, k)
  {
    assert ([y] + t)[1..] == t;
  }

  /** Inserting x touches only the rank class of x, and puts x at its head. */
  lemma {:induction false} WithRankInsert<T>(key: T --> Rank, x: T, s: seq<T>, k: Rank)
    requires key.requires(x) && Keyed(key, s)
    ensures WithRank(key, Insert(key, x, s), k) == (if key(x) == k then [x] else []) + WithRank(key, s, k)
    decreases |s|
  {
    if |s| > 0 && Ahead(key(s[0]), key(x)) {
      InsertBehindHead(key, x, s);
      WithRankInsert(key, x, s[1..], k);
      AheadIsStrictOrder(key(s[0]), key(x), key(x));
      assert s == [s[0]] + s[1..];
      WithRankBehindHead(key, s[0], x, Insert(key, x, s[1..]), s[1..], k);
    } else {
      assert Insert(key, x, s) == [x] + s;
      WithRankCons(key, x, s, k);
    }
  }

  /** Insert keeps a head that ranks ahead of x, and inserts behind it. */
  lemma InsertBehindHead<T>(key: T --> Rank, x: T, s: seq<T>)
    requires key.requires(x) && Keyed(key, s) && |s| > 0 && Ahead(key(s[0]), key(x))
    ensures Keyed(key, s[1..])
    ensures Insert(key, x, s) == [s[0]] + Insert(key, x, s[1..])
  {
    assert forall y :: y in s[1..] ==> y in s;
  }

  /**
   * The step of WithRankInsert where x goes behind a head y of another rank:
   * if x joined the rank class of u to give t, it joins that of [y] + u to
   * give [y] + t.
   */
  lemma WithRankBehindHead<T>(key: T --> Rank, y: T, x: T, t: seq<T>, u: seq<T>, k: Rank)
    requires key.requires(x) && key.requires(y) && key(y) != key(x) && Keyed(key, t) && Keyed(key, u)
    requires WithRank(key, t, k) == (if key(x) == k then [x] else []) + WithRank(key, u, k)
    ensures WithRank(key, [y] + t, k) == (if key(x) == k then [x] else []) + WithRank(key, [y] + u, k)
  {
    WithRankCons(key, y, t, k);
    WithRankCons(key, y, u, k);
  }

  /** The sort is stable: every rank class keeps its input order. */
  lemma {:induction false} InsertionSortIsStable<T>(key: T --> Rank, xs: seq<T>, k: Rank)
    requires Keyed(key, xs)
    ensures WithRank(key, InsertionSort(key, xs), k) == WithRank(key, xs, k)
    decreases |xs|
  {
    if |xs| > 0 {
      InsertionSortIsStable(key, xs[1..], k);
      WithRankInsert(key, xs[0], InsertionSort(key, xs[1..]), k);
    }
  }

  lemma InsertionSortIsStableForAll<T>(key: T --> Rank, xs: seq<T>)
    requires Keyed(key, xs)
    ensures forall k :: WithRank(key, InsertionSort(key, xs), k) == WithRank(key, xs, k)
  {
    forall k
      ensures WithRank(key, InsertionSort(key, xs), k) == WithRank(key, xs, k)
    {
      InsertionSortIsStable(key, xs, k);
    }
  }

  /** Two sorted sequences that agree on every rank class are equal. */
  lemma {:induction false} SortedByRankClasses<T>(key: T --> Rank, a: seq<T>, b: seq<T>)
    requires Keyed(key, a) && Keyed(key, b) && Sorted(key, a) && Sorted(key, b)
    requires forall k :: WithRank(key, a, k) == WithRank(key, b, k)
    ensures a == b
    decreases |a|
  {
    if |a| == 0 && |b| == 0 {
    } else if |a| == 0 {
      WithRankOfHead(key, b);
      assert false;
    } else if |b| == 0 {
      WithRankOfHead(key, a);
      assert false;
    } else {
      var ka, kb := key(a[0]), key(b[0]);
      WithRankMembers(key, a, kb);
      WithRankMembers(key, b, ka);
      assert b[0] in WithRank(key, b, kb);
      var j :| 0 <= j < |a| && a[j] == b[0];
      if j > 0 {
        assert !Ahead(key(a[j]), key(a[0]));
      }
      assert a[0] in WithRank(key, a, ka);
      var i :| 0 <= i < |b| && b[i] == a[0];
      if i > 0 {
        assert !Ahead(key(b[i]), key(b[0]));
      }
      AheadIsStrictOrder(ka, kb, ka);
      assert WithRank(key, a, ka) == [a[0]] + WithRank(key, a[1..], ka);
      assert WithRank(key, b, ka) == [b[0]] + WithRank(key, b[1..], ka);
      assert a[0] == WithRank(key, a, ka)[0] == WithRank(key, b, ka)[0] == b[0];
      SortedTail(key, a);
      SortedTail(key, b);
      forall k
        ensures WithRank(key, a[1..], k) == WithRank(key, b[1..], k)
      {
        var head := if ka == k then [a[0]] else [];
        assert WithRank(key, a, k) == head + WithRank(key, a[1..], k);
        assert WithRank(key, b, k) == head + WithRank(key, b[1..], k);
        assert WithRank(key, a, k) == WithRank(key, b, k);
        assert WithRank(key, a[1..], k) == WithRank(key, a, k)[|head|..];
        assert WithRank(key, b[1..], k) == WithRank(key, b, k)[|head|..];
      }
      SortedByRankClasses(key, a[1..], b[1..]);
      assert a == [a[0]] + a[1..];
      assert b == [b[0]] + b[1..];
    }
  }

  /**
   * Every stable sort returns what insertion sort returns: a sorted result
   * that keeps each rank class in input order is unique.
   */
  lemma StableSortIsInsertionSort<T>(key: T --> Rank, xs: seq<T>, r: seq<T>)
    requires Keyed(key, xs) && Keyed(key, r) && Sorted(key, r)
    requires forall k :: WithRank(key, r, k) == WithRank(key, xs, k)
    ensures r == InsertionSort(key, xs)
  {
    forall k
      ensures WithRank(key, r, k) == WithRank(key, InsertionSort(key, xs), k)
    {
      InsertionSortIsStable(key, xs, k);
    }
    SortedByRankClasses(key, r, InsertionSort(key, xs));
  }

  /** Filtering a sorted sequence leaves it sorted. */
  lemma {:induction false} FilterKeepsSorted<T>(key: T --> Rank, p: T --> bool, s: seq<T>)
    requires Keyed(key, s) && DefinedOn(p, s) && Sorted(key, s)
    ensures Keyed(key, Filter(p, s)) && Sorted(key, Filter(p, s))
    decreases |s|
  {
    if |s| > 0 {
      SortedTail(key, s);
      assert forall y :: y in s[1..] ==> y in s;
      FilterKeepsSorted(key, p, s[1..]);
      var t := Filter(p, s[1..]);
      if p(s[0]) {
        var r := [s[0]] + t;
        assert Filter(p, s) == r;
        assert forall i :: 0 < i < |r| ==> r[i] == t[i - 1];
        forall i, j | 0 <= i < j < |r|
          ensures !Ahead(key(r[j]), key(r[i]))
        {
          if i == 0 {
            assert r[j] in t;
            assert r[j] in s[1..];
            var k :| 0 <= k < |s[1..]| && s[1..][k] == r[j];
            assert s[k + 1] == r[j];
          }
        }
      } else {
        assert Filter(p, s) == t;
      }
    }
  }

  /** Filtering commutes with taking a rank class. */
  lemma {:induction false} FilterWithRank<T>(key: T --> Rank, p: T --> bool, s: seq<T>, k: Rank)
    requires Keyed(key, s) && DefinedOn(p, s)
    ensures Keyed(key, Filter(p, s)) && DefinedOn(p, WithRank(key, s, k))
    ensures WithRank(key, Filter(p, s), k) == Filter(p, WithRank(key, s, k))
    decreases |s|
  {
    WithRankMembers(key, s, k);
    if |s| > 0 {
      var x := s[0];
      var tail := s[1..];
      assert forall y :: y in tail ==> y in s;
      FilterWithRank(key, p, tail, k);
      var t := Filter(p, tail);
      var w := WithRank(key, tail, k);
      WithRankMembers(key, tail, k);
      var xp := if p(x) then [x] else [];
      var xk := if key(x) == k then [x] else [];
      assert Filter(p, s) == xp + t;
      assert WithRank(key, s, k) == xk + w;
      if p(x) {
        assert (xp + t)[1..] == t;
        assert WithRank(key, xp + t, k) == xk + WithRank(key, t, k);
      } else {
        assert xp + t == t;
      }
      if key(x) == k {
        assert (xk + w)[1..] == w;
        assert Filter(p, xk + w) == xp + Filter(p, w);
      } else {
        assert xk + w == w;
      }
    }
  }

  /**
   * Sorting and filtering commute: filtering the sorted sequence gives the
   * sorted filtered sequence.
   */
  lemma FilterCommutesWithSort<T>(key: T --> Rank, p: T --> bool, xs: seq<T>)
    requires Keyed(key, xs) && DefinedOn(p, xs)
    ensures DefinedOn(p, InsertionSort(key, xs)) && Keyed(key, Filter(p, xs))
    ensures Filter(p, InsertionSort(key, xs)) == InsertionSort(key, Filter(p, xs))
  {
    var s := InsertionSort(key, xs);
    assert forall y :: y in s ==> y in multiset(xs);
    var r := Filter(p, s);
    FilterKeepsSorted(key, p, s);
    forall k
      ensures WithRank(key, r, k) == WithRank(key, Filter(p, xs), k)
    {
      FilterWithRank(key, p, s, k);
      FilterWithRank(key, p, xs, k);
      InsertionSortIsStable(key, xs, k);
    }
    StableSortIsInsertionSort(key, Filter(p, xs), r);
  }
}
