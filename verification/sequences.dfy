/**
 * Order-preserving stream operations on sequences, independent of hotels:
 * Stream.filter, Stream.map and Stream.distinct.
 */
module Sequences {

  /** The predicate is defined on every element of xs. */
  ghost predicate DefinedOn<T>(p: T --> bool, xs: seq<T>)
  {
    forall x :: x in xs ==> p.requires(x)
  }

  /** Stream.filter: the elements of xs that satisfy p, in the order of xs. */
  function Filter<T>(p: T --> bool, xs: seq<T>): (r: seq<T>)
    requires DefinedOn(p, xs)
    ensures |r| <= |xs|
    ensures forall x :: x in r ==> x in xs && p(x)
    decreases |xs|
  {
    if |xs| == 0 then []
    else
      assert xs[0] in xs;
      (if p(xs[0]) then [xs[0]] else []) + Filter(p, xs[1..])
  }

  /** The filter keeps exactly the satisfying elements, each as often as it occurs in xs. */
  lemma {:induction false} FilterKeepsExactly<T>(p: T --> bool, xs: seq<T>)
    requires DefinedOn(p, xs)
    ensures forall x :: x in xs ==> multiset(Filter(p, xs))[x] == if p(x) then multiset(xs)[x] else 0
    ensures forall x :: x in xs ==> (x in Filter(p, xs) <==> p(x))
    decreases |xs|
  {
    if |xs| > 0 {
      FilterKeepsExactly(p, xs[1..]);
      assert xs == [xs[0]] + xs[1..];
      forall x | x in xs
        ensures multiset(Filter(p, xs))[x] == if p(x) then multiset(xs)[x] else 0
      {
        if x !in xs[1..] {
          assert multiset(xs[1..])[x] == 0;
          assert x !in Filter(p, xs[1..]);
        }
      }
    }
  }

  /** The filter keeps relative order: filtering a concatenation concatenates the filtered parts. */
  lemma {:induction false} FilterAppend<T>(p: T --> bool, a: seq<T>, b: seq<T>)
    requires DefinedOn(p, a) && DefinedOn(p, b)
    ensures DefinedOn(p, a + b)
    ensures Filter(p, a + b) == Filter(p, a) + Filter(p, b)
    decreases |a|
  {
    if |a| > 0 {
      FilterAppend(p, a[1..], b);
      assert (a + b)[1..] == a[1..] + b;
      assert (a + b)[0] == a[0];
    } else {
      assert a + b == b;
    }
  }

  /**
   * Filtering by p and then by q is filtering once by any r that means
   * "p and then q"; q need only be defined where p holds.
   */
  lemma {:induction false} FilterFilter<T>(p: T --> bool, q: T --> bool, r: T --> bool, xs: seq<T>)
    requires DefinedOn(p, xs) && DefinedOn(r, xs)
    requires forall x :: x in xs && p(x) ==> q.requires(x)
    requires forall x :: x in xs ==> (r(x) <==> p(x) && q(x))
    ensures DefinedOn(q, Filter(p, xs))
    ensures Filter(q, Filter(p, xs)) == Filter(r, xs)
    decreases |xs|
  {
    if |xs| > 0 {
      var x := xs[0];
      assert x in xs;
      var tail := xs[1..];
      assert forall y :: y in tail ==> y in xs;
      FilterFilter(p, q, r, tail);
      var rest := Filter(p, tail);
      assert Filter(r, xs) == (if r(x) then [x] else []) + Filter(r, tail);
      if p(x) {
        assert Filter(p, xs) == [x] + rest;
        assert ([x] + rest)[1..] == rest;
        assert Filter(q, [x] + rest) == (if q(x) then [x] else []) + Filter(q, rest);
      } else {
        assert Filter(p, xs) == rest;
      }
    }
  }

  /** A filter that every element passes changes nothing. */
  lemma {:induction false} FilterKeepsAll<T>(p: T --> bool, xs: seq<T>)
    requires DefinedOn(p, xs)
    requires forall x :: x in xs ==> p(x)
    ensures Filter(p, xs) == xs
    decreases |xs|
  {
    if |xs| > 0 {
      assert xs[0] in xs;
      assert forall y :: y in xs[1..] ==> y in xs;
      FilterKeepsAll(p, xs[1..]);
    }
  }

  /** r can be obtained from xs by deleting elements, keeping the order of the rest. */
  predicate SubsequenceOf<T(==)>(r: seq<T>, xs: seq<T>)
    decreases |xs|
  {
    if |r| == 0 then true
    else if |xs| == 0 then false
    else if r[0] == xs[0] then SubsequenceOf(r[1..], xs[1..])
    else SubsequenceOf(r, xs[1..])
  }

  /** The filter deletes elements and never reorders the rest. */
  lemma {:induction false} FilterIsSubsequence<T>(p: T --> bool, xs: seq<T>)
    requires DefinedOn(p, xs)
    ensures SubsequenceOf(Filter(p, xs), xs)
    decreases |xs|
  {
    if |xs| > 0 {
      var x := xs[0];
      assert x in xs;
      assert forall y :: y in xs[1..] ==> y in xs;
      FilterIsSubsequence(p, xs[1..]);
      var rest := Filter(p, xs[1..]);
      if p(x) {
        assert Filter(p, xs) == [x] + rest;
        assert ([x] + rest)[1..] == rest;
      } else {
        assert Filter(p, xs) == rest;
        if |rest| > 0 {
          assert rest[0] in rest;
          assert rest[0] != x;
        }
      }
    }
  }

  /** Stream.map. */
  function Map<T, U>(f: T -> U, xs: seq<T>): (r: seq<U>)
    ensures |r| == |xs|
    ensures forall i :: 0 <= i < |xs| ==> r[i] == f(xs[i])
    decreases |xs|
  {
    if |xs| == 0 then [] else [f(xs[0])] + Map(f, xs[1..])
  }

  /** No element occurs twice. */
  predicate NoDuplicates<T(==)>(s: seq<T>)
  {
    forall i, j :: 0 <= i < j < |s| ==> s[i] != s[j]
  }

  /** The position of the first occurrence of x in s. */
  function FirstIndex<T(==)>(s: seq<T>, x: T): (i: nat)
    requires x in s
    ensures i < |s| && s[i] == x
    ensures forall j :: 0 <= j < i ==> s[j] != x
  {
    if s[0] == x then 0 else 1 + FirstIndex(s[1..], x)
  }

  /** Stream.distinct: the first occurrence of every element, in order of first occurrence. */
  function Distinct<T(==)>(s: seq<T>): (r: seq<T>)
    ensures NoDuplicates(r)
    ensures forall i :: 0 <= i < |r| ==> r[i] in s
    ensures forall i :: 0 <= i < |s| ==> s[i] in r
    decreases |s|
  {
    if |s| == 0 then []
    else
      var r := Distinct(s[..|s| - 1]);
      if s[|s| - 1] in r then r else r + [s[|s| - 1]]
  }

  /** Dropping a head that is neither x nor y keeps their order of first occurrence. */
  lemma FirstIndexPastHead<T>(s: seq<T>, x: T, y: T)
    requires |s| > 0 && x in s[1..] && y in s[1..] && s[0] != x && s[0] != y
    ensures x in s && y in s
    ensures FirstIndex(s, x) < FirstIndex(s, y) <==> FirstIndex(s[1..], x) < FirstIndex(s[1..], y)
  {
    assert s == [s[0]] + s[1..];
  }

  /** distinct keeps every element and adds none. */
  lemma DistinctHasSameElements<T>(s: seq<T>)
    ensures forall x :: x in Distinct(s) <==> x in s
  {
    var r := Distinct(s);
    forall x | x in r
      ensures x in s
    {
      var i :| 0 <= i < |r| && r[i] == x;
    }
    forall x | x in s
      ensures x in r
    {
      var j :| 0 <= j < |s| && s[j] == x;
    }
  }

  lemma FirstIndexOfPrefix<T>(s: seq<T>, n: nat, x: T)
    requires n <= |s| && x in s[..n]
    ensures x in s && FirstIndex(s, x) == FirstIndex(s[..n], x)
  {
    var i := FirstIndex(s[..n], x);
    assert s[i] == x;
    var j := FirstIndex(s, x);
    assert j <= i;
    assert s[..n][j] == s[j];
  }

  /** distinct lists the elements in the order in which they first occur. */
  lemma {:induction false} DistinctKeepsFirstOccurrenceOrder<T>(s: seq<T>)
    ensures forall i, j :: 0 <= i < j < |Distinct(s)| ==>
              Distinct(s)[i] in s && Distinct(s)[j] in s &&
              FirstIndex(s, Distinct(s)[i]) < FirstIndex(s, Distinct(s)[j])
    decreases |s|
  {
    if |s| > 0 {
      var init := s[..|s| - 1];
      var last := s[|s| - 1];
      var d := Distinct(init);
      DistinctKeepsFirstOccurrenceOrder(init);
      var r := Distinct(s);
      assert r == (if last in d then d else d + [last]);
      forall i, j | 0 <= i < j < |r|
        ensures r[i] in s && r[j] in s && FirstIndex(s, r[i]) < FirstIndex(s, r[j])
      {
        assert r[i] == d[i] && r[i] in d;
        FirstIndexOfPrefix(s, |s| - 1, r[i]);
        if j < |d| {
          assert r[j] == d[j];
          FirstIndexOfPrefix(s, |s| - 1, r[j]);
        } else {
          assert r[j] == last && last !in init;
          assert FirstIndex(s, last) == |s| - 1;
        }
      }
    } else {
      assert Distinct(s) == [];
    }
  }
}
