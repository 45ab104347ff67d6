/**
 * The ranking of the "ordered by stars" endpoints: the comparator the
 * controllers inline (luxury first, then more stars first) and Stream.sorted
 * with it, which is a stable sort by the hotel's rank.
 */
module Ranking {
  import opened Wrappers
  import opened JavaInteger
  import opened Hotels
  import opened Category
  import opened StableSort

  /** A hotel whose star count extraerNumero computes without throwing. */
  predicate Rankable(h: Hotel)
  {
    HasFirstPart(h.categories)
  }

  predicate AllRankable(hs: seq<Hotel>)
  {
    forall h :: h in hs ==> Rankable(h)
  }

  predicate IsLuxury(h: Hotel)
  {
    EsGranLujo(h.categories)
  }

  function Stars(h: Hotel): Int32
    requires Rankable(h)
  {
    ExtraerNumero(h.categories)
  }

  /** A luxury category contains "lujo", so it is never made of spaces alone. */
  lemma LuxuryIsRankable(h: Hotel)
    requires IsLuxury(h)
    ensures Rankable(h)
  {
    var s := h.categories.value;
    EsGranLujoIgnoresCase(h.categories);
    var i :| JavaString.OccursAtIgnoringCase(s, LUJO, i);
    assert JavaString.LowerChar(s[i + 0]) == LUJO[0] == 'l';
  }

  /** The rank of a hotel: its luxury flag and its star count. */
  function RankOf(h: Hotel): Rank
    requires Rankable(h)
  {
    Rank(IsLuxury(h), Stars(h))
  }

  /** Integer.compare. */
  function IntegerCompare(x: int, y: int): (r: int)
    ensures -1 <= r <= 1
    ensures r < 0 <==> x < y
    ensures r == 0 <==> x == y
  {
    if x < y then -1 else if x == y then 0 else 1
  }

  /**
   * The pairs the comparator compares without throwing: it reads the star
   * counts only when both hotels are in the same luxury tier.
   */
  predicate Comparable(a: Hotel, b: Hotel)
  {
    IsLuxury(a) == IsLuxury(b) ==> Rankable(a) && Rankable(b)
  }

  /**
   * The comparator of the ranked endpoints: negative when a goes first,
   * positive when b goes first, zero when their ranks are equal.
   */
  function Compare(a: Hotel, b: Hotel): (r: int)
    requires Comparable(a, b)
    ensures -1 <= r <= 1
    ensures IsLuxury(a) != IsLuxury(b) ==> (r < 0 <==> IsLuxury(a))
    ensures Rankable(a) && Rankable(b) ==>
              && (r < 0 <==> Ahead(RankOf(a), RankOf(b)))
              && (r == 0 <==> RankOf(a) == RankOf(b))
              && (r > 0 <==> Ahead(RankOf(b), RankOf(a)))
  {
    var h1EsLujo := IsLuxury(a);
    var h2EsLujo := IsLuxury(b);
    if h1EsLujo && !h2EsLujo then -1
    else if !h1EsLujo && h2EsLujo then 1
    else IntegerCompare(Stars(b), Stars(a))
  }

  /**
   * The comparator meets the contract of java.util.Comparator on rankable
   * hotels (sign antisymmetry, transitivity, consistency on ties), so the
   * sort never rejects it.
   */
  lemma CompareIsComparator(a: Hotel, b: Hotel, c: Hotel)
    requires Rankable(a) && Rankable(b) && Rankable(c)
    ensures Compare(a, b) == -Compare(b, a)
    ensures Compare(a, b) > 0 && Compare(b, c) > 0 ==> Compare(a, c) > 0
    ensures Compare(a, b) == 0 ==> Compare(a, c) == Compare(b, c)
  {
    AheadIsStrictOrder(RankOf(a), RankOf(b), RankOf(c));
    AheadIsStrictOrder(RankOf(b), RankOf(a), RankOf(c));
    AheadIsStrictOrder(RankOf(c), RankOf(b), RankOf(a));
  }

  lemma KeyedIffRankable(s: seq<Hotel>)
    ensures Keyed(RankOf, s) <==> AllRankable(s)
  {
  }

  /**
   * r ranks xs: the same hotels, every luxury hotel before every other one,
   * stars non-increasing within a tier, and the hotels of each rank in the
   * order they have in xs.
   */
  ghost predicate IsRankingOf(r: seq<Hotel>, xs: seq<Hotel>)
    requires AllRankable(r) && AllRankable(xs)
  {
    KeyedIffRankable(r);
    KeyedIffRankable(xs);
    && multiset(r) == multiset(xs)
    && (forall i, j :: 0 <= i < j < |r| && IsLuxury(r[j]) ==> IsLuxury(r[i]))
    && (forall i, j :: 0 <= i < j < |r| && IsLuxury(r[i]) == IsLuxury(r[j]) ==> Stars(r[i]) >= Stars(r[j]))
    && (forall k :: WithRank(RankOf, r, k) == WithRank(RankOf, xs, k))
  }

  /**
   * Stream.sorted with the rank comparator over the repository's list: a
   * ranking of it in which the comparator never finds a pair out of order.
   */
  function Ranked(xs: seq<Hotel>): (r: seq<Hotel>)
    requires AllRankable(xs)
    ensures AllRankable(r)
    ensures IsRankingOf(r, xs)
    ensures forall i, j :: 0 <= i < j < |r| ==> Compare(r[i], r[j]) <= 0
  {
    KeyedIffRankable(xs);
    var r := InsertionSort(RankOf, xs);
    KeyedIffRankable(r);
    InsertionSortIsStableForAll(RankOf, xs);
    r
  }

  /**
   * A list has exactly one ranking: whatever stable sort the stream library
   * uses, its output is the one computed here.
   */
  lemma RankingIsUnique(r: seq<Hotel>, xs: seq<Hotel>)
    requires AllRankable(r) && AllRankable(xs)
    requires IsRankingOf(r, xs)
    ensures r == Ranked(xs)
  {
    KeyedIffRankable(r);
    KeyedIffRankable(xs);
    forall i, j | 0 <= i < j < |r|
      ensures !Ahead(RankOf(r[j]), RankOf(r[i]))
    {
    }
    StableSortIsInsertionSort(RankOf, xs, r);
  }
}
