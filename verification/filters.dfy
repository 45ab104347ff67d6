/**
 * The client-side filters the controllers apply to a repository list with
 * Stream.filter: by star count, by luxury flag and by modality substring.
 */
module Filters {
  import opened Wrappers
  import opened JavaString
  import opened JavaInteger
  import opened Hotels
  import opened Sequences
  import opened StableSort
  import opened Ranking

  /** One `.filter(h -> ...)` predicate of the controllers. */
  datatype Criterion =
    | StarsEqual(n: Int32)          // extraerNumero(h.getCategories()) == n
    | Luxury                        // esGranLujo(h.getCategories())
    | ModalityContains(m: string)   // h.getModalities() != null && h.getModalities().contains(m)

  /** The criterion can be evaluated on h without an exception. */
  predicate Evaluable(c: Criterion, h: Hotel)
  {
    c.StarsEqual? ==> Rankable(h)
  }

  predicate EvaluableOn(c: Criterion, xs: seq<Hotel>)
  {
    forall h :: h in xs ==> Evaluable(c, h)
  }

  predicate Satisfies(h: Hotel, c: Criterion)
    requires Evaluable(c, h)
  {
    match c
    case StarsEqual(n) => Stars(h) == n
    case Luxury => IsLuxury(h)
    case ModalityContains(m) => h.modalities.Some? && Contains(h.modalities.value, m)
  }

  /** The criterion as the lambda handed to Stream.filter. */
  function Test(c: Criterion): (p: Hotel --> bool)
  {
    h requires Evaluable(c, h) => Satisfies(h, c)
  }

  /** Stream.filter with one criterion: the satisfying hotels of xs, in the order of xs. */
  function Select(xs: seq<Hotel>, c: Criterion): (r: seq<Hotel>)
    requires EvaluableOn(c, xs)
    ensures |r| <= |xs|
    ensures forall h :: h in r ==> h in xs && Satisfies(h, c)
  {
    Filter(Test(c), xs)
  }

  /**
   * The criteria of cs can be evaluated on h one after the other, each only
   * when h passed the ones before, as chained Stream.filter calls do.
   */
  predicate EvaluableAll(cs: seq<Criterion>, h: Hotel)
    decreases |cs|
  {
    |cs| == 0 || (Evaluable(cs[0], h) && (Satisfies(h, cs[0]) ==> EvaluableAll(cs[1..], h)))
  }

  predicate EvaluableAllOn(cs: seq<Criterion>, xs: seq<Hotel>)
  {
    forall h :: h in xs ==> EvaluableAll(cs, h)
  }

  /** h passes every criterion of cs. */
  predicate SatisfiesAll(h: Hotel, cs: seq<Criterion>)
    requires EvaluableAll(cs, h)
    decreases |cs|
  {
    |cs| == 0 || (Satisfies(h, cs[0]) && SatisfiesAll(h, cs[1..]))
  }

  /** The conjunction of the criteria of cs as one filter predicate. */
  function TestAll(cs: seq<Criterion>): (p: Hotel --> bool)
  {
    h requires EvaluableAll(cs, h) => SatisfiesAll(h, cs)
  }

  /** `.filter(cs[0]).filter(cs[1])...` over the repository's list. */
  function Chain(xs: seq<Hotel>, cs: seq<Criterion>): (r: seq<Hotel>)
    requires EvaluableAllOn(cs, xs)
    decreases |cs|
  {
    if |cs| == 0 then xs else Chain(Select(xs, cs[0]), cs[1..])
  }

  /**
   * r is what filtering xs by the criteria cs must give: the hotels of xs
   * that pass every criterion, each as often as in xs, in the order of xs.
   */
  predicate IsSelectionOf(r: seq<Hotel>, xs: seq<Hotel>, cs: seq<Criterion>)
    requires EvaluableAllOn(cs, xs)
  {
    && SubsequenceOf(r, xs)
    && (forall h :: h in r ==> h in xs && SatisfiesAll(h, cs))
    && (forall h :: h in xs ==> multiset(r)[h] == if SatisfiesAll(h, cs) then multiset(xs)[h] else 0)
  }

  /** A chain of one criterion asks exactly that criterion. */
  lemma OneCriterion(xs: seq<Hotel>, c: Criterion)
    requires EvaluableOn(c, xs)
    ensures EvaluableAllOn([c], xs)
    ensures forall h :: h in xs ==> (SatisfiesAll(h, [c]) <==> Satisfies(h, c))
  {
    assert [c][1..] == [];
  }

  /** Chaining filters is filtering once by their conjunction. */
  lemma {:induction false} ChainIsOneFilter(xs: seq<Hotel>, cs: seq<Criterion>)
    requires EvaluableAllOn(cs, xs)
    ensures Chain(xs, cs) == Filter(TestAll(cs), xs)
    decreases |cs|
  {
    if |cs| == 0 {
      FilterKeepsAll(TestAll(cs), xs);
    } else {
      var c := cs[0];
      var rest := cs[1..];
      ChainIsOneFilter(Select(xs, c), rest);
      FilterFilter(Test(c), TestAll(rest), TestAll(cs), xs);
    }
  }

  /** Chained filters keep exactly the hotels that pass every criterion, in input order. */
  lemma ChainIsSelection(xs: seq<Hotel>, cs: seq<Criterion>)
    requires EvaluableAllOn(cs, xs)
    ensures IsSelectionOf(Chain(xs, cs), xs, cs)
  {
    ChainIsOneFilter(xs, cs);
    FilterIsSubsequence(TestAll(cs), xs);
    FilterKeepsExactly(TestAll(cs), xs);
  }

  lemma TwoCriteria(a: Criterion, b: Criterion, h: Hotel)
    requires Evaluable(a, h) && (Satisfies(h, a) ==> Evaluable(b, h))
    ensures EvaluableAll([a, b], h)
    ensures SatisfiesAll(h, [a, b]) <==> Satisfies(h, a) && Satisfies(h, b)
  {
    assert [a, b][1..] == [b];
    assert [b][1..] == [];
    if Satisfies(h, a) {
      assert SatisfiesAll(h, [b]) == Satisfies(h, b);
    }
  }

  /** A chain of two criteria asks the second only of the hotels that pass the first. */
  lemma TwoCriteriaOn(xs: seq<Hotel>, a: Criterion, b: Criterion)
    requires forall h :: h in xs ==> Evaluable(a, h) && (Satisfies(h, a) ==> Evaluable(b, h))
    ensures EvaluableAllOn([a, b], xs)
    ensures forall h :: h in xs ==> (SatisfiesAll(h, [a, b]) <==> Satisfies(h, a) && Satisfies(h, b))
  {
    forall h | h in xs
      ensures EvaluableAll([a, b], h)
      ensures SatisfiesAll(h, [a, b]) <==> Satisfies(h, a) && Satisfies(h, b)
    {
      TwoCriteria(a, b, h);
    }
  }

  lemma ChainOfTwo(xs: seq<Hotel>, a: Criterion, b: Criterion)
    requires EvaluableOn(a, xs) && EvaluableOn(b, xs)
    ensures EvaluableAllOn([a, b], xs)
    ensures forall h :: h in xs ==> (SatisfiesAll(h, [a, b]) <==> Satisfies(h, a) && Satisfies(h, b))
    ensures Chain(xs, [a, b]) == Select(Select(xs, a), b)
  {
    TwoCriteriaOn(xs, a, b);
    var s := Select(xs, a);
    assert [a, b][1..] == [b];
    assert [b][1..] == [];
    assert Chain(xs, [a, b]) == Chain(s, [b]);
    assert Chain(s, [b]) == Chain(Select(s, b), []);
  }

  /** The order of two chained filters does not change the result. */
  lemma ChainedSelectCommutes(xs: seq<Hotel>, a: Criterion, b: Criterion)
    requires EvaluableOn(a, xs) && EvaluableOn(b, xs)
    ensures EvaluableAllOn([a, b], xs) && EvaluableAllOn([b, a], xs)
    ensures Chain(xs, [a, b]) == Chain(xs, [b, a])
  {
    ChainOfTwo(xs, a, b);
    ChainOfTwo(xs, b, a);
    FilterFilter(Test(a), Test(b), TestAll([a, b]), xs);
    FilterFilter(Test(b), Test(a), TestAll([a, b]), xs);
  }

  /**
   * Ranking and filtering commute: filtering the ranked list gives the ranked
   * filtered list, so where the sort sits in a pipeline does not matter.
   */
  lemma ChainCommutesWithRanking(xs: seq<Hotel>, cs: seq<Criterion>)
    requires AllRankable(xs) && EvaluableAllOn(cs, xs)
    ensures EvaluableAllOn(cs, Ranked(xs)) && AllRankable(Chain(xs, cs))
    ensures Chain(Ranked(xs), cs) == Ranked(Chain(xs, cs))
  {
    var r := Ranked(xs);
    assert forall h :: h in r ==> h in xs by {
      assert multiset(r) == multiset(xs);
      forall h | h in r
        ensures h in xs
      {
        assert h in multiset(r);
      }
    }
    ChainIsOneFilter(xs, cs);
    ChainIsOneFilter(r, cs);
    KeyedIffRankable(xs);
    KeyedIffRankable(Chain(xs, cs));
    FilterCommutesWithSort(RankOf, TestAll(cs), xs);
  }
}
