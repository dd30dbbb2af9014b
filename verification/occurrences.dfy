/** Ranking the values of a signal by how often they were recorded
    (`N_common_occurrences`). */
module Occurrences {
  import opened Ranking
  import opened Series

  /** Number of samples that recorded v. */
  function Count(values: seq<real>, v: real): nat {
    multiset(values)[v]
  }

  /** Count as a weight for ranking. */
  function Counts(values: seq<real>): real -> int {
    v => Count(values, v)
  }

  /** `collections.Counter(values).most_common()`: each distinct value with
      its count, most frequent first. */
  function MostCommon(values: seq<real>): seq<Tally> {
    SortByKey(TalliesBy(values, Counts(values)), Weight)
  }

  /** The N most common values (`most_common(N)`, none for N <= 0), or
      with `ascending` the tail `most_common()[-N:]` of the full ranking. */
  function NCommonOccurrences(values: seq<real>, n: int, ascending: bool): seq<real> {
    var ranked := ValuesOf(MostCommon(values));
    if ascending then TakeLast(ranked, n)
    else if n <= 0 then []
    else Take(ranked, n)
  }

  /** The full ranking lists every distinct value exactly once, by
      non-increasing count, equal counts in order of first appearance. */
  lemma RankingOfOccurrences(values: seq<real>)
    ensures var rv := ValuesOf(MostCommon(values));
      && |rv| == |Distinct(values)|
      && (forall v :: v in rv <==> v in values)
      && NoDuplicates(rv)
      && (forall i, j :: 0 <= i < j < |rv| ==> Count(values, rv[i]) >= Count(values, rv[j]))
      && (forall i, j :: 0 <= i < j < |rv| && Count(values, rv[i]) == Count(values, rv[j]) ==>
            FirstIndex(values, rv[i]) < FirstIndex(values, rv[j]))
  {
    RankByIsRanking(values, Counts(values));
  }

  /** The N most common values: min(N, d) of the d distinct values, the
      first of the full ranking, by non-increasing count, none left out
      counted more often than one returned; all of them when N reaches d. */
  lemma MostCommonN(values: seq<real>, n: int)
    requires n >= 1
    ensures var r := NCommonOccurrences(values, n, false);
      && |r| == Min(n, |Distinct(values)|)
      && r <= ValuesOf(MostCommon(values))
      && HeaviestOf(values, r, Counts(values))
      && (n >= |Distinct(values)| ==> forall v :: v in values ==> v in r)
  {
    assert ValuesOf(MostCommon(values)) == RankBy(values, Counts(values));
    RankByTop(values, Counts(values), n);
  }

  /** The N least common values: the last min(N, d) of the full ranking,
      still by non-increasing count, none left out counted less often than
      one returned; all of them when N reaches d. */
  lemma LeastCommonN(values: seq<real>, n: int)
    requires n >= 1
    ensures var r := NCommonOccurrences(values, n, true);
      && |r| == Min(n, |Distinct(values)|)
      && IsSuffix(r, ValuesOf(MostCommon(values)))
      && LightestOf(values, r, Counts(values))
      && (n >= |Distinct(values)| ==> forall v :: v in values ==> v in r)
  {
    assert ValuesOf(MostCommon(values)) == RankBy(values, Counts(values));
    RankByBottom(values, Counts(values), n);
  }

  /** A count of zero or less: `most_common(N)` returns nothing, while the
      tail slice `[-0:]` is the whole ranking and `[-N:]` for negative N the
      ranking without its first -N values. */
  lemma NonPositiveCount(values: seq<real>, n: int)
    requires n <= 0
    ensures NCommonOccurrences(values, n, false) == []
    ensures var rv := ValuesOf(MostCommon(values)); var r := NCommonOccurrences(values, n, true);
      && |rv| == |Distinct(values)|
      && (n == 0 ==> r == rv)
      && (n < 0 ==> r == rv[Min(-n, |rv|)..])
  {
    var rv := ValuesOf(MostCommon(values));
    assert rv == RankBy(values, Counts(values));
    RankByIsRanking(values, Counts(values));
  }
}
