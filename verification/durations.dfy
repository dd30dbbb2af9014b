/** Ranking the values of a signal by the total time the signal held them
    (`N_common_duration`). */
module Durations {
  import opened Wrappers
  import opened Ranking
  import opened Series

  /** The `time_elapsed` column, `timestamp_utc.diff().shift(-1)`: the time
      until the next sample; the last sample has none (NaT). */
  function Elapsed(s: seq<Sample>): (e: seq<Option<int>>)
    ensures |e| == |s|
  {
    seq(|s|, i requires 0 <= i < |s| =>
      if i + 1 < |s| then Some(s[i + 1].timestamp - s[i].timestamp) else None)
  }

  /** The group sum of `elapsed` over the rows recording v; missing cells
      are skipped, so a group of missing cells sums to 0. */
  function TotalTime(values: seq<real>, elapsed: seq<Option<int>>, v: real): int
    requires |values| == |elapsed|
  {
    if values == [] then 0
    else
      var n := |values| - 1;
      TotalTime(values[..n], elapsed[..n], v)
        + (if values[n] == v && elapsed[n].Some? then elapsed[n].value else 0)
  }

  /** Total time the signal s held the value v. */
  function Total(s: seq<Sample>, v: real): int {
    TotalTime(Values(s), Elapsed(s), v)
  }

  /** Total time as a weight for ranking. */
  function Totals(s: seq<Sample>): real -> int {
    v => Total(s, v)
  }

  /** `groupby('sig_value', sort=False).sum()`: each distinct value with its
      total time, in order of first appearance. */
  function TimeByValue(s: seq<Sample>): seq<Tally> {
    TalliesBy(Values(s), Totals(s))
  }

  /** The distinct values, longest total time first
      (`sort_values(by="time_elapsed", ascending=False)`). */
  function RankedByDuration(s: seq<Sample>): seq<real> {
    RankBy(Values(s), Totals(s))
  }

  /** `index[0:N]`, the N values held longest, or with `ascending`
      `index[-N:]`, the last N of that ranking. */
  function NCommonDuration(s: seq<Sample>, n: int, ascending: bool): seq<real> {
    var ranked := RankedByDuration(s);
    if ascending then TakeLast(ranked, n) else Take(ranked, n)
  }

  function SumWeights(ts: seq<Tally>): int {
    if ts == [] then 0 else SumWeights(ts[..|ts| - 1]) + ts[|ts| - 1].weight
  }

  /** Sum of the elapsed times that are present. */
  function SumPresent(e: seq<Option<int>>): int {
    if e == [] then 0
    else SumPresent(e[..|e| - 1]) + (if e[|e| - 1].Some? then e[|e| - 1].value else 0)
  }

  /** The groups for the given keys, weighted by total time. */
  function GroupTotals(keys: seq<real>, values: seq<real>, elapsed: seq<Option<int>>): seq<Tally>
    requires |values| == |elapsed|
  {
    seq(|keys|, i requires 0 <= i < |keys| => Tally(keys[i], TotalTime(values, elapsed, keys[i])))
  }

  lemma {:induction false} AbsentTotal(values: seq<real>, elapsed: seq<Option<int>>, v: real)
    requires |values| == |elapsed| && v !in values
    ensures TotalTime(values, elapsed, v) == 0
  {
    if values != [] {
      var n := |values| - 1;
      AbsentTotal(values[..n], elapsed[..n], v);
    }
  }

  lemma GroupTotalsSnoc(keys: seq<real>, x: real, values: seq<real>, elapsed: seq<Option<int>>)
    requires |values| == |elapsed|
    ensures SumWeights(GroupTotals(keys + [x], values, elapsed))
         == SumWeights(GroupTotals(keys, values, elapsed)) + TotalTime(values, elapsed, x)
  {
    var g := GroupTotals(keys + [x], values, elapsed);
    assert g[..|g| - 1] == GroupTotals(keys, values, elapsed);
  }

  /** Adding one row to the table adds its elapsed time to exactly one of
      the (distinct) keys' groups, if its value is among them. */
  lemma {:induction false} GroupTotalsLastRow(keys: seq<real>, values: seq<real>, elapsed: seq<Option<int>>)
    requires |values| == |elapsed| > 0 && NoDuplicates(keys)
    ensures var n := |values| - 1;
      SumWeights(GroupTotals(keys, values, elapsed))
        == SumWeights(GroupTotals(keys, values[..n], elapsed[..n]))
           + (if values[n] in keys && elapsed[n].Some? then elapsed[n].value else 0)
  {
    var n := |values| - 1;
    if keys != [] {
      var k := |keys| - 1;
      var ks := keys[..k];
      assert keys == ks + [keys[k]];
      GroupTotalsLastRow(ks, values, elapsed);
      GroupTotalsSnoc(ks, keys[k], values, elapsed);
      GroupTotalsSnoc(ks, keys[k], values[..n], elapsed[..n]);
    }
  }

  /** Grouping loses no row: the group totals of the distinct values add up
      to the sum of all elapsed times present. */
  lemma {:induction false} GroupingConserves(values: seq<real>, elapsed: seq<Option<int>>)
    requires |values| == |elapsed|
    ensures SumWeights(GroupTotals(Distinct(values), values, elapsed)) == SumPresent(elapsed)
  {
    if values != [] {
      var n := |values| - 1;
      var p, ep, x := values[..n], elapsed[..n], values[n];
      var d := Distinct(p);
      GroupingConserves(p, ep);
      GroupTotalsLastRow(d, values, elapsed);
      if x !in d {
        GroupTotalsSnoc(d, x, values, elapsed);
        AbsentTotal(p, ep, x);
      }
    }
  }

  lemma {:induction false} ElapsedPrefixSum(s: seq<Sample>, j: nat)
    requires j < |s|
    ensures SumPresent(Elapsed(s)[..j]) == s[j].timestamp - s[0].timestamp
  {
    if j > 0 {
      ElapsedPrefixSum(s, j - 1);
      assert Elapsed(s)[..j][..j - 1] == Elapsed(s)[..j - 1];
    }
  }

  /** Conservation: over all distinct values, the total times add up to the
      span from the first timestamp to the last. */
  lemma TotalsSumToSpan(s: seq<Sample>)
    requires |s| >= 1
    ensures SumWeights(TimeByValue(s)) == s[|s| - 1].timestamp - s[0].timestamp
  {
    var vs, e := Values(s), Elapsed(s);
    assert TimeByValue(s) == GroupTotals(Distinct(vs), vs, e);
    GroupingConserves(vs, e);
    ElapsedPrefixSum(s, |s| - 1);
    assert e[..|e|] == e;
  }

  lemma {:induction false} TotalTimeNonNegative(values: seq<real>, elapsed: seq<Option<int>>, v: real)
    requires |values| == |elapsed|
    requires forall i :: 0 <= i < |elapsed| && elapsed[i].Some? ==> elapsed[i].value >= 0
    ensures TotalTime(values, elapsed, v) >= 0
  {
    if values != [] {
      var n := |values| - 1;
      TotalTimeNonNegative(values[..n], elapsed[..n], v);
    }
  }

  /** With time-ordered samples, no value has a negative total time. */
  lemma TotalsNonNegative(s: seq<Sample>)
    requires TimeOrdered(s)
    ensures forall v :: Total(s, v) >= 0
  {
    forall v ensures Total(s, v) >= 0 {
      TotalTimeNonNegative(Values(s), Elapsed(s), v);
    }
  }

  /** The last sample contributes nothing: a value recorded only by the last
      sample is still a group, with total time 0. */
  lemma LastSampleAddsNothing(s: seq<Sample>)
    requires |s| >= 1 && s[|s| - 1].value !in Values(s)[..|s| - 1]
    ensures Tally(s[|s| - 1].value, 0) in TimeByValue(s)
  {
    var vs, e := Values(s), Elapsed(s);
    var n := |s| - 1;
    AbsentTotal(vs[..n], e[..n], vs[n]);
    assert vs[n] in vs;
    var d := Distinct(vs);
    var k :| 0 <= k < |d| && d[k] == vs[n];
    assert TimeByValue(s)[k] == Tally(vs[n], 0);
  }

  /** The N values held longest: min(N, d) of the d distinct values, the
      first of the ranking, by non-increasing total time, none left out
      held longer than one returned. */
  lemma LongestN(s: seq<Sample>, n: int)
    requires n >= 1
    ensures var r := NCommonDuration(s, n, false);
      && |r| == Min(n, |Distinct(Values(s))|)
      && r <= RankedByDuration(s)
      && HeaviestOf(Values(s), r, Totals(s))
  {
    RankByTop(Values(s), Totals(s), n);
  }

  /** The N values held shortest: the last min(N, d) of the ranking, none
      left out held shorter than one returned. */
  lemma ShortestN(s: seq<Sample>, n: int)
    requires n >= 1
    ensures var r := NCommonDuration(s, n, true);
      && |r| == Min(n, |Distinct(Values(s))|)
      && IsSuffix(r, RankedByDuration(s))
      && LightestOf(Values(s), r, Totals(s))
  {
    RankByBottom(Values(s), Totals(s), n);
  }

  /** A count of zero or less slices the ranking as Python does: `[0:0]` is
      empty and `[-0:]` everything; for negative N, `[0:N]` drops the last
      -N values and `[-N:]` the first -N. */
  lemma NonPositiveDurationCount(s: seq<Sample>, n: int)
    requires n <= 0
    ensures var rv := RankedByDuration(s); var d := |Distinct(Values(s))|;
      && |rv| == d
      && (n == 0 ==> NCommonDuration(s, n, false) == [] && NCommonDuration(s, n, true) == rv)
      && (n < 0 ==> NCommonDuration(s, n, false) == rv[..Max(d + n, 0)])
      && (n < 0 ==> NCommonDuration(s, n, true) == rv[Min(-n, d)..])
  {
    RankByIsRanking(Values(s), Totals(s));
  }
}
