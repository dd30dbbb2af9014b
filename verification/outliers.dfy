/** Tukey fencing over a metric x unit table (`identify_outliers`): for each
    requested metric, the units whose value lies strictly outside
    [Q1 - 1.5 IQR, Q3 + 1.5 IQR] of that metric's row, united over the
    metrics. Quartiles follow pandas' default linear interpolation. */
module Outliers {
  import opened Wrappers
  import opened Ranking
  import opened Series

  // ---------------------------------------------------------------------
  // The summary table.

  /** `summary_stats`: one column per unit (named after its file), one row
      per computed metric, holding that metric's value for every unit. */
  datatype SummaryTable = SummaryTable(units: seq<string>, rows: map<string, seq<real>>)

  /** Every row has one value per unit, as in any data frame. */
  predicate Aligned(t: SummaryTable) {
    forall m :: m in t.rows ==> |t.rows[m]| == |t.units|
  }

  // ---------------------------------------------------------------------
  // Linear-interpolation quantile.

  function Negate(x: real): real { -x }

  /** The values in ascending order. */
  function Ascending(xs: seq<real>): (ys: seq<real>)
    ensures |ys| == |xs| && multiset(ys) == multiset(xs)
    ensures forall i, j :: 0 <= i < j < |ys| ==> ys[i] <= ys[j]
  {
    var ys := SortByKey(xs, Negate);
    assert forall i, j :: 0 <= i < j < |ys| ==> Negate(ys[i]) >= Negate(ys[j]);
    ys
  }

  /** `Series.quantile(q)`: with the values sorted, the point at position
      q (n - 1), interpolated linearly between its two neighbours (the upper
      one clipped to the last index); missing (NaN) for an empty row. */
  function Quantile(xs: seq<real>, q: real): Option<real>
    requires 0.0 <= q <= 1.0
  {
    if xs == [] then None
    else
      var ys := Ascending(xs);
      Some(Interpolate(ys, Position(q, |ys| - 1)))
  }

  /** The virtual index q (n - 1) of quantile q among n values, here with
      m = n - 1; it lies in [0, m]. */
  function Position(q: real, m: nat): (pos: real)
    requires 0.0 <= q <= 1.0
    ensures 0.0 <= pos <= m as real
  {
    assert (1.0 - q) * m as real >= 0.0;
    q * m as real
  }

  /** A higher q gives a position no lower. */
  lemma PositionMonotone(p: real, q: real, m: nat)
    requires 0.0 <= p <= q <= 1.0
    ensures Position(p, m) <= Position(q, m)
  {
    assert (q - p) * m as real >= 0.0;
  }

  /** numpy's linear rule at position pos of ys: the value at the floor of
      pos, moved towards the next value (clipped to the last index) by the
      fraction of pos above its floor. */
  function Interpolate(ys: seq<real>, pos: real): real
    requires ys != [] && 0.0 <= pos <= (|ys| - 1) as real
  {
    var lo := pos.Floor;
    var hi := Min(lo + 1, |ys| - 1);
    ys[lo] + (ys[hi] - ys[lo]) * (pos - lo as real)
  }

  /** On ascending values, the interpolated value lies between the two
      values it interpolates, hence between the first and the last. */
  lemma InterpolateBetween(ys: seq<real>, pos: real)
    requires ys != [] && 0.0 <= pos <= (|ys| - 1) as real
    requires forall i, j :: 0 <= i < j < |ys| ==> ys[i] <= ys[j]
    ensures var lo := pos.Floor; var hi := Min(lo + 1, |ys| - 1);
      ys[lo] <= Interpolate(ys, pos) <= ys[hi]
    ensures ys[0] <= Interpolate(ys, pos) <= ys[|ys| - 1]
  {
    var lo := pos.Floor;
    var hi := Min(lo + 1, |ys| - 1);
    var d := ys[hi] - ys[lo];
    var f := pos - lo as real;
    assert d >= 0.0 && 0.0 <= f < 1.0;
    assert d * f <= d by { assert d * (1.0 - f) >= 0.0; }
    assert d * f >= 0.0;
  }

  /** On ascending values, interpolation is monotone in the position. */
  lemma InterpolateMonotone(ys: seq<real>, p: real, p': real)
    requires ys != [] && 0.0 <= p <= p' <= (|ys| - 1) as real
    requires forall i, j :: 0 <= i < j < |ys| ==> ys[i] <= ys[j]
    ensures Interpolate(ys, p) <= Interpolate(ys, p')
  {
    var lo, lo' := p.Floor, p'.Floor;
    InterpolateBetween(ys, p);
    InterpolateBetween(ys, p');
    if lo == lo' {
      var hi := Min(lo + 1, |ys| - 1);
      var d := ys[hi] - ys[lo];
      assert d * (p' - p) >= 0.0;
    } else {
      assert lo + 1 <= lo';
    }
  }

  /** A quantile of a non-empty row lies between its smallest and its largest
      value. */
  lemma QuantileWithinRange(xs: seq<real>, q: real)
    requires 0.0 <= q <= 1.0 && xs != []
    ensures Quantile(xs, q).Some?
    ensures exists i :: 0 <= i < |xs| && xs[i] <= Quantile(xs, q).value
    ensures exists j :: 0 <= j < |xs| && Quantile(xs, q).value <= xs[j]
  {
    var ys := Ascending(xs);
    var pos := Position(q, |ys| - 1);
    InterpolateBetween(ys, pos);
    var v := Interpolate(ys, pos);
    assert ys[0] in multiset(xs) && ys[|ys| - 1] in multiset(xs) by {
      assert ys[0] in ys && ys[|ys| - 1] in ys;
    }
    var i :| 0 <= i < |xs| && xs[i] == ys[0];
    var j :| 0 <= j < |xs| && xs[j] == ys[|ys| - 1];
    assert xs[i] <= v <= xs[j];
  }

  /** A higher q never gives a lower quantile. */
  lemma QuantileMonotone(xs: seq<real>, p: real, q: real)
    requires 0.0 <= p <= q <= 1.0 && xs != []
    ensures Quantile(xs, p).Some? && Quantile(xs, q).Some?
    ensures Quantile(xs, p).value <= Quantile(xs, q).value
  {
    var ys := Ascending(xs);
    PositionMonotone(p, q, |ys| - 1);
    InterpolateMonotone(ys, Position(p, |ys| - 1), Position(q, |ys| - 1));
  }

  // ---------------------------------------------------------------------
  // Tukey fences and the units outside them.

  /** `outlier_lb` and `outlier_ub`. */
  datatype Fences = Fences(lower: real, upper: real)

  /** Q1 - 1.5 IQR and Q3 + 1.5 IQR of a row, with Q1 and Q3 its 25th and 75th
      percentiles; missing for an empty row. */
  function TukeyFences(xs: seq<real>): Option<Fences> {
    if xs == [] then None
    else
      var q1 := Quantile(xs, 0.25).value;
      var q3 := Quantile(xs, 0.75).value;
      Some(FencesOf(q1, q3))
  }

  /** The fences 1.5 IQR beyond the quartiles q1 and q3. */
  function FencesOf(q1: real, q3: real): Fences {
    var iqr := q3 - q1;
    Fences(q1 - 1.5 * iqr, q3 + 1.5 * iqr)
  }

  /** Strictly below the lower fence or strictly above the upper one. */
  predicate OutsideFences(v: real, f: Fences) {
    v < f.lower || v > f.upper
  }

  /** The fences of a non-empty row enclose its quartiles: IQR >= 0 and
      lower <= Q1 <= Q3 <= upper. */
  lemma FencesEncloseQuartiles(xs: seq<real>)
    requires xs != []
    ensures var f := TukeyFences(xs).value;
      var q1 := Quantile(xs, 0.25).value; var q3 := Quantile(xs, 0.75).value;
      && q1 <= q3
      && f.lower <= q1 <= q3 <= f.upper
  {
    QuantileMonotone(xs, 0.25, 0.75);
  }

  /** The values of the metric's row that fall outside its fences, named by
      their units (line 72). */
  function MetricOutliers(t: SummaryTable, metric: string): set<string>
    requires Aligned(t) && metric in t.rows
  {
    var row := t.rows[metric];
    match TukeyFences(row)
    case None => {}
    case Some(f) => FlaggedUnits(t.units, row, f)
  }

  /** `metric_samples.loc[(metric_samples < lb) | (metric_samples > ub)].index`. */
  function FlaggedUnits(units: seq<string>, row: seq<real>, f: Fences): set<string>
    requires |row| == |units|
  {
    set k | 0 <= k < |units| && OutsideFences(row[k], f) :: units[k]
  }

  /** With distinct unit names, a unit is flagged for a metric exactly when
      its value lies strictly outside that metric's fences. */
  lemma FlaggedIffOutside(t: SummaryTable, metric: string, k: nat)
    requires Aligned(t) && metric in t.rows && NoDuplicates(t.units) && k < |t.units|
    ensures TukeyFences(t.rows[metric]).Some?
    ensures t.units[k] in MetricOutliers(t, metric) <==>
      OutsideFences(t.rows[metric][k], TukeyFences(t.rows[metric]).value)
  {
    var row := t.rows[metric];
    var f := TukeyFences(row).value;
    if t.units[k] in MetricOutliers(t, metric) {
      var k' :| 0 <= k' < |t.units| && OutsideFences(row[k'], f) && t.units[k'] == t.units[k];
      assert k' == k;
    }
  }

  /** No unit whose value lies within [Q1, Q3] is ever flagged. */
  lemma QuartileRangeNeverFlagged(t: SummaryTable, metric: string, k: nat)
    requires Aligned(t) && metric in t.rows && NoDuplicates(t.units) && k < |t.units|
    requires Quantile(t.rows[metric], 0.25).value <= t.rows[metric][k] <= Quantile(t.rows[metric], 0.75).value
    ensures t.units[k] !in MetricOutliers(t, metric)
  {
    FlaggedIffOutside(t, metric, k);
    FencesEncloseQuartiles(t.rows[metric]);
  }

  /** The sorted copy of a row whose values are all c holds only c. */
  lemma AscendingConstant(xs: seq<real>, c: real)
    requires forall k :: 0 <= k < |xs| ==> xs[k] == c
    ensures forall k :: 0 <= k < |Ascending(xs)| ==> Ascending(xs)[k] == c
  {
    var ys := Ascending(xs);
    forall k | 0 <= k < |ys| ensures ys[k] == c {
      assert ys[k] in multiset(xs) by { assert ys[k] in ys; }
    }
  }

  /** Every quantile of a non-empty row whose values are all c is c. */
  lemma QuantileOfConstant(xs: seq<real>, q: real, c: real)
    requires 0.0 <= q <= 1.0 && xs != []
    requires forall k :: 0 <= k < |xs| ==> xs[k] == c
    ensures Quantile(xs, q) == Some(c)
  {
    var ys := Ascending(xs);
    AscendingConstant(xs, c);
    InterpolateBetween(ys, Position(q, |ys| - 1));
  }

  /** A metric on which every unit has the same value c has IQR 0, both
      fences at c, and no outliers. */
  lemma ConstantRowHasNoOutliers(t: SummaryTable, metric: string, c: real)
    requires Aligned(t) && metric in t.rows && t.units != []
    requires forall k :: 0 <= k < |t.rows[metric]| ==> t.rows[metric][k] == c
    ensures Quantile(t.rows[metric], 0.25) == Some(c) && Quantile(t.rows[metric], 0.75) == Some(c)
    ensures TukeyFences(t.rows[metric]) == Some(Fences(c, c))
    ensures MetricOutliers(t, metric) == {}
  {
    var row := t.rows[metric];
    QuantileOfConstant(row, 0.25, c);
    QuantileOfConstant(row, 0.75, c);
    assert FencesOf(c, c) == Fences(c, c);
    var f := Fences(c, c);
    assert forall k :: 0 <= k < |row| ==> !OutsideFences(row[k], f);
    assert FlaggedUnits(t.units, row, f) == {};
  }

  // ---------------------------------------------------------------------
  // The union over the requested metrics.

  /** Every requested metric has a row. */
  predicate AllPresent(t: SummaryTable, metrics: seq<string>) {
    forall k :: 0 <= k < |metrics| ==> metrics[k] in t.rows
  }

  /** The outliers of each metric of the list, in the list's order. */
  function PerMetric(t: SummaryTable, metrics: seq<string>): (ss: seq<set<string>>)
    requires Aligned(t) && AllPresent(t, metrics)
    ensures |ss| == |metrics|
  {
    seq(|metrics|, k requires 0 <= k < |metrics| => MetricOutliers(t, metrics[k]))
  }

  /** The union of a list of sets. */
  function UnionAll(ss: seq<set<string>>): set<string> {
    if ss == [] then {} else UnionAll(ss[..|ss| - 1]) + ss[|ss| - 1]
  }

  /** The units flagged for some metric of the list. */
  function UnionOf(t: SummaryTable, metrics: seq<string>): set<string>
    requires Aligned(t) && AllPresent(t, metrics)
  {
    UnionAll(PerMetric(t, metrics))
  }

  /** An element is in the union of a list of sets exactly when it is in
      one of them. */
  lemma {:induction false} UnionAllMembership(ss: seq<set<string>>, u: string)
    ensures u in UnionAll(ss) <==> exists k :: 0 <= k < |ss| && u in ss[k]
  {
    if ss != [] {
      var init := ss[..|ss| - 1];
      UnionAllMembership(init, u);
      if exists k :: 0 <= k < |init| && u in init[k] {
        var k :| 0 <= k < |init| && u in init[k];
        assert ss[k] == init[k];
      }
      if exists k :: 0 <= k < |ss| && u in ss[k] {
        var k :| 0 <= k < |ss| && u in ss[k];
        if k < |init| {
          assert init[k] == ss[k];
        }
      }
    }
  }

  /** Extending the list by one metric adds that metric's outliers. */
  lemma UnionStep(t: SummaryTable, metrics: seq<string>, i: nat)
    requires Aligned(t) && i < |metrics| && AllPresent(t, metrics[..i]) && metrics[i] in t.rows
    ensures AllPresent(t, metrics[..i + 1])
    ensures UnionOf(t, metrics[..i + 1]) == UnionOf(t, metrics[..i]) + MetricOutliers(t, metrics[i])
  {
    var next := metrics[..i + 1];
    forall k | 0 <= k < i + 1 ensures next[k] in t.rows {
      if k < i {
        assert next[k] == metrics[..i][k];
      }
    }
    PerMetricPrefix(t, next, i);
    assert next[..i] == metrics[..i];
    var ss := PerMetric(t, next);
    assert ss[i] == MetricOutliers(t, metrics[i]);
    assert UnionAll(ss) == UnionAll(ss[..i]) + ss[i];
  }

  /** The outliers of the first i metrics are the first i of the list's. */
  lemma PerMetricPrefix(t: SummaryTable, metrics: seq<string>, i: nat)
    requires Aligned(t) && AllPresent(t, metrics) && i <= |metrics|
    ensures AllPresent(t, metrics[..i])
    ensures PerMetric(t, metrics)[..i] == PerMetric(t, metrics[..i])
  {
    var ss, pre := PerMetric(t, metrics), metrics[..i];
    forall k | 0 <= k < i ensures pre[k] in t.rows && ss[k] == MetricOutliers(t, pre[k]) {
      assert pre[k] == metrics[k];
    }
  }

  /** A unit is in the union exactly when one of the metrics flags it. */
  lemma UnionMembership(t: SummaryTable, metrics: seq<string>, u: string)
    requires Aligned(t) && AllPresent(t, metrics)
    ensures u in UnionOf(t, metrics) <==>
      exists k :: 0 <= k < |metrics| && u in MetricOutliers(t, metrics[k])
  {
    var ss := PerMetric(t, metrics);
    UnionAllMembership(ss, u);
    if exists k :: 0 <= k < |ss| && u in ss[k] {
      var k :| 0 <= k < |ss| && u in ss[k];
      assert u in MetricOutliers(t, metrics[k]);
    }
    if exists k :: 0 <= k < |metrics| && u in MetricOutliers(t, metrics[k]) {
      var k :| 0 <= k < |metrics| && u in MetricOutliers(t, metrics[k]);
      assert u in ss[k];
    }
  }

  /** Only units of the table are ever flagged. */
  lemma UnionWithinUnits(t: SummaryTable, metrics: seq<string>)
    requires Aligned(t) && AllPresent(t, metrics)
    ensures forall u :: u in UnionOf(t, metrics) ==> u in t.units
  {
    forall u | u in UnionOf(t, metrics) ensures u in t.units {
      UnionMembership(t, metrics, u);
      var k :| 0 <= k < |metrics| && u in MetricOutliers(t, metrics[k]);
    }
  }

  /** Asking for more metrics (in any order) can only flag more units; in
      particular the order of the metrics does not matter. */
  lemma UnionMonotone(t: SummaryTable, ms: seq<string>, ms': seq<string>)
    requires Aligned(t) && AllPresent(t, ms) && AllPresent(t, ms')
    requires forall m :: m in ms ==> m in ms'
    ensures UnionOf(t, ms) <= UnionOf(t, ms')
  {
    forall u | u in UnionOf(t, ms) ensures u in UnionOf(t, ms') {
      UnionMembership(t, ms, u);
      var k :| 0 <= k < |ms| && u in MetricOutliers(t, ms[k]);
      assert ms[k] in ms';
      var k' :| 0 <= k' < |ms'| && ms'[k'] == ms[k];
      UnionMembership(t, ms', u);
    }
  }

  // ---------------------------------------------------------------------
  // `identify_outliers` on a given table.

  /** For each metric in turn: look up its row (failing with the metric's
      name, as pandas' KeyError, when the table has none), compute the
      quartiles and fences, flag the units outside them and add them to the
      combined set. */
  method IdentifyOutliers(t: SummaryTable, metrics: seq<string>) returns (r: Result<set<string>, string>)
    requires Aligned(t)
    ensures r.Success? <==> AllPresent(t, metrics)
    ensures r.Success? ==> r.value == UnionOf(t, metrics)
    ensures r.Failure? ==>
      exists k :: 0 <= k < |metrics| && metrics[k] == r.error && r.error !in t.rows && AllPresent(t, metrics[..k])
  {
    var combined: set<string> := {};
    var i := 0;
    while i < |metrics|
      invariant 0 <= i <= |metrics|
      invariant AllPresent(t, metrics[..i])
      invariant combined == UnionOf(t, metrics[..i])
    {
      var metric := metrics[i];
      if metric !in t.rows {
        assert metrics[i] == metric;
        return Failure(metric);
      }
      var samples := t.rows[metric];
      var outliers: set<string> := {};
      if samples != [] {
        var q3 := Quantile(samples, 0.75).value;
        var q1 := Quantile(samples, 0.25).value;
        var iqr := q3 - q1;
        var lb := q1 - 1.5 * iqr;
        var ub := q3 + 1.5 * iqr;
        outliers := FlaggedUnits(t.units, samples, Fences(lb, ub));
        assert outliers == MetricOutliers(t, metric) by {
          assert Fences(lb, ub) == FencesOf(q1, q3);
        }
      }
      combined := combined + outliers;
      assert AllPresent(t, metrics[..i + 1]) && combined == UnionOf(t, metrics[..i + 1]) by {
        UnionStep(t, metrics, i);
      }
      i := i + 1;
    }
    assert metrics[..i] == metrics;
    return Success(combined);
  }

  // ---------------------------------------------------------------------
  // A worked example.

  /** The first of an ascending sequence is its least element. */
  lemma AscendingHeadIsLeast(ys: seq<real>, v: real)
    requires forall i, j :: 0 <= i < j < |ys| ==> ys[i] <= ys[j]
    requires v in multiset(ys)
    ensures ys[0] <= v
  {
    var k :| 0 <= k < |ys| && ys[k] == v;
  }

  /** Two ascending sequences with the same elements are equal, so the
      sorted copy of a row is determined by its values. */
  lemma {:induction false} AscendingUnique(ys: seq<real>, zs: seq<real>)
    requires forall i, j :: 0 <= i < j < |ys| ==> ys[i] <= ys[j]
    requires forall i, j :: 0 <= i < j < |zs| ==> zs[i] <= zs[j]
    requires multiset(ys) == multiset(zs)
    ensures ys == zs
  {
    assert |ys| == |zs| by {
      assert |ys| == |multiset(ys)| && |zs| == |multiset(zs)|;
    }
    if ys != [] {
      assert ys[0] == zs[0] by {
        SameLeast(ys, zs);
      }
      assert ys[1..] == zs[1..] by {
        AscendingTail(ys);
        AscendingTail(zs);
        TailMultiset(ys);
        TailMultiset(zs);
        AscendingUnique(ys[1..], zs[1..]);
      }
      assert ys == [ys[0]] + ys[1..] && zs == [zs[0]] + zs[1..];
    }
  }

  /** Two non-empty ascending sequences with the same elements start alike. */
  lemma SameLeast(ys: seq<real>, zs: seq<real>)
    requires ys != [] && zs != []
    requires forall i, j :: 0 <= i < j < |ys| ==> ys[i] <= ys[j]
    requires forall i, j :: 0 <= i < j < |zs| ==> zs[i] <= zs[j]
    requires multiset(ys) == multiset(zs)
    ensures ys[0] == zs[0]
  {
    assert ys[0] in multiset(ys) && zs[0] in multiset(zs);
    AscendingHeadIsLeast(ys, zs[0]);
    AscendingHeadIsLeast(zs, ys[0]);
  }

  /** The tail of an ascending sequence is ascending. */
  lemma AscendingTail(ys: seq<real>)
    requires ys != []
    requires forall i, j :: 0 <= i < j < |ys| ==> ys[i] <= ys[j]
    ensures forall i, j :: 0 <= i < j < |ys[1..]| ==> ys[1..][i] <= ys[1..][j]
  {
    forall i, j | 0 <= i < j < |ys[1..]| ensures ys[1..][i] <= ys[1..][j] {
      assert ys[1..][i] == ys[i + 1] && ys[1..][j] == ys[j + 1];
    }
  }

  /** Dropping the head of a non-empty sequence removes one copy of it. */
  lemma TailMultiset(ys: seq<real>)
    requires ys != []
    ensures multiset(ys[1..]) == multiset(ys) - multiset{ys[0]}
  {
    assert ys == [ys[0]] + ys[1..];
  }

  /** Ascending after a prefix element no larger than its head. */
  lemma AscendingCons(x: real, ys: seq<real>)
    requires ys != [] && x <= ys[0]
    requires forall i, j :: 0 <= i < j < |ys| ==> ys[i] <= ys[j]
    ensures forall i, j :: 0 <= i < j < |[x] + ys| ==> ([x] + ys)[i] <= ([x] + ys)[j]
  {
    var zs := [x] + ys;
    forall i, j | 0 <= i < j < |zs| ensures zs[i] <= zs[j] {
      assert zs[j] == ys[j - 1];
      if i > 0 {
        assert zs[i] == ys[i - 1];
      } else {
        assert ys[0] <= ys[j - 1];
      }
    }
  }

  /** 9, 10, 10.5, 11, 50 is ascending. */
  lemma ExampleAscending(sorted: seq<real>)
    requires sorted == [9.0, 10.0, 10.5, 11.0, 50.0]
    ensures forall i, j :: 0 <= i < j < |sorted| ==> sorted[i] <= sorted[j]
  {
    AscendingCons(11.0, [50.0]);
    assert [11.0] + [50.0] == [11.0, 50.0];
    AscendingCons(10.5, [11.0, 50.0]);
    assert [10.5] + [11.0, 50.0] == [10.5, 11.0, 50.0];
    AscendingCons(10.0, [10.5, 11.0, 50.0]);
    assert [10.0] + [10.5, 11.0, 50.0] == [10.0, 10.5, 11.0, 50.0];
    AscendingCons(9.0, [10.0, 10.5, 11.0, 50.0]);
    assert [9.0] + [10.0, 10.5, 11.0, 50.0] == sorted;
  }

  /** Ascending values with the same elements as xs are its sorted copy. */
  lemma AscendingIs(xs: seq<real>, sorted: seq<real>)
    requires multiset(sorted) == multiset(xs)
    requires forall i, j :: 0 <= i < j < |sorted| ==> sorted[i] <= sorted[j]
    ensures Ascending(xs) == sorted
  {
    AscendingUnique(Ascending(xs), sorted);
  }

  /** The example row sorted. */
  lemma ExampleSorted(row: seq<real>, sorted: seq<real>)
    requires row == [10.0, 11.0, 9.0, 10.5, 50.0]
    requires sorted == [9.0, 10.0, 10.5, 11.0, 50.0]
    ensures Ascending(row) == sorted
  {
    ExampleSameValues(row, sorted);
    ExampleAscending(sorted);
    AscendingIs(row, sorted);
  }

  /** The example row and its sorted copy hold the same values. */
  lemma ExampleSameValues(row: seq<real>, sorted: seq<real>)
    requires row == [10.0, 11.0, 9.0, 10.5, 50.0]
    requires sorted == [9.0, 10.0, 10.5, 11.0, 50.0]
    ensures multiset(sorted) == multiset(row)
  {
  }

  /** Interpolating at a whole position reads the value there. */
  lemma InterpolateAtIndex(ys: seq<real>, k: nat)
    requires k < |ys|
    ensures Interpolate(ys, k as real) == ys[k]
  {
    assert (k as real).Floor == k;
  }

  /** The row 10, 11, 9, 10.5, 50 has quartiles exactly 10 and 11, so
      fences 8.5 and 12.5. */
  lemma ExampleQuartiles(row: seq<real>)
    requires row == [10.0, 11.0, 9.0, 10.5, 50.0]
    ensures Quantile(row, 0.25) == Some(10.0) && Quantile(row, 0.75) == Some(11.0)
    ensures TukeyFences(row) == Some(Fences(8.5, 12.5))
  {
    var sorted := [9.0, 10.0, 10.5, 11.0, 50.0];
    ExampleSorted(row, sorted);
    assert Position(0.25, |sorted| - 1) == 1.0 && Position(0.75, |sorted| - 1) == 3.0;
    assert Quantile(row, 0.25) == Some(Interpolate(sorted, 1.0));
    assert Quantile(row, 0.75) == Some(Interpolate(sorted, 3.0));
    InterpolateAtIndex(sorted, 1);
    InterpolateAtIndex(sorted, 3);
    assert FencesOf(10.0, 11.0) == Fences(8.5, 12.5);
  }

  /** Five units whose means are 10, 11, 9, 10.5 and 50: only the fifth
      unit, with mean 50, is an outlier on that metric. */
  lemma FiveUnitExample(t: SummaryTable, row: seq<real>)
    requires |t.units| == 5 && t.rows == map["mean" := row]
    requires row == [10.0, 11.0, 9.0, 10.5, 50.0]
    ensures Aligned(t)
    ensures MetricOutliers(t, "mean") == {t.units[4]}
  {
    forall m | m in t.rows ensures |t.rows[m]| == |t.units| {
      assert m == "mean";
    }
    ExampleQuartiles(row);
    ExampleFlags(t.units, row);
  }

  /** Against the fences 8.5 and 12.5, only the value 50 is outside. */
  lemma ExampleFlags(units: seq<string>, row: seq<real>)
    requires |units| == 5 && row == [10.0, 11.0, 9.0, 10.5, 50.0]
    ensures FlaggedUnits(units, row, Fences(8.5, 12.5)) == {units[4]}
  {
    var f := Fences(8.5, 12.5);
    forall k | 0 <= k < 5 && k != 4 ensures !OutsideFences(row[k], f) {
      assert row[k] in [10.0, 11.0, 9.0, 10.5];
    }
    FlaggedExactlyOne(units, row, f, 4);
  }

  /** When only the value at k0 lies outside the fences, only its unit is
      flagged. */
  lemma FlaggedExactlyOne(units: seq<string>, row: seq<real>, f: Fences, k0: nat)
    requires |row| == |units| && k0 < |units|
    requires OutsideFences(row[k0], f)
    requires forall k :: 0 <= k < |units| && k != k0 ==> !OutsideFences(row[k], f)
    ensures FlaggedUnits(units, row, f) == {units[k0]}
  {
  }
}
