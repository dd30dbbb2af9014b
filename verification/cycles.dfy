/** Extracting and ranking the oscillation cycles of a step signal
    (`N_ranked_cycles`): collapse runs of equal values, flag local extrema,
    measure each extremum against the next one and the one after, and rank
    the complete cycles by amplitude. */
module Cycles {
  import opened Wrappers
  import opened Ranking
  import opened Series

  // ---------------------------------------------------------------------
  // Run collapse: keep the first sample and every sample whose value
  // differs from the previous sample's.

  /** No two adjacent samples record the same value. */
  predicate NoRepeats(c: seq<Sample>) {
    forall i :: 0 < i < |c| ==> c[i].value != c[i - 1].value
  }

  /** a is b with some samples deleted. */
  predicate IsSubsequence(a: seq<Sample>, b: seq<Sample>)
    decreases |b|
  {
    if a == [] then true
    else if b == [] then false
    else
      || (a[|a| - 1] == b[|b| - 1] && IsSubsequence(a[..|a| - 1], b[..|b| - 1]))
      || IsSubsequence(a, b[..|b| - 1])
  }

  /** The change points of s: `df.loc[sig_value != sig_value.shift(1)]`. */
  function Collapse(s: seq<Sample>): (c: seq<Sample>)
    ensures |c| <= |s|
    ensures |s| > 0 ==> |c| > 0 && c[0] == s[0] && c[|c| - 1].value == s[|s| - 1].value
    ensures NoRepeats(c)
    ensures IsSubsequence(c, s)
    ensures forall x :: x in c ==> x in s
  {
    if |s| <= 1 then s
    else
      var c := Collapse(s[..|s| - 1]);
      if s[|s| - 1].value != s[|s| - 2].value then
        assert (c + [s[|s| - 1]])[..|c|] == c;
        c + [s[|s| - 1]]
      else c
  }

  /** Sample i opens a run: it is the first, or its value differs from
      the previous sample's. */
  predicate IsChangePoint(s: seq<Sample>, i: nat)
    requires i < |s|
  {
    i == 0 || s[i].value != s[i - 1].value
  }

  /** Every change point of s survives the collapse. */
  lemma {:induction false} ChangePointsKept(s: seq<Sample>)
    ensures forall i :: 0 <= i < |s| && IsChangePoint(s, i) ==> s[i] in Collapse(s)
  {
    if |s| == 1 {
      assert Collapse(s) == s;
      assert s[0] in s;
    } else if |s| > 1 {
      var p := s[..|s| - 1];
      ChangePointsKept(p);
      var c := Collapse(p);
      var last := s[|s| - 1];
      if last.value != s[|s| - 2].value {
        assert Collapse(s) == c + [last];
      } else {
        assert Collapse(s) == c;
      }
      forall i | 0 <= i < |s| && IsChangePoint(s, i) ensures s[i] in Collapse(s) {
        if i < |s| - 1 {
          assert p[i] == s[i];
          assert IsChangePoint(p, i) by {
            if i > 0 { assert p[i - 1] == s[i - 1]; }
          }
          assert s[i] in c;
        }
      }
    }
  }

  /** A signal without repeats is its own collapse. */
  lemma {:induction false} CollapseFixesNoRepeats(c: seq<Sample>)
    requires NoRepeats(c)
    ensures Collapse(c) == c
  {
    if |c| > 1 {
      CollapseFixesNoRepeats(c[..|c| - 1]);
      assert c == c[..|c| - 1] + [c[|c| - 1]];
    }
  }

  /** Collapsing twice is collapsing once. */
  lemma CollapseIdempotent(s: seq<Sample>)
    ensures Collapse(Collapse(s)) == Collapse(s)
  {
    CollapseFixesNoRepeats(Collapse(s));
  }

  /** The change points of a time-ordered signal are in time order. */
  lemma {:induction false} CollapseTimeOrdered(s: seq<Sample>)
    requires TimeOrdered(s)
    ensures TimeOrdered(Collapse(s))
  {
    if |s| > 1 {
      var p := s[..|s| - 1];
      CollapseTimeOrdered(p);
      var c := Collapse(p);
      forall x | x in c ensures x.timestamp <= s[|s| - 1].timestamp {
        var k :| 0 <= k < |p| && p[k] == x;
        assert s[k] == x;
      }
    }
  }

  predicate StrictlyRising(c: seq<Sample>) {
    forall i :: 0 < i < |c| ==> c[i - 1].value < c[i].value
  }

  predicate StrictlyFalling(c: seq<Sample>) {
    forall i :: 0 < i < |c| ==> c[i - 1].value > c[i].value
  }

  /** Collapsing a non-decreasing signal leaves a strictly increasing
      one. */
  lemma {:induction false} CollapseOfRising(s: seq<Sample>)
    requires forall i :: 0 < i < |s| ==> s[i - 1].value <= s[i].value
    ensures StrictlyRising(Collapse(s))
  {
    if |s| > 1 {
      var p := s[..|s| - 1];
      forall i | 0 < i < |p| ensures p[i - 1].value <= p[i].value {
        assert p[i - 1] == s[i - 1] && p[i] == s[i];
      }
      CollapseOfRising(p);
      var c := Collapse(p);
      assert c[|c| - 1].value == s[|s| - 2].value;
      if s[|s| - 1].value != s[|s| - 2].value {
        assert Collapse(s) == c + [s[|s| - 1]];
        var c' := c + [s[|s| - 1]];
        forall i | 0 < i < |c'| ensures c'[i - 1].value < c'[i].value {
          if i < |c| {
            assert c'[i - 1] == c[i - 1] && c'[i] == c[i];
          }
        }
      } else {
        assert Collapse(s) == c;
      }
    }
  }

  /** Collapsing a non-increasing signal leaves a strictly decreasing one. */
  lemma {:induction false} CollapseOfFalling(s: seq<Sample>)
    requires forall i :: 0 < i < |s| ==> s[i - 1].value >= s[i].value
    ensures StrictlyFalling(Collapse(s))
  {
    if |s| > 1 {
      var p := s[..|s| - 1];
      forall i | 0 < i < |p| ensures p[i - 1].value >= p[i].value {
        assert p[i - 1] == s[i - 1] && p[i] == s[i];
      }
      CollapseOfFalling(p);
      var c := Collapse(p);
      assert c[|c| - 1].value == s[|s| - 2].value;
      if s[|s| - 1].value != s[|s| - 2].value {
        assert Collapse(s) == c + [s[|s| - 1]];
        var c' := c + [s[|s| - 1]];
        forall i | 0 < i < |c'| ensures c'[i - 1].value > c'[i].value {
          if i < |c| {
            assert c'[i - 1] == c[i - 1] && c'[i] == c[i];
          }
        }
      } else {
        assert Collapse(s) == c;
      }
    }
  }

  // ---------------------------------------------------------------------
  // Local extrema: `argrelextrema(v, np.less_equal)` and
  // `argrelextrema(v, np.greater_equal)` with order 1 and mode 'clip'.

  /** numpy's `take(..., mode='clip')`: an index beyond either end is moved
      to that end. */
  function Clip(i: int, n: nat): (k: nat)
    requires n > 0
    ensures k < n
  {
    if i < 0 then 0 else if i >= n then n - 1 else i
  }

  /** The sample is <= its clipped neighbours on both sides. */
  predicate IsLocalMin(c: seq<Sample>, i: nat)
    requires i < |c|
  {
    c[i].value <= c[Clip(i - 1, |c|)].value && c[i].value <= c[Clip(i + 1, |c|)].value
  }

  /** The sample is >= its clipped neighbours on both sides. */
  predicate IsLocalMax(c: seq<Sample>, i: nat)
    requires i < |c|
  {
    c[i].value >= c[Clip(i - 1, |c|)].value && c[i].value >= c[Clip(i + 1, |c|)].value
  }

  predicate IsExtremum(c: seq<Sample>, i: nat)
    requires i < |c|
  {
    IsLocalMin(c, i) || IsLocalMax(c, i)
  }

  /** Clipping compares an end sample with itself, so an end is judged by
      its one real neighbour only, and is always a minimum or a maximum. */
  lemma FlagsByRealNeighbours(c: seq<Sample>, i: nat)
    requires i < |c|
    ensures IsLocalMin(c, i) <==>
      (i > 0 ==> c[i].value <= c[i - 1].value) && (i + 1 < |c| ==> c[i].value <= c[i + 1].value)
    ensures IsLocalMax(c, i) <==>
      (i > 0 ==> c[i].value >= c[i - 1].value) && (i + 1 < |c| ==> c[i].value >= c[i + 1].value)
    ensures (i == 0 || i == |c| - 1) ==> IsExtremum(c, i)
  {
  }

  /** Indices below k of the flagged samples, in increasing order. */
  function ExtremumIndices(c: seq<Sample>, k: nat): (idx: seq<nat>)
    requires k <= |c|
    ensures |idx| <= k
    ensures forall j :: 0 <= j < |idx| ==> idx[j] < k && IsExtremum(c, idx[j])
    ensures forall j, j' :: 0 <= j < j' < |idx| ==> idx[j] < idx[j']
    ensures forall i :: 0 <= i < k && IsExtremum(c, i) ==> i in idx
  {
    if k == 0 then [] else ExtremumIndices(c, k - 1) + (if IsExtremum(c, k - 1) then [k - 1] else [])
  }

  /** A row of the `extrema` table: `local_min` and `local_max` hold the
      value where the sample is flagged, and are missing elsewhere. */
  datatype Extremum = Extremum(timestamp: int, value: real, localMin: Option<real>, localMax: Option<real>)

  function FlagRow(c: seq<Sample>, i: nat): Extremum
    requires i < |c|
  {
    Extremum(c[i].timestamp, c[i].value,
             if IsLocalMin(c, i) then Some(c[i].value) else None,
             if IsLocalMax(c, i) then Some(c[i].value) else None)
  }

  /** The flagged samples, in their order (line 83). */
  function Extrema(c: seq<Sample>): seq<Extremum> {
    var idx := ExtremumIndices(c, |c|);
    seq(|idx|, j requires 0 <= j < |idx| => FlagRow(c, idx[j]))
  }

  /** The first and the last change point are always extrema. */
  lemma ExtremaEndpoints(c: seq<Sample>)
    requires |c| >= 1
    ensures var ex := Extrema(c);
      && |ex| >= 1
      && ex[0] == FlagRow(c, 0)
      && ex[|ex| - 1] == FlagRow(c, |c| - 1)
      && (|c| >= 2 ==> |ex| >= 2)
  {
    var idx := ExtremumIndices(c, |c|);
    FlagsByRealNeighbours(c, 0);
    FlagsByRealNeighbours(c, |c| - 1);
    assert 0 in idx;
    assert |c| - 1 in idx;
    var p :| 0 <= p < |idx| && idx[p] == 0;
    var q :| 0 <= q < |idx| && idx[q] == |c| - 1;
    assert idx[0] == 0;
    assert idx[|idx| - 1] == |c| - 1;
    if |c| >= 2 {
      assert p != q;
    }
  }

  /** Between two consecutive extrema the signal moves strictly in one
      direction: up after a minimum. */
  lemma {:induction false} RisingRun(c: seq<Sample>, a: nat, k: nat)
    requires NoRepeats(c) && a < k < |c|
    requires IsLocalMin(c, a)
    requires forall i :: a < i < k ==> !IsExtremum(c, i)
    ensures c[k - 1].value < c[k].value && c[a].value < c[k].value
  {
    if k > a + 1 {
      RisingRun(c, a, k - 1);
      assert !IsExtremum(c, k - 1);
    }
  }

  /** ... and down after a maximum. */
  lemma {:induction false} FallingRun(c: seq<Sample>, a: nat, k: nat)
    requires NoRepeats(c) && a < k < |c|
    requires IsLocalMax(c, a)
    requires forall i :: a < i < k ==> !IsExtremum(c, i)
    ensures c[k - 1].value > c[k].value && c[a].value > c[k].value
  {
    if k > a + 1 {
      FallingRun(c, a, k - 1);
      assert !IsExtremum(c, k - 1);
    }
  }

  /** Without repeats and with two or more samples, no sample is both a
      minimum and a maximum. */
  lemma NeverBoth(c: seq<Sample>, i: nat)
    requires NoRepeats(c) && |c| >= 2 && i < |c|
    ensures !(IsLocalMin(c, i) && IsLocalMax(c, i))
  {
    if i + 1 < |c| {
      assert c[i + 1].value != c[i].value;
    } else {
      assert c[i - 1].value != c[i].value;
    }
  }

  /** Each extremum carries its own value in the column(s) it is flagged in. */
  ghost predicate FlagsHoldValue(ex: seq<Extremum>) {
    forall j :: 0 <= j < |ex| ==>
      (ex[j].localMin.Some? ==> ex[j].localMin.value == ex[j].value) &&
      (ex[j].localMax.Some? ==> ex[j].localMax.value == ex[j].value)
  }

  /** Minima and maxima strictly alternate: none is both, after a minimum
      comes a maximum above it, after a maximum a minimum below it. */
  ghost predicate Alternating(ex: seq<Extremum>) {
    && (forall j :: 0 <= j < |ex| ==> ex[j].localMin.Some? != ex[j].localMax.Some?)
    && (forall j :: 0 <= j < |ex| - 1 && ex[j].localMin.Some? ==>
          ex[j + 1].localMax.Some? && ex[j].value < ex[j + 1].value)
    && (forall j :: 0 <= j < |ex| - 1 && ex[j].localMax.Some? ==>
          ex[j + 1].localMin.Some? && ex[j].value > ex[j + 1].value)
  }

  /** Consecutive extrema a and b of a signal without repeats: the kind
      switches, and the value moves in the direction of the switch. */
  lemma ConsecutiveExtrema(c: seq<Sample>, a: nat, b: nat)
    requires NoRepeats(c) && a < b < |c| && IsExtremum(c, b)
    requires forall i :: a < i < b ==> !IsExtremum(c, i)
    ensures IsLocalMin(c, a) ==> IsLocalMax(c, b) && !IsLocalMin(c, b) && c[a].value < c[b].value
    ensures IsLocalMax(c, a) ==> IsLocalMin(c, b) && !IsLocalMax(c, b) && c[a].value > c[b].value
  {
    if IsLocalMin(c, a) {
      RisingRun(c, a, b);
    }
    if IsLocalMax(c, a) {
      FallingRun(c, a, b);
    }
  }

  /** No sample strictly between two consecutive flagged indices is
      flagged. */
  lemma GapBetweenExtrema(c: seq<Sample>, j: nat)
    requires j + 1 < |ExtremumIndices(c, |c|)|
    ensures var idx := ExtremumIndices(c, |c|);
      && idx[j] < idx[j + 1]
      && forall i :: idx[j] < i < idx[j + 1] ==> !IsExtremum(c, i)
  {
    var idx := ExtremumIndices(c, |c|);
    forall i | idx[j] < i < idx[j + 1] ensures !IsExtremum(c, i) { }
  }

  /** Extrema j and j + 1 of a signal without repeats are of opposite
      kinds, and the value moves from the one to the other accordingly. */
  lemma AlternateAt(c: seq<Sample>, j: nat)
    requires NoRepeats(c) && |c| >= 2 && j + 1 < |Extrema(c)|
    ensures var ex := Extrema(c);
      && (ex[j].localMin.Some? ==> ex[j + 1].localMax.Some? && ex[j].value < ex[j + 1].value)
      && (ex[j].localMax.Some? ==> ex[j + 1].localMin.Some? && ex[j].value > ex[j + 1].value)
  {
    var idx := ExtremumIndices(c, |c|);
    var ex := Extrema(c);
    GapBetweenExtrema(c, j);
    ConsecutiveExtrema(c, idx[j], idx[j + 1]);
    assert ex[j] == FlagRow(c, idx[j]);
    assert ex[j + 1] == FlagRow(c, idx[j + 1]);
  }

  /** Each extremum holds its value in the column it is flagged in. */
  lemma ExtremaHoldValue(c: seq<Sample>)
    ensures FlagsHoldValue(Extrema(c))
  {
    var idx := ExtremumIndices(c, |c|);
    var ex := Extrema(c);
    forall j | 0 <= j < |ex|
      ensures ex[j].localMin.Some? ==> ex[j].localMin.value == ex[j].value
      ensures ex[j].localMax.Some? ==> ex[j].localMax.value == ex[j].value
    {
      assert ex[j] == FlagRow(c, idx[j]);
    }
  }

  /** Without repeats every extremum is a minimum or a maximum, not both. */
  lemma ExtremaOfOneKind(c: seq<Sample>)
    requires NoRepeats(c) && |c| >= 2
    ensures var ex := Extrema(c); forall j :: 0 <= j < |ex| ==> ex[j].localMin.Some? != ex[j].localMax.Some?
  {
    var idx := ExtremumIndices(c, |c|);
    var ex := Extrema(c);
    forall j | 0 <= j < |ex| ensures ex[j].localMin.Some? != ex[j].localMax.Some? {
      NeverBoth(c, idx[j]);
      assert ex[j] == FlagRow(c, idx[j]);
    }
  }

  /** The extrema of a signal with two or more change points alternate. */
  lemma ExtremaAlternate(c: seq<Sample>)
    requires NoRepeats(c) && |c| >= 2
    ensures FlagsHoldValue(Extrema(c))
    ensures Alternating(Extrema(c))
  {
    var ex := Extrema(c);
    ExtremaHoldValue(c);
    ExtremaOfOneKind(c);
    forall j | 0 <= j < |ex| - 1
      ensures ex[j].localMin.Some? ==> ex[j + 1].localMax.Some? && ex[j].value < ex[j + 1].value
      ensures ex[j].localMax.Some? ==> ex[j + 1].localMin.Some? && ex[j].value > ex[j + 1].value
    {
      AlternateAt(c, j);
    }
  }

  /** Extrema keep the order of time. */
  lemma ExtremaTimeOrdered(c: seq<Sample>)
    requires TimeOrdered(c)
    ensures var ex := Extrema(c); forall i, j :: 0 <= i < j < |ex| ==> ex[i].timestamp <= ex[j].timestamp
  {
    var idx := ExtremumIndices(c, |c|);
    var ex := Extrema(c);
    forall i, j | 0 <= i < j < |ex| ensures ex[i].timestamp <= ex[j].timestamp {
      assert idx[i] < idx[j];
    }
  }

  // ---------------------------------------------------------------------
  // Amplitude, two-ahead duration and the filled-in partner value.

  /** One row of the `extrema` table once lines 86-91 have run. */
  datatype CycleRow = CycleRow(localMin: Option<real>, localMax: Option<real>,
                               amplitude: Option<real>, duration: Option<int>)

  /** `sig_value.diff().abs().shift(-1)`: distance to the next extremum. */
  function Amplitude(ex: seq<Extremum>, j: nat): Option<real>
    requires j < |ex|
  {
    if j + 1 < |ex| then Some(Abs(ex[j + 1].value - ex[j].value)) else None
  }

  /** `timestamp_utc.diff(periods=2).shift(-2)`: time to the extremum two
      ahead. */
  function CycleDuration(ex: seq<Extremum>, j: nat): Option<int>
    requires j < |ex|
  {
    if j + 2 < |ex| then Some(ex[j + 2].timestamp - ex[j].timestamp) else None
  }

  /** Lines 90-91: a missing `local_min` becomes value - amplitude and a
      missing `local_max` value + amplitude (still missing without an
      amplitude). */
  function FillRow(e: Extremum, amplitude: Option<real>, duration: Option<int>): CycleRow {
    var lo := if e.localMin.Some? then e.localMin
              else if amplitude.Some? then Some(e.value - amplitude.value) else None;
    var hi := if e.localMax.Some? then e.localMax
              else if amplitude.Some? then Some(e.value + amplitude.value) else None;
    CycleRow(lo, hi, amplitude, duration)
  }

  /** Rows that have a duration have every other column too. */
  predicate TimedRowsComplete(rows: seq<CycleRow>) {
    forall i :: 0 <= i < |rows| && rows[i].duration.Some? ==>
      rows[i].amplitude.Some? && rows[i].localMin.Some? && rows[i].localMax.Some?
  }

  function CycleTable(ex: seq<Extremum>): (rows: seq<CycleRow>)
    ensures |rows| == |ex|
    ensures TimedRowsComplete(rows)
  {
    seq(|ex|, j requires 0 <= j < |ex| => FillRow(ex[j], Amplitude(ex, j), CycleDuration(ex, j)))
  }

  // ---------------------------------------------------------------------
  // Drop the rows without a duration, sort by amplitude, keep the first N.

  /** A returned row: `amplitude, local_min, local_max, cycle_duration`. */
  datatype Cycle = Cycle(amplitude: real, localMin: real, localMax: real, duration: int)

  function ToCycle(r: CycleRow): Cycle
    requires r.duration.Some? && r.amplitude.Some? && r.localMin.Some? && r.localMax.Some?
  {
    Cycle(r.amplitude.value, r.localMin.value, r.localMax.value, r.duration.value)
  }

  /** `dropna(subset="cycle_duration")`. */
  function DropUntimed(rows: seq<CycleRow>): seq<Cycle>
    requires TimedRowsComplete(rows)
  {
    if rows == [] then []
    else
      assert TimedRowsComplete(rows[1..]) by {
        forall i | 0 <= i < |rows[1..]| && rows[1..][i].duration.Some?
          ensures rows[1..][i].amplitude.Some? && rows[1..][i].localMin.Some? && rows[1..][i].localMax.Some?
        {
          assert rows[1..][i] == rows[i + 1];
        }
      }
      (if rows[0].duration.Some? then [ToCycle(rows[0])] else []) + DropUntimed(rows[1..])
  }

  /** The complete cycles of the signal, in the order of their extrema. */
  function CompleteCycles(s: seq<Sample>): seq<Cycle> {
    DropUntimed(CycleTable(Extrema(Collapse(s))))
  }

  function AmplitudeKey(c: Cycle): real { c.amplitude }

  function NegatedAmplitude(c: Cycle): real { -c.amplitude }

  /** The N largest cycles by amplitude, or with `ascending` the N smallest
      (`sort_values(by="amplitude", ascending=ascending).head(N)`). */
  function NRankedCycles(s: seq<Sample>, n: int, ascending: bool): seq<Cycle> {
    var cs := CompleteCycles(s);
    var sorted := if ascending then SortByKey(cs, NegatedAmplitude) else SortByKey(cs, AmplitudeKey);
    Take(sorted, n)
  }

  /** Number of extrema minus the last two, which lack a two-ahead
      duration. */
  function CycleCount(s: seq<Sample>): nat {
    var m := |Extrema(Collapse(s))|;
    if m >= 2 then m - 2 else 0
  }

  /** Dropping the untimed rows of a table timed exactly on its first k rows
      keeps those k rows. */
  lemma {:induction false} DropUntimedPrefix(rows: seq<CycleRow>, k: nat)
    requires TimedRowsComplete(rows) && k <= |rows|
    requires forall j :: 0 <= j < |rows| ==> (rows[j].duration.Some? <==> j < k)
    ensures |DropUntimed(rows)| == k
    ensures forall j :: 0 <= j < k ==> DropUntimed(rows)[j] == ToCycle(rows[j])
  {
    if rows != [] {
      var k' := if k > 0 then k - 1 else 0;
      forall j | 0 <= j < |rows[1..]| ensures rows[1..][j].duration.Some? <==> j < k' {
        assert rows[1..][j] == rows[j + 1];
      }
      DropUntimedPrefix(rows[1..], k');
    }
  }

  /** Row j of the table of alternating extrema, when it is timed: the
      extremum paired with the next one. */
  lemma AlternatingRow(ex: seq<Extremum>, j: nat)
    requires FlagsHoldValue(ex) && Alternating(ex) && j + 2 < |ex|
    ensures var row := CycleTable(ex)[j];
      && row.duration.Some? && row.amplitude.Some? && row.localMin.Some? && row.localMax.Some?
      && CycleAt(ex, j, ToCycle(row))
  {
    assert ex[j].localMin.Some? != ex[j].localMax.Some?;
  }

  /** Only the last two rows of the table lack a duration. */
  lemma TimedRows(ex: seq<Extremum>)
    requires |ex| >= 2
    ensures var cs := DropUntimed(CycleTable(ex));
      && |cs| == |ex| - 2
      && forall j :: 0 <= j < |cs| ==> cs[j] == ToCycle(CycleTable(ex)[j])
  {
    var rows := CycleTable(ex);
    forall j | 0 <= j < |rows| ensures rows[j].duration.Some? <==> j < |ex| - 2 { }
    DropUntimedPrefix(rows, |ex| - 2);
  }

  /** Cycle x is the one of extremum j: it measures the move to extremum
      j + 1 (its partner value) and lasts until extremum j + 2. */
  ghost predicate CycleAt(ex: seq<Extremum>, j: nat, x: Cycle)
    requires j + 2 < |ex|
  {
    && x.amplitude == Abs(ex[j + 1].value - ex[j].value)
    && x.localMax - x.localMin == x.amplitude
    && (ex[j].localMin.Some? ==> x.localMin == ex[j].value && x.localMax == ex[j + 1].value)
    && (ex[j].localMax.Some? ==> x.localMax == ex[j].value && x.localMin == ex[j + 1].value)
    && x.duration == ex[j + 2].timestamp - ex[j].timestamp
  }

  /** cs are the cycles of the extrema ex: one per extremum but the last
      two, in order. */
  ghost predicate CyclesPairExtrema(ex: seq<Extremum>, cs: seq<Cycle>) {
    && |cs| == (if |ex| >= 2 then |ex| - 2 else 0)
    && forall j :: 0 <= j < |cs| ==> CycleAt(ex, j, cs[j])
  }

  /** The cycle table of alternating extrema keeps exactly the cycles that
      pair each extremum with the next. */
  lemma AlternatingCycles(ex: seq<Extremum>)
    requires FlagsHoldValue(ex) && Alternating(ex) && |ex| >= 2
    ensures CyclesPairExtrema(ex, DropUntimed(CycleTable(ex)))
  {
    TimedRows(ex);
    var cs := DropUntimed(CycleTable(ex));
    forall j | 0 <= j < |cs| ensures CycleAt(ex, j, cs[j]) {
      AlternatingRow(ex, j);
    }
  }

  /** With fewer than two extrema no row has a duration, so no cycle is
      complete. */
  lemma FewExtremaNoCycles(ex: seq<Extremum>)
    requires |ex| <= 1
    ensures DropUntimed(CycleTable(ex)) == []
  {
    DropUntimedPrefix(CycleTable(ex), 0);
  }

  /** The complete cycles of any signal pair each of its extrema, but the
      last two, with the next one. */
  lemma CompleteCyclesSpan(s: seq<Sample>)
    ensures CyclesPairExtrema(Extrema(Collapse(s)), CompleteCycles(s))
  {
    var c := Collapse(s);
    var ex := Extrema(c);
    if |c| >= 2 {
      ExtremaAlternate(c);
      ExtremaEndpoints(c);
      AlternatingCycles(ex);
    } else {
      assert |ex| <= |c|;
      FewExtremaNoCycles(ex);
    }
  }

  /** In a time-ordered signal every complete cycle lasts a non-negative
      time. */
  lemma CycleDurationsNonNegative(s: seq<Sample>)
    requires TimeOrdered(s)
    ensures forall x :: x in CompleteCycles(s) ==> x.duration >= 0
  {
    var c := Collapse(s);
    var ex := Extrema(c);
    var cs := CompleteCycles(s);
    CompleteCyclesSpan(s);
    CollapseTimeOrdered(s);
    ExtremaTimeOrdered(c);
    forall x | x in cs ensures x.duration >= 0 {
      var j :| 0 <= j < |cs| && cs[j] == x;
      assert CycleAt(ex, j, x);
      assert ex[j].timestamp <= ex[j + 2].timestamp;
    }
  }

  /** The number of complete cycles. */
  lemma CycleCountIsLength(s: seq<Sample>)
    ensures |CompleteCycles(s)| == CycleCount(s)
  {
    CompleteCyclesSpan(s);
  }

  /** Every complete cycle spans from a minimum to a maximum: its amplitude
      is local_max - local_min, which is never negative. */
  lemma CompleteCyclesWellFormed(s: seq<Sample>)
    ensures forall x :: x in CompleteCycles(s) ==> x.amplitude >= 0.0 && x.localMax - x.localMin == x.amplitude
  {
    var cs := CompleteCycles(s);
    CompleteCyclesSpan(s);
    var ex := Extrema(Collapse(s));
    forall x | x in cs ensures x.amplitude >= 0.0 && x.localMax - x.localMin == x.amplitude {
      var j :| 0 <= j < |cs| && cs[j] == x;
      assert CycleAt(ex, j, x);
    }
  }

  /** The first n cycles by decreasing amplitude. */
  lemma LargestFirst(cs: seq<Cycle>, n: nat)
    ensures var r := SortByKey(cs, AmplitudeKey)[..Min(n, |cs|)];
      && |r| == Min(n, |cs|)
      && multiset(r) <= multiset(cs)
      && (forall i, j :: 0 <= i < j < |r| ==> r[i].amplitude >= r[j].amplitude)
      && (forall x, y :: x in r && y in multiset(cs) - multiset(r) ==> x.amplitude >= y.amplitude)
  {
    TopByKey(cs, AmplitudeKey, n);
  }

  /** The first n cycles by increasing amplitude. */
  lemma SmallestFirst(cs: seq<Cycle>, n: nat)
    ensures var r := SortByKey(cs, NegatedAmplitude)[..Min(n, |cs|)];
      && |r| == Min(n, |cs|)
      && multiset(r) <= multiset(cs)
      && (forall i, j :: 0 <= i < j < |r| ==> r[i].amplitude <= r[j].amplitude)
      && (forall x, y :: x in r && y in multiset(cs) - multiset(r) ==> x.amplitude <= y.amplitude)
  {
    TopByKey(cs, NegatedAmplitude, n);
  }

  /** The ranked cycles: min(N, m - 2) of them for m extrema, each a
      complete cycle, ordered by amplitude in the requested direction, and
      no cycle left out beats one returned. */
  lemma RankedCycles(s: seq<Sample>, n: nat, ascending: bool)
    ensures var r := NRankedCycles(s, n, ascending); var cs := CompleteCycles(s);
      && |r| == Min(n, CycleCount(s))
      && multiset(r) <= multiset(cs)
      && (forall i, j :: 0 <= i < j < |r| ==>
            if ascending then r[i].amplitude <= r[j].amplitude else r[i].amplitude >= r[j].amplitude)
      && (forall x, y :: x in r && y in multiset(cs) - multiset(r) ==>
            if ascending then x.amplitude <= y.amplitude else x.amplitude >= y.amplitude)
  {
    var cs := CompleteCycles(s);
    CycleCountIsLength(s);
    if ascending {
      SmallestFirst(cs, n);
    } else {
      LargestFirst(cs, n);
    }
  }

  /** Every returned cycle is one of the complete cycles, so it has a
      non-negative amplitude equal to local_max - local_min, and a
      non-negative duration when the samples are in time order. */
  lemma RankedCyclesWellFormed(s: seq<Sample>, n: nat, ascending: bool)
    ensures forall x :: x in NRankedCycles(s, n, ascending) ==>
      && x in CompleteCycles(s)
      && x.amplitude >= 0.0
      && x.localMax - x.localMin == x.amplitude
      && (TimeOrdered(s) ==> x.duration >= 0)
  {
    var cs := CompleteCycles(s);
    var r := NRankedCycles(s, n, ascending);
    RankedCycles(s, n, ascending);
    CompleteCyclesWellFormed(s);
    if TimeOrdered(s) {
      CycleDurationsNonNegative(s);
    }
    forall x | x in r ensures x in cs {
      assert x in multiset(r);
    }
  }

  /** Asking for at least as many cycles as there are returns all of them,
      the largest-first and the smallest-first answers holding the same
      cycles. */
  lemma AllCyclesWhenFew(s: seq<Sample>, n: nat)
    requires CycleCount(s) <= n
    ensures multiset(NRankedCycles(s, n, false)) == multiset(CompleteCycles(s))
    ensures multiset(NRankedCycles(s, n, true)) == multiset(CompleteCycles(s))
  {
    var cs := CompleteCycles(s);
    CycleCountIsLength(s);
    TopByKey(cs, NegatedAmplitude, n);
    TopByKey(cs, AmplitudeKey, n);
  }

  /** `head(N)` for negative N keeps all but the last -N cycles of the
      ranking: the same as asking for that many. */
  lemma NegativeCycleCount(s: seq<Sample>, n: int, ascending: bool)
    requires n < 0
    ensures NRankedCycles(s, n, ascending) == NRankedCycles(s, Max(CycleCount(s) + n, 0), ascending)
  {
    CycleCountIsLength(s);
  }

  /** A signal with no interior extremum has at most two extrema. */
  lemma AtMostTwoExtrema(c: seq<Sample>)
    requires forall i :: 0 < i < |c| - 1 ==> !IsExtremum(c, i)
    ensures |Extrema(c)| <= 2
  {
    var idx := ExtremumIndices(c, |c|);
    assert |Extrema(c)| == |idx|;
    forall j | 0 <= j < |idx| ensures idx[j] == 0 || idx[j] == |c| - 1 { }
    EndpointsOnly(idx, |c| - 1);
  }

  /** A strictly increasing sequence whose entries are all 0 or m has at
      most two entries. */
  lemma EndpointsOnly(idx: seq<nat>, m: int)
    requires forall j :: 0 <= j < |idx| ==> idx[j] == 0 || idx[j] == m
    requires forall a, b :: 0 <= a < b < |idx| ==> idx[a] < idx[b]
    ensures |idx| <= 2
  {
    // padding gives the first three entries a name without an index check
    var pad := idx + [0, 0, 0];
    var first, second, third := pad[0], pad[1], pad[2];
  }

  /** A monotone signal (non-decreasing or non-increasing) has no complete
      cycle. */
  lemma MonotoneHasNoCycles(s: seq<Sample>, n: int, ascending: bool)
    requires (forall i :: 0 < i < |s| ==> s[i - 1].value <= s[i].value)
          || (forall i :: 0 < i < |s| ==> s[i - 1].value >= s[i].value)
    ensures CycleCount(s) == 0
    ensures NRankedCycles(s, n, ascending) == []
  {
    var c := Collapse(s);
    if forall i :: 0 < i < |s| ==> s[i - 1].value <= s[i].value {
      CollapseOfRising(s);
      forall i | 0 < i < |c| - 1 ensures !IsExtremum(c, i) {
        FlagsByRealNeighbours(c, i);
        assert c[i - 1].value < c[i].value && c[i].value < c[i + 1].value;
      }
    } else {
      CollapseOfFalling(s);
      forall i | 0 < i < |c| - 1 ensures !IsExtremum(c, i) {
        FlagsByRealNeighbours(c, i);
        assert c[i - 1].value > c[i].value && c[i].value > c[i + 1].value;
      }
    }
    AtMostTwoExtrema(c);
    CycleCountIsLength(s);
  }

  // ---------------------------------------------------------------------
  // A worked example: the signal 1,1,1,2,2,2,1,1,1,5,5, one sample a tick.

  /** Extending a prefix by a sample whose value differs from its
      predecessor's keeps that sample. */
  lemma CollapseChange(s: seq<Sample>, k: nat, c: seq<Sample>)
    requires 1 <= k < |s| && Collapse(s[..k]) == c && s[k].value != s[k - 1].value
    ensures Collapse(s[..k + 1]) == c + [s[k]]
  {
    assert s[..k + 1][..k] == s[..k];
  }

  /** Extending a prefix by a repeat of its last value adds nothing. */
  lemma CollapseRepeat(s: seq<Sample>, k: nat, c: seq<Sample>)
    requires 1 <= k < |s| && Collapse(s[..k]) == c && s[k].value == s[k - 1].value
    ensures Collapse(s[..k + 1]) == c
  {
    assert s[..k + 1][..k] == s[..k];
  }

  /** The change points of a signal 1,1,1,2,2,2,1,1,1,5,5 are its samples 0,
      3, 6 and 9. */
  lemma ExampleCollapse(s: seq<Sample>)
    requires |s| == 11
    requires s[0].value == s[1].value == s[2].value == 1.0
    requires s[3].value == s[4].value == s[5].value == 2.0
    requires s[6].value == s[7].value == s[8].value == 1.0
    requires s[9].value == s[10].value == 5.0
    ensures Collapse(s) == [s[0], s[3], s[6], s[9]]
  {
    assert s[..1] == [s[0]];
    CollapseRepeat(s, 1, [s[0]]);
    CollapseRepeat(s, 2, [s[0]]);
    CollapseChange(s, 3, [s[0]]);
    CollapseRepeat(s, 4, [s[0], s[3]]);
    CollapseRepeat(s, 5, [s[0], s[3]]);
    CollapseChange(s, 6, [s[0], s[3]]);
    CollapseRepeat(s, 7, [s[0], s[3], s[6]]);
    CollapseRepeat(s, 8, [s[0], s[3], s[6]]);
    CollapseChange(s, 9, [s[0], s[3], s[6]]);
    CollapseRepeat(s, 10, [s[0], s[3], s[6], s[9]]);
    assert s[..11] == s;
  }

  /** How 1, 2, 1, 5 is flagged, judged by real neighbours only. */
  lemma ExampleTurns(c: seq<Sample>)
    requires |c| == 4 && c[0].value == 1.0 && c[1].value == 2.0 && c[2].value == 1.0 && c[3].value == 5.0
    ensures IsLocalMin(c, 0) && !IsLocalMax(c, 0)
    ensures IsLocalMax(c, 1) && !IsLocalMin(c, 1)
    ensures IsLocalMin(c, 2) && !IsLocalMax(c, 2)
    ensures IsLocalMax(c, 3) && !IsLocalMin(c, 3)
  {
    FlagsByRealNeighbours(c, 0);
    FlagsByRealNeighbours(c, 1);
    FlagsByRealNeighbours(c, 2);
    FlagsByRealNeighbours(c, 3);
  }

  /** When every sample below k is flagged, the flagged indices are
      0, 1, ..., k - 1. */
  lemma {:induction false} AllFlagged(c: seq<Sample>, k: nat)
    requires k <= |c| && forall i :: 0 <= i < k ==> IsExtremum(c, i)
    ensures |ExtremumIndices(c, k)| == k
    ensures forall j :: 0 <= j < k ==> ExtremumIndices(c, k)[j] == j
  {
    if k > 0 {
      var prev := ExtremumIndices(c, k - 1);
      AllFlagged(c, k - 1);
      assert ExtremumIndices(c, k) == prev + [k - 1] by {
        assert IsExtremum(c, k - 1);
      }
    }
  }

  /** Every one of the four change points 1, 2, 1, 5 is flagged. */
  lemma ExampleIndices(c: seq<Sample>)
    requires |c| == 4 && IsExtremum(c, 0) && IsExtremum(c, 1) && IsExtremum(c, 2) && IsExtremum(c, 3)
    ensures ExtremumIndices(c, 4) == [0, 1, 2, 3]
  {
    assert forall i :: 0 <= i < 4 ==> IsExtremum(c, i) by {
      forall i | 0 <= i < 4 ensures IsExtremum(c, i) {
        assert i == 0 || i == 1 || i == 2 || i == 3;
      }
    }
    AllFlagged(c, 4);
  }

  /** All four change points 1, 2, 1, 5 are extrema: minimum, maximum,
      minimum, and the last one, a maximum. */
  lemma ExampleExtrema(c: seq<Sample>)
    requires |c| == 4 && c[0].value == 1.0 && c[1].value == 2.0 && c[2].value == 1.0 && c[3].value == 5.0
    ensures Extrema(c) == [Extremum(c[0].timestamp, 1.0, Some(1.0), None), Extremum(c[1].timestamp, 2.0, None, Some(2.0)),
                           Extremum(c[2].timestamp, 1.0, Some(1.0), None), Extremum(c[3].timestamp, 5.0, None, Some(5.0))]
  {
    ExampleTurns(c);
    ExampleIndices(c);
    var ex := Extrema(c);
    assert |ex| == 4;
    assert ex[0] == FlagRow(c, 0) && ex[1] == FlagRow(c, 1) && ex[2] == FlagRow(c, 2) && ex[3] == FlagRow(c, 3);
  }

  /** The example has two complete cycles, each from 1 up to 2 and back,
      lasting 6 ticks; the rise to 5 completes none. */
  lemma ExampleCycles(s: seq<Sample>)
    requires s == [Sample(0, 1.0), Sample(1, 1.0), Sample(2, 1.0), Sample(3, 2.0), Sample(4, 2.0), Sample(5, 2.0),
                 Sample(6, 1.0), Sample(7, 1.0), Sample(8, 1.0), Sample(9, 5.0), Sample(10, 5.0)]
    ensures CompleteCycles(s) == [Cycle(1.0, 1.0, 2.0, 6), Cycle(1.0, 1.0, 2.0, 6)]
  {
    ExampleCollapse(s);
    ExampleExtrema(Collapse(s));
    CompleteCyclesSpan(s);
    ExampleCyclesOfExtrema(Extrema(Collapse(s)), CompleteCycles(s));
  }

  /** The cycles of the extrema 1, 2, 1, 5 at times 0, 3, 6, 9. */
  lemma ExampleCyclesOfExtrema(ex: seq<Extremum>, cs: seq<Cycle>)
    requires ex == [Extremum(0, 1.0, Some(1.0), None), Extremum(3, 2.0, None, Some(2.0)),
                    Extremum(6, 1.0, Some(1.0), None), Extremum(9, 5.0, None, Some(5.0))]
    requires CyclesPairExtrema(ex, cs)
    ensures cs == [Cycle(1.0, 1.0, 2.0, 6), Cycle(1.0, 1.0, 2.0, 6)]
  {
    assert CycleAt(ex, 0, cs[0]) && CycleAt(ex, 1, cs[1]);
  }

  /** The largest complete cycle of 1,1,1,2,2,2,1,1,1,5,5 has amplitude 1:
      the jump to 5 is never a complete cycle. */
  lemma CycleAmplitudeExample(s: seq<Sample>)
    requires s == [Sample(0, 1.0), Sample(1, 1.0), Sample(2, 1.0), Sample(3, 2.0), Sample(4, 2.0), Sample(5, 2.0),
                 Sample(6, 1.0), Sample(7, 1.0), Sample(8, 1.0), Sample(9, 5.0), Sample(10, 5.0)]
    ensures CycleCount(s) == 2
    ensures forall x :: x in CompleteCycles(s) ==> x.amplitude == 1.0
    ensures NRankedCycles(s, 1, false) == [Cycle(1.0, 1.0, 2.0, 6)]
  {
    ExampleCycles(s);
    CycleCountIsLength(s);
    RankedCycles(s, 1, false);
    var r := NRankedCycles(s, 1, false);
    assert r[0] in multiset(r);
  }
}
