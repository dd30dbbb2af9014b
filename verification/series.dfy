/** The samples of one unit's signal: a timestamp in nanoseconds (already
    parsed) and the recorded value, in the caller's order. */
module Series {

  /** One row of a unit's table: `timestamp_utc` and `sig_value`. */
  datatype Sample = Sample(timestamp: int, value: real)

  /** The `sig_value` column. */
  function Values(s: seq<Sample>): (vs: seq<real>)
    ensures |vs| == |s|
  {
    seq(|s|, i requires 0 <= i < |s| => s[i].value)
  }

  /** Timestamps never go backwards. */
  predicate TimeOrdered(s: seq<Sample>) {
    forall i, j :: 0 <= i < j < |s| ==> s[i].timestamp <= s[j].timestamp
  }

  function Min(a: int, b: int): int { if a <= b then a else b }

  function Max(a: int, b: int): int { if a >= b then a else b }

  function Abs(x: real): real { if x < 0.0 then -x else x }
}
