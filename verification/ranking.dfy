/** What the rankings of the analysis share: the distinct values of a column
    in order of first appearance (the group order of `collections.Counter` and
    of `groupby(sort=False)`), and a stable sort that puts the largest key
    first (`sorted(..., reverse=True)` in `Counter.most_common`). */
module Ranking {
  import opened Series

  /** No element occurs twice. */
  predicate NoDuplicates<T(==)>(s: seq<T>) {
    forall i, j :: 0 <= i < j < |s| ==> s[i] != s[j]
  }

  /** Index of the first occurrence of x in s. */
  function FirstIndex<T(==)>(s: seq<T>, x: T): (i: nat)
    requires x in s
    ensures i < |s| && s[i] == x
    ensures forall k :: 0 <= k < i ==> s[k] != x
  {
    if x in s[..|s| - 1] then FirstIndex(s[..|s| - 1], x) else |s| - 1
  }

  /** The distinct elements of s, in order of first appearance. */
  function Distinct<T(==,!new)>(s: seq<T>): (d: seq<T>)
    ensures NoDuplicates(d)
    ensures forall x :: x in d <==> x in s
  {
    if s == [] then []
    else
      var d := Distinct(s[..|s| - 1]);
      if s[|s| - 1] in d then d else d + [s[|s| - 1]]
  }

  /** Distinct lists the values of s by increasing first appearance. */
  lemma {:induction false} DistinctInFirstAppearanceOrder<T(!new)>(s: seq<T>)
    ensures forall i, j :: 0 <= i < j < |Distinct(s)| ==>
              FirstIndex(s, Distinct(s)[i]) < FirstIndex(s, Distinct(s)[j])
  {
    if s != [] {
      var p := s[..|s| - 1];
      DistinctInFirstAppearanceOrder(p);
      var d := Distinct(p);
      forall x | x in p ensures FirstIndex(s, x) == FirstIndex(p, x) { }
    }
  }

  /** A value with the weight it is ranked by (a count, or a total time). */
  datatype Tally = Tally(value: real, weight: int)

  function Weight(t: Tally): real { t.weight as real }

  /** The value column of a list of tallies. */
  function ValuesOf(ts: seq<Tally>): (vs: seq<real>)
    ensures |vs| == |ts|
  {
    seq(|ts|, i requires 0 <= i < |ts| => ts[i].value)
  }

  /** s lists its elements from the largest key to the smallest. */
  predicate SortedByKey<T>(s: seq<T>, key: T -> real) {
    forall i, j :: 0 <= i < j < |s| ==> key(s[i]) >= key(s[j])
  }

  /** Inserts x in front of the first element whose key is not larger. */
  function Insert<T(==)>(x: T, r: seq<T>, key: T -> real): (r': seq<T>)
    requires SortedByKey(r, key)
    ensures SortedByKey(r', key)
    ensures multiset(r') == multiset(r) + multiset{x}
  {
    if r == [] || key(r[0]) <= key(x) then [x] + r
    else
      var rest := Insert(x, r[1..], key);
      assert r == [r[0]] + r[1..];
      HeadDominates(r[0], x, r[1..], rest, key);
      [r[0]] + rest
  }

  /** A head whose key bounds every element of rest keeps [head] + rest sorted. */
  lemma HeadDominates<T>(head: T, x: T, tail: seq<T>, rest: seq<T>, key: T -> real)
    requires SortedByKey([head] + tail, key) && SortedByKey(rest, key)
    requires key(x) < key(head)
    requires multiset(rest) == multiset(tail) + multiset{x}
    ensures SortedByKey([head] + rest, key)
  {
    forall y | y in rest ensures key(head) >= key(y) {
      assert y in multiset(rest);
      if y != x {
        assert y in multiset(tail);
        var k :| 0 <= k < |tail| && tail[k] == y;
        var s := [head] + tail;
        assert s[0] == head && s[k + 1] == y;
        assert key(s[0]) >= key(s[k + 1]);
      }
    }
  }

  /** Insertion sort, largest key first; elements with equal keys keep their
      order (see SortByKeyKeepsTieOrder). */
  function SortByKey<T(==)>(s: seq<T>, key: T -> real): (r: seq<T>)
    ensures SortedByKey(r, key)
    ensures multiset(r) == multiset(s)
    ensures |r| == |s|
  {
    if s == [] then []
    else
      assert s == [s[0]] + s[1..];
      Insert(s[0], SortByKey(s[1..], key), key)
  }

  /** Equal-key pairs of s appear in increasing order of pos. */
  predicate TiesOrderedBy<T>(s: seq<T>, key: T -> real, pos: T -> int) {
    forall i, j :: 0 <= i < j < |s| && key(s[i]) == key(s[j]) ==> pos(s[i]) < pos(s[j])
  }

  lemma {:induction false} InsertKeepsTieOrder<T>(x: T, r: seq<T>, key: T -> real, pos: T -> int)
    requires SortedByKey(r, key) && TiesOrderedBy(r, key, pos)
    requires forall y :: y in r ==> pos(x) < pos(y)
    ensures TiesOrderedBy(Insert(x, r, key), key, pos)
  {
    if r == [] || key(r[0]) <= key(x) {
      var r' := [x] + r;
      forall i, j | 0 <= i < j < |r'| && key(r'[i]) == key(r'[j]) ensures pos(r'[i]) < pos(r'[j]) {
        assert r'[j] == r[j - 1];
        if i > 0 {
          assert r'[i] == r[i - 1];
        } else {
          assert r[j - 1] in r;
        }
      }
    } else {
      var rest := Insert(x, r[1..], key);
      InsertKeepsTieOrder(x, r[1..], key, pos);
      var r' := [r[0]] + rest;
      forall i, j | 0 <= i < j < |r'| && key(r'[i]) == key(r'[j]) ensures pos(r'[i]) < pos(r'[j]) {
        assert r'[j] == rest[j - 1];
        if i > 0 {
          assert r'[i] == rest[i - 1];
        } else {
          HeadPrecedesTies(x, r, rest[j - 1], key, pos);
        }
      }
    }
  }

  /** An element of the insertion into r's tail that ties with r's head
      comes after it. */
  lemma HeadPrecedesTies<T>(x: T, r: seq<T>, y: T, key: T -> real, pos: T -> int)
    requires r != [] && SortedByKey(r, key) && TiesOrderedBy(r, key, pos)
    requires forall z :: z in r ==> pos(x) < pos(z)
    requires y in multiset(Insert(x, r[1..], key)) && key(r[0]) == key(y) && key(r[0]) > key(x)
    ensures pos(r[0]) < pos(y)
  {
    if y != x {
      assert y in multiset(r[1..]);
      assert y in r[1..];
      var k :| 0 <= k < |r[1..]| && r[1..][k] == y;
      assert r[k + 1] == y;
    }
  }


  /** Stability: if pos increases along s, then among elements of equal key
      SortByKey keeps increasing pos, that is, the order they had in s. */
  lemma {:induction false} SortByKeyKeepsTieOrder<T>(s: seq<T>, key: T -> real, pos: T -> int)
    requires forall i, j :: 0 <= i < j < |s| ==> pos(s[i]) < pos(s[j])
    ensures TiesOrderedBy(SortByKey(s, key), key, pos)
  {
    if s != [] {
      SortByKeyKeepsTieOrder(s[1..], key, pos);
      var r := SortByKey(s[1..], key);
      forall y | y in r ensures pos(s[0]) < pos(y) {
        assert y in multiset(s[1..]);
        var k :| 0 <= k < |s[1..]| && s[1..][k] == y;
        assert s[k + 1] == y;
      }
      InsertKeepsTieOrder(s[0], r, key, pos);
    }
  }

  /** Each distinct value of `values` weighted by w, in order of first
      appearance: the items of a Counter, the groups of `groupby(sort=False)`. */
  function TalliesBy(values: seq<real>, w: real -> int): seq<Tally> {
    var d := Distinct(values);
    seq(|d|, i requires 0 <= i < |d| => Tally(d[i], w(d[i])))
  }

  /** The distinct values of `values`, heaviest first. */
  function RankBy(values: seq<real>, w: real -> int): seq<real> {
    ValuesOf(SortByKey(TalliesBy(values, w), Weight))
  }

  /** Where a tally's value first appears in the series. */
  function AppearancePos(values: seq<real>, t: Tally): int {
    if t.value in values then FirstIndex(values, t.value) else |values|
  }

  /** rv ranks the distinct values of `values` by w: each exactly once, by
      non-increasing weight, equal weights in order of first appearance. */
  ghost predicate IsRankingBy(values: seq<real>, rv: seq<real>, w: real -> int) {
    && |rv| == |Distinct(values)|
    && (forall v :: v in rv <==> v in values)
    && NoDuplicates(rv)
    && (forall i, j :: 0 <= i < j < |rv| ==> w(rv[i]) >= w(rv[j]))
    && (forall i, j :: 0 <= i < j < |rv| && w(rv[i]) == w(rv[j]) ==>
          FirstIndex(values, rv[i]) < FirstIndex(values, rv[j]))
  }

  /** Every tally of the sorted list is one of TalliesBy's: a value of the
      series with its weight. */
  lemma SortedTalliesAreTallies(values: seq<real>, w: real -> int)
    ensures forall t :: t in SortByKey(TalliesBy(values, w), Weight) ==> t.value in values && t.weight == w(t.value)
  {
    var c := TalliesBy(values, w);
    forall t | t in SortByKey(c, Weight) ensures t.value in values && t.weight == w(t.value) {
      assert t in multiset(c);
    }
  }

  /** Every value of the series is ranked. */
  lemma RankByComplete(values: seq<real>, w: real -> int)
    ensures forall v :: v in values ==> v in RankBy(values, w)
  {
    var c := TalliesBy(values, w);
    var mc := SortByKey(c, Weight);
    var d := Distinct(values);
    forall v | v in values ensures v in RankBy(values, w) {
      var k :| 0 <= k < |d| && d[k] == v;
      assert c[k] in multiset(mc);
      var i :| 0 <= i < |mc| && mc[i] == c[k];
      assert RankBy(values, w)[i] == v;
    }
  }

  /** RankBy is a ranking by w. */
  lemma RankByIsRanking(values: seq<real>, w: real -> int)
    ensures IsRankingBy(values, RankBy(values, w), w)
  {
    var c := TalliesBy(values, w);
    var mc := SortByKey(c, Weight);
    var rv := RankBy(values, w);
    var pos := t => AppearancePos(values, t);
    DistinctInFirstAppearanceOrder(values);
    assert forall i, j :: 0 <= i < j < |c| ==> pos(c[i]) < pos(c[j]);
    SortByKeyKeepsTieOrder(c, Weight, pos);
    SortedTalliesAreTallies(values, w);
    RankByComplete(values, w);
    forall i | 0 <= i < |mc| ensures mc[i] == Tally(rv[i], w(rv[i])) && rv[i] in values {
      assert mc[i] in mc;
    }
    forall i, j | 0 <= i < j < |rv| ensures rv[i] != rv[j] { }
    forall i, j | 0 <= i < j < |rv| ensures w(rv[i]) >= w(rv[j]) {
      assert Weight(mc[i]) >= Weight(mc[j]);
    }
    forall i, j | 0 <= i < j < |rv| && w(rv[i]) == w(rv[j])
      ensures FirstIndex(values, rv[i]) < FirstIndex(values, rv[j])
    {
      assert Weight(mc[i]) == Weight(mc[j]);
      assert pos(mc[i]) < pos(mc[j]);
    }
  }

  /** r is a heaviest part of `values` under w: distinct values of the
      series, heaviest first, none left out heavier than one kept. */
  ghost predicate HeaviestOf(values: seq<real>, r: seq<real>, w: real -> int) {
    && NoDuplicates(r)
    && (forall v :: v in r ==> v in values)
    && (forall i, j :: 0 <= i < j < |r| ==> w(r[i]) >= w(r[j]))
    && (forall v, u :: v in r && u in values && u !in r ==> w(v) >= w(u))
  }

  /** r is a lightest part of `values` under w: distinct values of the
      series, heaviest first, none left out lighter than one kept. */
  ghost predicate LightestOf(values: seq<real>, r: seq<real>, w: real -> int) {
    && NoDuplicates(r)
    && (forall v :: v in r ==> v in values)
    && (forall i, j :: 0 <= i < j < |r| ==> w(r[i]) >= w(r[j]))
    && (forall v, u :: v in r && u in values && u !in r ==> w(v) <= w(u))
  }

  /** The first k of a ranking are a heaviest part. */
  lemma RankingPrefix(values: seq<real>, rv: seq<real>, w: real -> int, k: nat)
    requires IsRankingBy(values, rv, w) && k <= |rv|
    ensures HeaviestOf(values, rv[..k], w)
  {
    var r := rv[..k];
    forall i, j | 0 <= i < j < k ensures r[i] != r[j] && w(r[i]) >= w(r[j]) {
      assert r[i] == rv[i] && r[j] == rv[j];
    }
    forall v | v in r ensures v in values {
      var i :| 0 <= i < k && r[i] == v;
      assert rv[i] == v;
    }
    forall v, u | v in r && u in values && u !in r ensures w(v) >= w(u) {
      var i :| 0 <= i < k && rv[i] == v;
      var j :| 0 <= j < |rv| && rv[j] == u;
    }
  }

  /** The last k of a ranking are a lightest part. */
  lemma RankingSuffix(values: seq<real>, rv: seq<real>, w: real -> int, k: nat)
    requires IsRankingBy(values, rv, w) && k <= |rv|
    ensures LightestOf(values, rv[|rv| - k..], w)
  {
    var off := |rv| - k;
    var r := rv[off..];
    forall i, j | 0 <= i < j < k ensures w(r[i]) >= w(r[j]) {
      assert r[i] == rv[off + i] && r[j] == rv[off + j];
    }
    forall v, u | v in r && u in values && u !in r ensures w(v) <= w(u) {
      var i :| off <= i < |rv| && rv[i] == v;
      var j :| 0 <= j < |rv| && rv[j] == u;
    }
    forall i, j | 0 <= i < j < k ensures r[i] != r[j] {
      assert rv[off + i] != rv[off + j];
    }
  }

  /** Python's `s[:n]` (also `s[0:n]` and pandas' `head(n)`): the first n
      elements, or, for negative n, all but the last -n. */
  function Take<T(==)>(s: seq<T>, n: int): (r: seq<T>)
    ensures |r| == if n >= 0 then Min(n, |s|) else Max(|s| + n, 0)
    ensures r <= s
  {
    if n >= 0 then s[..Min(n, |s|)] else s[..Max(|s| + n, 0)]
  }

  /** Python's `s[-n:]`: the last n elements; for n = 0 this is `s[0:]`,
      all of s, and for negative n all but the first -n. */
  function TakeLast<T(==)>(s: seq<T>, n: int): (r: seq<T>)
    ensures |r| == if n > 0 then Min(n, |s|) else if n == 0 then |s| else Max(|s| + n, 0)
    ensures IsSuffix(r, s)
  {
    if n > 0 then s[|s| - Min(n, |s|)..] else s[Min(-n, |s|)..]
  }

  /** r ends s. */
  predicate IsSuffix<T(==)>(r: seq<T>, s: seq<T>) {
    |r| <= |s| && s[|s| - |r|..] == r
  }

  /** The first min(n, d) of the ranking of d distinct values are a
      heaviest part, and all of them when n reaches d. */
  lemma RankByTop(values: seq<real>, w: real -> int, n: nat)
    ensures var rv := RankBy(values, w); var r := Take(rv, n);
      && |rv| == |Distinct(values)|
      && HeaviestOf(values, r, w)
      && (n >= |rv| ==> forall v :: v in values ==> v in r)
  {
    var rv := RankBy(values, w);
    RankByIsRanking(values, w);
    RankingPrefix(values, rv, w, Min(n, |rv|));
    if n >= |rv| {
      assert rv[..Min(n, |rv|)] == rv;
    }
  }

  /** The last min(n, d) of the ranking of d distinct values are a lightest
      part, and all of them when n reaches d. */
  lemma RankByBottom(values: seq<real>, w: real -> int, n: nat)
    requires n >= 1
    ensures var rv := RankBy(values, w); var r := TakeLast(rv, n);
      && |rv| == |Distinct(values)|
      && LightestOf(values, r, w)
      && (n >= |rv| ==> forall v :: v in values ==> v in r)
  {
    var rv := RankBy(values, w);
    RankByIsRanking(values, w);
    RankingSuffix(values, rv, w, Min(n, |rv|));
    if n >= |rv| {
      assert rv[|rv| - Min(n, |rv|)..] == rv;
    }
  }

  /** The first k of s sorted by key: min(k, |s|) elements of s, largest key
      first, none left out with a larger key than one kept, and all of s when
      k reaches |s|. */
  lemma TopByKey<T>(s: seq<T>, key: T -> real, k: nat)
    ensures var r := SortByKey(s, key)[..Min(k, |s|)];
      && |r| == Min(k, |s|)
      && multiset(r) <= multiset(s)
      && (forall i, j :: 0 <= i < j < |r| ==> key(r[i]) >= key(r[j]))
      && (forall x, y :: x in r && y in multiset(s) - multiset(r) ==> key(x) >= key(y))
      && (k >= |s| ==> multiset(r) == multiset(s))
  {
    var sorted := SortByKey(s, key);
    var m := Min(k, |s|);
    SortedSplit(sorted, key, m);
    if k >= |s| {
      assert sorted[..m] == sorted;
    }
  }

  /** Splitting a sorted sequence: the front is sorted, its multiset is part
      of the whole, and nothing behind it has a larger key. */
  lemma SortedSplit<T>(sorted: seq<T>, key: T -> real, m: nat)
    requires SortedByKey(sorted, key) && m <= |sorted|
    ensures var r := sorted[..m];
      && multiset(r) <= multiset(sorted)
      && (forall i, j :: 0 <= i < j < |r| ==> key(r[i]) >= key(r[j]))
      && (forall x, y :: x in r && y in multiset(sorted) - multiset(r) ==> key(x) >= key(y))
  {
    var r := sorted[..m];
    var rest := sorted[m..];
    assert sorted == r + rest;
    assert multiset(sorted) == multiset(r) + multiset(rest);
    forall i, j | 0 <= i < j < m ensures key(r[i]) >= key(r[j]) {
      assert r[i] == sorted[i] && r[j] == sorted[j];
    }
    forall x, y | x in r && y in multiset(sorted) - multiset(r) ensures key(x) >= key(y) {
      assert y in multiset(rest);
      KeptBeatsRest(sorted, key, m, x, y);
    }
  }

  /** In a sorted sequence, an element before position m has a key no
      smaller than one from position m on. */
  lemma KeptBeatsRest<T>(sorted: seq<T>, key: T -> real, m: nat, x: T, y: T)
    requires SortedByKey(sorted, key) && m <= |sorted|
    requires x in sorted[..m] && y in multiset(sorted[m..])
    ensures key(x) >= key(y)
  {
    var rest := sorted[m..];
    assert y in rest;
    var i :| 0 <= i < m && sorted[..m][i] == x;
    var j :| 0 <= j < |rest| && rest[j] == y;
    assert sorted[i] == x && sorted[m + j] == y;
  }
}
