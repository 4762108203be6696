/** The counting of `three_set_exec` in `src/network/main_execs/execs.rs`:
    for every country of any file, how many files put it low, middle or
    high, and its delta in each file; then the rows sorted by a weight of
    those counts. */
module ThreeSetExec {
  import opened Common
  import opened Float
  import opened Sorting
  import opened ThreeSets

  /** How many of a file's maps hold country `i`; the `t` of the loop. */
  function Hits(s: Sets, i: nat): (t: nat)
    ensures t <= 3
  {
    (if i in s.high then 1 else 0) + (if i in s.middle then 1 else 0) + (if i in s.low then 1 else 0)
  }

  /** The delta the loop records for one file: high, then middle, then low
      overwrite it in turn, so the last map holding the country wins; NaN
      when none does. */
  function DeltaIn(s: Sets, i: nat): F64
  {
    if i in s.low then s.low[i]
    else if i in s.middle then s.middle[i]
    else if i in s.high then s.high[i]
    else NaN
  }

  /** The number of files whose map of category `cat` holds `i`. */
  function CountIn(ss: seq<Sets>, i: nat, cat: Category): nat
  {
    if ss == [] then 0
    else CountIn(ss[..|ss| - 1], i, cat) + (if i in Part(ss[|ss| - 1], cat) then 1 else 0)
  }

  /** The number of files holding `i` in any of their maps. */
  function FilesWith(ss: seq<Sets>, i: nat): nat
  {
    if ss == [] then 0
    else FilesWith(ss[..|ss| - 1], i) + (if Hits(ss[|ss| - 1], i) > 0 then 1 else 0)
  }

  function Keys(s: Sets): set<nat>
  {
    s.low.Keys + s.middle.Keys + s.high.Keys
  }

  /** `all`: the countries of every map of every file. */
  function AllCountries(ss: seq<Sets>): set<nat>
  {
    if ss == [] then {} else AllCountries(ss[..|ss| - 1]) + Keys(ss[|ss| - 1])
  }

  /** Some file holds `i` in two of its maps; `assert!(t <= 1)` fails. */
  ghost predicate Clash(ss: seq<Sets>, i: nat)
  {
    exists j :: 0 <= j < |ss| && Hits(ss[j], i) > 1
  }

  /** `Tmp`. */
  datatype Row = Row(low: nat, middle: nat, high: nat, country: nat, deltas: seq<F64>)

  /** The row the loop builds for country `i`. */
  ghost predicate RowOf(ss: seq<Sets>, i: nat, row: Row)
  {
    row.country == i &&
    row.low == CountIn(ss, i, Low) && row.middle == CountIn(ss, i, Middle) && row.high == CountIn(ss, i, High) &&
    |row.deltas| == |ss| && forall j :: 0 <= j < |ss| ==> row.deltas[j] == DeltaIn(ss[j], i)
  }

  /** The key of `sort_by_cached_key`. */
  function RowKey(row: Row): int
  {
    row.middle * 2 + row.low + row.high * 3
  }

  lemma {:induction false} CountSnoc(ss: seq<Sets>, s: Sets, i: nat)
    ensures CountIn(ss + [s], i, Low) == CountIn(ss, i, Low) + (if i in s.low then 1 else 0)
    ensures CountIn(ss + [s], i, Middle) == CountIn(ss, i, Middle) + (if i in s.middle then 1 else 0)
    ensures CountIn(ss + [s], i, High) == CountIn(ss, i, High) + (if i in s.high then 1 else 0)
    ensures FilesWith(ss + [s], i) == FilesWith(ss, i) + (if Hits(s, i) > 0 then 1 else 0)
    ensures AllCountries(ss + [s]) == AllCountries(ss) + Keys(s)
  {
    assert (ss + [s])[..|ss|] == ss;
  }

  /** When no file holds a country twice, its three counts add up to the
      number of files holding it, which is at most the number of files. */
  lemma {:induction false} CountsBound(ss: seq<Sets>, i: nat)
    requires !Clash(ss, i)
    ensures CountIn(ss, i, Low) + CountIn(ss, i, Middle) + CountIn(ss, i, High) == FilesWith(ss, i)
    ensures FilesWith(ss, i) <= |ss|
  {
    if ss != [] {
      var ss' := ss[..|ss| - 1];
      assert ss' + [ss[|ss| - 1]] == ss;
      CountSnoc(ss', ss[|ss| - 1], i);
      assert Hits(ss[|ss| - 1], i) <= 1;
      assert !Clash(ss', i) by {
        forall j | 0 <= j < |ss'|
          ensures Hits(ss'[j], i) <= 1
        {
          assert ss'[j] == ss[j];
        }
      }
      CountsBound(ss', i);
    }
  }

  /** A country is among all countries exactly when some file holds it. */
  lemma {:induction false} AllCountriesMember(ss: seq<Sets>, i: nat)
    ensures i in AllCountries(ss) <==> exists j :: 0 <= j < |ss| && Hits(ss[j], i) > 0
  {
    if ss != [] {
      var ss' := ss[..|ss| - 1];
      assert ss' + [ss[|ss| - 1]] == ss;
      CountSnoc(ss', ss[|ss| - 1], i);
      AllCountriesMember(ss', i);
      assert forall j :: 0 <= j < |ss'| ==> ss'[j] == ss[j];
    }
  }

  /** The maps that `to_three_sets` builds hold finite deltas only. */
  ghost predicate FiniteSets(s: Sets)
  {
    (forall c :: c in s.low ==> IsFinite(s.low[c])) &&
    (forall c :: c in s.middle ==> IsFinite(s.middle[c])) &&
    (forall c :: c in s.high ==> IsFinite(s.high[c]))
  }

  /** With finite maps, a recorded delta is finite exactly when the file
      holds the country, so the finite deltas the averages use are one per
      file holding it. */
  lemma {:induction false} FiniteDelta(s: Sets, i: nat)
    requires FiniteSets(s)
    ensures IsFinite(DeltaIn(s, i)) <==> Hits(s, i) > 0
  {
  }

  /** The sets `to_three_sets` reads are finite in this sense. */
  lemma {:induction false} SetsOfFinite(d: seq<string>, low: F64, high: F64, read: LineReader)
    requires SetsOf(d, low, high, read).Ok?
    ensures FiniteSets(SetsOf(d, low, high, read).value)
  {
    var s := SetsOf(d, low, high, read).value;
    forall c, cat | c in Part(s, cat)
      ensures IsFinite(Part(s, cat)[c])
    {
      SetsOfClassified(d, low, high, read, c, cat);
    }
    assert forall c :: c in s.low ==> IsFinite(Part(s, Low)[c]);
    assert forall c :: c in s.middle ==> IsFinite(Part(s, Middle)[c]);
    assert forall c :: c in s.high ==> IsFinite(Part(s, High)[c]);
  }

  /** The inner loop of `three_set_exec` for country `i`. */
  method RowFor(ss: seq<Sets>, i: nat) returns (r: Result<Row>)
    ensures r.Abort? <==> Clash(ss, i)
    ensures r.Ok? ==> RowOf(ss, i, r.value)
    ensures r.Ok? ==> r.value.low + r.value.middle + r.value.high <= |ss|
  {
    var low, middle, high := 0, 0, 0;
    var deltas := [];
    for j := 0 to |ss|
      invariant low == CountIn(ss[..j], i, Low) && middle == CountIn(ss[..j], i, Middle) && high == CountIn(ss[..j], i, High)
      invariant |deltas| == j && forall k :: 0 <= k < j ==> deltas[k] == DeltaIn(ss[k], i)
      invariant forall k :: 0 <= k < j ==> Hits(ss[k], i) <= 1
    {
      var s := ss[j];
      var t, delta;
      low, middle, high, t, delta := VisitFile(s, i, low, middle, high);
      deltas := deltas + [delta];
      assert ss[..j + 1] == ss[..j] + [s];
      CountSnoc(ss[..j], s, i);
      if t > 1 {
        return Abort("assertion failed: t <= 1");
      }
    }
    assert ss[..|ss|] == ss;
    CountsBound(ss, i);
    r := Ok(Row(low, middle, high, i, deltas));
  }

  /** The body of the inner loop for one file: each map holding `i` counts
      it and sets the delta, and `t` is the number of maps holding it. */
  method VisitFile(s: Sets, i: nat, low: nat, middle: nat, high: nat) returns (low': nat, middle': nat, high': nat, t: nat, delta: F64)
    ensures low' == low + (if i in s.low then 1 else 0)
    ensures middle' == middle + (if i in s.middle then 1 else 0)
    ensures high' == high + (if i in s.high then 1 else 0)
    ensures t == Hits(s, i) && delta == DeltaIn(s, i)
  {
    low', middle', high' := low, middle, high;
    delta := NaN;
    t := 0;
    if i in s.high {
      high', t, delta := high' + 1, t + 1, s.high[i];
    }
    if i in s.middle {
      middle', t, delta := middle' + 1, t + 1, s.middle[i];
    }
    if i in s.low {
      low', t, delta := low' + 1, t + 1, s.low[i];
    }
  }

  /** The rows for the countries taken so far, in ascending order; every
      country still to do is larger than those taken. */
  ghost predicate RowsState(ss: seq<Sets>, todo: set<nat>, rows: seq<Row>)
  {
    todo <= AllCountries(ss) &&
    (forall i: nat :: i in Countries(rows) <==> i in AllCountries(ss) && i !in todo) &&
    StrictlyIncreasing(Countries(rows)) &&
    (forall k, i :: 0 <= k < |rows| && i in todo ==> rows[k].country < i) &&
    (forall k :: 0 <= k < |rows| ==> RowOf(ss, rows[k].country, rows[k]))
  }

  function Countries(rows: seq<Row>): (r: seq<int>)
    ensures |r| == |rows| && forall k :: 0 <= k < |rows| ==> r[k] == rows[k].country
  {
    seq(|rows|, k requires 0 <= k < |rows| => rows[k].country)
  }

  lemma {:induction false} RowsStep(ss: seq<Sets>, todo: set<nat>, rows: seq<Row>, i: nat, row: Row)
    requires RowsState(ss, todo, rows)
    requires i in todo && forall y :: y in todo ==> i <= y
    requires RowOf(ss, i, row)
    ensures RowsState(ss, todo - {i}, rows + [row])
  {
    assert Countries(rows + [row]) == Countries(rows) + [i];
  }

  /** The outer loop: one row per country in ascending order, or the failed
      assertion of the first country some file holds twice. */
  method Rows(ss: seq<Sets>) returns (r: Result<seq<Row>>)
    ensures r.Abort? <==> exists i :: i in AllCountries(ss) && Clash(ss, i)
    ensures r.Ok? ==> StrictlyIncreasing(Countries(r.value))
    ensures r.Ok? ==> forall i: nat :: i in Countries(r.value) <==> i in AllCountries(ss)
    ensures r.Ok? ==> forall k :: 0 <= k < |r.value| ==> RowOf(ss, r.value[k].country, r.value[k])
  {
    var todo := AllCountries(ss);
    var rows := [];
    while todo != {}
      invariant RowsState(ss, todo, rows)
      invariant forall i :: i in AllCountries(ss) && i !in todo ==> !Clash(ss, i)
      decreases |todo|
    {
      ghost var least := MinExists(todo);
      var i :| i in todo && forall y :: y in todo ==> i <= y;
      var row := RowFor(ss, i);
      if row.Abort? {
        return Abort(row.reason);
      }
      RowsStep(ss, todo, rows, i, row.value);
      rows := rows + [row.value];
      todo := todo - {i};
    }
    r := Ok(rows);
  }

  /** `sort_by_cached_key`: sorted by the key, the same rows, and rows of
      equal key in their former order. */
  function SortRows(rows: seq<Row>): (r: seq<Row>)
    ensures SortedBy(r, RowKey) && multiset(r) == multiset(rows)
    ensures forall k :: WithKey(r, RowKey, k) == WithKey(rows, RowKey, k)
  {
    forall k
      ensures WithKey(SortByKey(rows, RowKey), RowKey, k) == WithKey(rows, RowKey, k)
    {
      SortByKeyStable(rows, RowKey, k);
    }
    SortByKey(rows, RowKey)
  }

  /** `three_set_exec` up to the writing of the rows. */
  method ThreeSetRows(ss: seq<Sets>) returns (r: Result<seq<Row>>)
    ensures r.Abort? <==> exists i :: i in AllCountries(ss) && Clash(ss, i)
    ensures r.Ok? ==> SortedBy(r.value, RowKey)
    ensures r.Ok? ==> forall k :: 0 <= k < |r.value| ==> RowOf(ss, r.value[k].country, r.value[k])
    ensures r.Ok? ==> forall i: nat :: i in Countries(r.value) <==> i in AllCountries(ss)
    ensures r.Ok? ==> Distinct(Countries(r.value))
  {
    var rows := Rows(ss);
    if rows.Abort? {
      return rows;
    }
    var sorted := SortRows(rows.value);
    SortedCountries(rows.value, sorted);
    forall k | 0 <= k < |sorted|
      ensures RowOf(ss, sorted[k].country, sorted[k])
    {
      var j :| 0 <= j < |rows.value| && rows.value[j] == sorted[k];
    }
    r := Ok(sorted);
  }

  /** Sorting keeps the rows, so it keeps their countries and their
      distinctness. */
  lemma {:induction false} SortedCountries(rows: seq<Row>, sorted: seq<Row>)
    requires multiset(sorted) == multiset(rows) && StrictlyIncreasing(Countries(rows))
    ensures forall i: nat :: i in Countries(sorted) <==> i in Countries(rows)
    ensures Distinct(Countries(sorted))
    ensures forall k :: 0 <= k < |sorted| ==> sorted[k] in rows
  {
    forall k | 0 <= k < |sorted|
      ensures sorted[k] in rows
    {
      assert sorted[k] in multiset(rows);
    }
    forall i: nat
      ensures i in Countries(sorted) <==> i in Countries(rows)
    {
      if i in Countries(sorted) {
        var k :| 0 <= k < |sorted| && sorted[k].country == i;
        assert sorted[k] in multiset(rows);
      }
      if i in Countries(rows) {
        var k :| 0 <= k < |rows| && rows[k].country == i;
        assert rows[k] in multiset(sorted);
      }
    }
    forall a, b | 0 <= a < b < |sorted|
      ensures sorted[a].country != sorted[b].country
    {
      if sorted[a].country == sorted[b].country {
        assert sorted[a] in multiset(rows) && sorted[b] in multiset(rows);
        var ka :| 0 <= ka < |rows| && rows[ka] == sorted[a];
        var kb :| 0 <= kb < |rows| && rows[kb] == sorted[b];
        assert Countries(rows)[ka] == Countries(rows)[kb];
        assert ka == kb;
        TwiceInMultiset(sorted, a, b);
        StrictRowsOnce(rows, rows[ka]);
        assert false;
      }
    }
  }

  /** With strictly ascending countries every row occurs at most once. */
  lemma {:induction false} StrictRowsOnce(rows: seq<Row>, x: Row)
    requires StrictlyIncreasing(Countries(rows))
    ensures multiset(rows)[x] <= 1
  {
    assert Distinct(rows) by {
      forall a, b | 0 <= a < b < |rows|
        ensures rows[a] != rows[b]
      {
        assert Countries(rows)[a] < Countries(rows)[b];
      }
    }
    DistinctOnce(rows, x);
  }
}
