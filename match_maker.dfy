/** `src/network/main_execs/match_maker.rs`: pairing the files of an older
    and a newer year by item code, reading the value pairs of their lines,
    the output of `Matched::work`, and the rows and medians of
    `calc_averages`. Globbing, canonicalising paths and writing files are
    not modelled: the maps, the line streams and the parent directory are
    parameters. */
module MatchMaker {
  import opened Common
  import opened Text
  import opened Float
  import opened MatchParts

  /** `create_matches`: walking the common item codes in ascending order (the
      intersection of two `BTreeSet`s), each code's entry is removed from
      both maps; every code both maps hold gives exactly one `Matched`, and
      nothing else does. */
  method CreateMatches(olds: map<nat, MatchItem>, news: map<nat, MatchItem>) returns (r: seq<Matched>)
    ensures StrictlyIncreasing(Items(r))
    ensures forall x: nat :: x in Items(r) <==> x in olds && x in news
    ensures forall k :: 0 <= k < |r| ==>
      r[k].item in olds && r[k].item in news && r[k].older == olds[r[k].item] && r[k].newer == news[r[k].item]
  {
    var oldMatches, newMatches := olds, news;
    var keys := olds.Keys * news.Keys;
    r := [];
    while keys != {}
      invariant MatchState(olds, news, oldMatches, newMatches, keys, r)
      decreases |keys|
    {
      ghost var least := MinExists(keys);
      var key :| key in keys && forall y :: y in keys ==> key <= y;
      MatchStep(olds, news, oldMatches, newMatches, keys, r, key);
      var older := oldMatches[key];
      oldMatches := oldMatches - {key};
      var newer := newMatches[key];
      newMatches := newMatches - {key};
      r := r + [Matched(older, newer, key)];
      keys := keys - {key};
    }
  }

  /** `MatchHelper`: where the output goes when the two files live in
      different directories. */
  datatype How = Old | New | Skip

  /** The output directory of `work`: the parent of the old or of the new
      file; with `Skip` their common parent, and nothing at all when the
      parents differ. */
  function OutputDir(m: Matched, how: How, parentOf: string -> string): (r: Option<string>)
    ensures how == Old ==> r == Some(parentOf(m.older.path))
    ensures how == New ==> r == Some(parentOf(m.newer.path))
    ensures how == Skip ==> (r.None? <==> parentOf(m.older.path) != parentOf(m.newer.path))
    ensures how == Skip && r.Some? ==>
      r.value == parentOf(m.older.path) && r.value == parentOf(m.newer.path)
  {
    match how
    case New => Some(parentOf(m.newer.path))
    case Old => Some(parentOf(m.older.path))
    case Skip =>
      var oldParent := parentOf(m.older.path);
      var newParent := parentOf(m.newer.path);
      if oldParent != newParent then None else Some(oldParent)
  }

  const TradingPrefix: string := "Country_normed_"

  /** The output file name `{prefix}Item{item}_{old}_vs_{new}.dat`. */
  function OutputName(byTrading: bool, item: nat, oldYear: nat, newYear: nat): (r: string)
    ensures StartsWith(r, TradingPrefix) <==> byTrading
    ensures |r| >= 4 && r[|r| - 4..] == ".dat"
  {
    var name := BareName(item, oldYear, newYear);
    assert name[0] == 'I' && name[|name| - 4..] == ".dat";
    if byTrading then TradingPrefix + name else name
  }

  /** The name without the prefix. */
  function BareName(item: nat, oldYear: nat, newYear: nat): string
  {
    "Item" + NatToString(item) + "_" + NatToString(oldYear) + "_vs_" + NatToString(newYear) + ".dat"
  }

  /** The `_`-separated pieces of a name without the prefix. */
  function NamePieces(item: nat, oldYear: nat, newYear: nat): seq<string>
  {
    ["Item" + NatToString(item), NatToString(oldYear), "vs", NatToString(newYear) + ".dat"]
  }

  lemma {:induction false} JoinCons(x: string, p: seq<string>, sep: char)
    requires p != []
    ensures Join([x] + p, sep) == x + [sep] + Join(p, sep)
  {
    assert ([x] + p)[1..] == p;
  }

  lemma {:induction false} NameIsJoin(item: nat, oldYear: nat, newYear: nat)
    ensures BareName(item, oldYear, newYear) == Join(NamePieces(item, oldYear, newYear), '_')
  {
    var a, b, c := NatToString(item), NatToString(oldYear), NatToString(newYear);
    var t4: seq<string> := [c + ".dat"];
    var t3 := ["vs"] + t4;
    var t2 := [b] + t3;
    JoinCons("vs", t4, '_');
    JoinCons(b, t3, '_');
    JoinCons("Item" + a, t2, '_');
    assert NamePieces(item, oldYear, newYear) == ["Item" + a] + t2;
  }

  lemma {:induction false} NatToStringInjective(x: nat, y: nat)
    requires NatToString(x) == NatToString(y)
    ensures x == y
  {
    NatToStringValue(x);
    NatToStringValue(y);
  }

  lemma {:induction false} NamePiecesFree(i: nat, o: nat, n: nat)
    ensures forall k :: 0 <= k < |NamePieces(i, o, n)| ==> '_' !in NamePieces(i, o, n)[k]
  {
    var p := NamePieces(i, o, n);
    forall k | 0 <= k < |p|
      ensures '_' !in p[k]
    {
      assert forall c :: c in NatToString(i) + NatToString(o) + NatToString(n) ==> IsDigit(c);
    }
  }

  lemma {:induction false} PiecesDetermine(i: nat, o: nat, n: nat, i': nat, o': nat, n': nat)
    requires NamePieces(i, o, n) == NamePieces(i', o', n')
    ensures i == i' && o == o' && n == n'
  {
    var p, p' := NamePieces(i, o, n), NamePieces(i', o', n');
    assert ("Item" + NatToString(i))[4..] == NatToString(i);
    assert ("Item" + NatToString(i'))[4..] == NatToString(i');
    assert p[0] == p'[0];
    NatToStringInjective(i, i');
    assert p[1] == p'[1];
    NatToStringInjective(o, o');
    var c, c' := NatToString(n) + ".dat", NatToString(n') + ".dat";
    assert c[..|c| - 4] == NatToString(n) && c'[..|c'| - 4] == NatToString(n');
    assert p[3] == p'[3];
    NatToStringInjective(n, n');
  }

  lemma {:induction false} BareNameInjective(i: nat, o: nat, n: nat, i': nat, o': nat, n': nat)
    requires BareName(i, o, n) == BareName(i', o', n')
    ensures i == i' && o == o' && n == n'
  {
    NameIsJoin(i, o, n);
    NameIsJoin(i', o', n');
    NamePiecesFree(i, o, n);
    NamePiecesFree(i', o', n');
    SplitUnique(NamePieces(i, o, n), BareName(i, o, n), '_');
    SplitUnique(NamePieces(i', o', n'), BareName(i, o, n), '_');
    PiecesDetermine(i, o, n, i', o', n');
  }

  /** Different jobs never write to the same name in one directory: the name
      determines the norming, the item code and both years. */
  lemma {:induction false} OutputNameInjective(t: bool, i: nat, o: nat, n: nat, t': bool, i': nat, o': nat, n': nat)
    requires OutputName(t, i, o, n) == OutputName(t', i', o', n')
    ensures t == t' && i == i' && o == o' && n == n'
  {
    var b, b' := BareName(i, o, n), BareName(i', o', n');
    if t {
      assert (TradingPrefix + b)[|TradingPrefix|..] == b;
      assert (TradingPrefix + b')[|TradingPrefix|..] == b';
    }
    BareNameInjective(i, o, n, i', o', n');
  }

  /** The header line of the output. */
  function Header(m: Matched): seq<string>
  {
    ["total_export_fraction", "Y" + NatToString(m.newer.year) + "-Y" + NatToString(m.older.year)]
  }

  /** The reader `work` uses. */
  function WorkReader(byTrading: bool): Reader
  {
    if byTrading then Trading else MaxNormed
  }

  /** What `work` writes: the output file's directory, name, header and
      rows. */
  datatype Output = Output(dir: string, name: string, header: seq<string>, rows: seq<(F64, F64)>)

  /** The loop of `Matched::work`: the line pairs of both files, as far as
      the shorter one goes, give one row each; the first pair that fails to
      give a row panics. */
  method WorkRows(fun: ValsFun, oldLines: seq<string>, newLines: seq<string>)
    returns (r: Result<seq<(F64, F64)>>)
    ensures r.Abort? <==> exists k :: 0 <= k < |oldLines| && k < |newLines| && Row(fun, oldLines[k], newLines[k]).Abort?
    ensures r.Ok? ==> |r.value| <= |oldLines| && |r.value| <= |newLines| &&
                      (|r.value| == |oldLines| || |r.value| == |newLines|) &&
                      RowsUpTo(fun, oldLines, newLines, |r.value|, r.value)
  {
    var count := if |oldLines| < |newLines| then |oldLines| else |newLines|;
    var rows: seq<(F64, F64)> := [];
    for k := 0 to count
      invariant RowsUpTo(fun, oldLines, newLines, k, rows)
    {
      var row := Row(fun, oldLines[k], newLines[k]);
      if row.Abort? {
        return Abort(row.reason);
      }
      rows := rows + [row.value];
    }
    r := Ok(rows);
  }

  /** `Matched::work`: with `Skip` and different parent directories nothing
      is read or written; otherwise the lines are read with the reader the
      norming selects (number parsing is the parameter `parseF`) and the
      rows are those of `WorkRows`, under the output name and header. */
  method Work(m: Matched, how: How, byTrading: bool, parentOf: string -> string,
              oldLines: seq<string>, newLines: seq<string>, parseF: string -> Option<F64>)
    returns (r: Result<Option<Output>>)
    ensures OutputDir(m, how, parentOf).None? ==> r == Ok(None)
    ensures OutputDir(m, how, parentOf).Some? ==>
      (r.Abort? <==> exists k :: 0 <= k < |oldLines| && k < |newLines| &&
                                 Row(Reading(WorkReader(byTrading), parseF), oldLines[k], newLines[k]).Abort?)
    ensures r.Ok? && OutputDir(m, how, parentOf).Some? ==> r.value.Some?
    ensures r.Ok? && r.value.Some? ==> (
      var out := r.value.value;
      OutputDir(m, how, parentOf) == Some(out.dir) &&
      out.name == OutputName(byTrading, m.item, m.older.year, m.newer.year) &&
      out.header == Header(m) &&
      |out.rows| <= |oldLines| && |out.rows| <= |newLines| &&
      (|out.rows| == |oldLines| || |out.rows| == |newLines|) &&
      RowsUpTo(Reading(WorkReader(byTrading), parseF), oldLines, newLines, |out.rows|, out.rows))
  {
    var dir := OutputDir(m, how, parentOf);
    if dir.None? {
      return Ok(None);
    }
    var rows := WorkRows(Reading(WorkReader(byTrading), parseF), oldLines, newLines);
    if rows.Abort? {
      return Abort(rows.reason);
    }
    r := Ok(Some(Output(dir.value, OutputName(byTrading, m.item, m.older.year, m.newer.year), Header(m), rows.value)));
  }

  /** The first file of `calc_averages`: every line is read, its mid kept and
      its value (NaN or not) starts the line's row. `fun` is the reader of
      the mode, `Reading(Processed, parseF)` or the reader of the norming. */
  method FirstFile(fun: ValsFun, lines: seq<string>, abs: bool)
    returns (r: Result<(seq<F64>, seq<seq<F64>>)>)
    ensures r.Abort? <==> exists k :: 0 <= k < |lines| && fun(lines[k]).Abort?
    ensures r.Ok? ==> |r.value.0| == |lines| && |r.value.1| == |lines|
    ensures r.Ok? ==> forall k :: 0 <= k < |lines| ==>
      (fun(lines[k]).Ok? && r.value.0[k] == fun(lines[k]).value.0 && r.value.1[k] == [Kept(fun(lines[k]).value.1, abs)])
  {
    var mids: seq<F64> := [];
    var sums: seq<seq<F64>> := [];
    for k := 0 to |lines|
      invariant |mids| == k && |sums| == k
      invariant forall j :: 0 <= j < k ==>
        (fun(lines[j]).Ok? && mids[j] == fun(lines[j]).value.0 && sums[j] == [Kept(fun(lines[j]).value.1, abs)])
    {
      var vals := fun(lines[k]);
      if vals.Abort? {
        return Abort(vals.reason);
      }
      mids := mids + [vals.value.0];
      sums := sums + [[Kept(vals.value.1, abs)]];
    }
    r := Ok((mids, sums));
  }

  /** A later file of `calc_averages`: every line must fit its row, and its
      value is pushed onto that row. */
  method AddFile(fun: ValsFun, mids: seq<F64>, sums: seq<seq<F64>>, lines: seq<string>,
                 abs: bool, ignoreNans: bool)
    returns (r: Result<seq<seq<F64>>>)
    requires |sums| == |mids|
    ensures r.Abort? <==> exists k :: 0 <= k < |lines| && !LineFits(fun, mids, lines[k], k)
    ensures r.Ok? ==> |r.value| == |sums|
    ensures r.Ok? ==> forall i :: 0 <= i < |sums| ==>
      ((i < |lines| ==> fun(lines[i]).Ok?) && r.value[i] == sums[i] + Pushed(fun, lines, i, abs, ignoreNans))
  {
    var cur := sums;
    for idx := 0 to |lines|
      invariant |cur| == |sums|
      invariant forall j :: 0 <= j < idx ==> LineFits(fun, mids, lines[j], j)
      invariant forall i :: 0 <= i < |sums| ==>
        cur[i] == sums[i] + (if i < idx then Pushed(fun, lines, i, abs, ignoreNans) else [])
    {
      var vals := fun(lines[idx]);
      if vals.Abort? {
        return Abort(vals.reason);
      }
      if idx >= |mids| {
        return Abort("index out of bounds");
      }
      if !Equal(vals.value.0, mids[idx]) {
        return Abort("assertion `left == right` failed: Mids need to match!");
      }
      var v := vals.value.1;
      if !ignoreNans || v != NaN {
        cur := cur[idx := cur[idx] + [Kept(v, abs)]];
      }
    }
    forall i | 0 <= i < |sums|
      ensures (i < |lines| ==> fun(lines[i]).Ok?) &&
        cur[i] == sums[i] + Pushed(fun, lines, i, abs, ignoreNans)
    {
      if i < |lines| {
        assert LineFits(fun, mids, lines[i], i);
      }
    }
    r := Ok(cur);
  }

  /** The median of `calc_averages`: element `len / 2` of the sorted values;
      the index panics on an empty row. */
  function Median(s: seq<F64>): (r: Result<F64>)
    ensures r.Abort? <==> s == []
    ensures r.Ok? ==> r.value in s
  {
    if s == [] then Abort("index out of bounds")
    else
      var t := SortOrd(s);
      assert |t| == |multiset(t)| == |s|;
      assert t[|t| / 2] in multiset(s);
      Ok(t[|t| / 2])
  }

  /** The median splits the values: `len / 2` of them are at most the
      median, and all others besides it at least the median. */
  lemma {:induction false} MedianSplits(s: seq<F64>) returns (lower: seq<F64>, upper: seq<F64>)
    requires s != []
    ensures multiset(s) == multiset(lower) + multiset{Median(s).value} + multiset(upper)
    ensures |lower| == |s| / 2 && |upper| == |s| - |s| / 2 - 1
    ensures forall x :: x in lower ==> OrdLe(x, Median(s).value)
    ensures forall x :: x in upper ==> OrdLe(Median(s).value, x)
  {
    var t := SortOrd(s);
    assert |t| == |multiset(t)| == |s|;
    var h := |t| / 2;
    lower, upper := t[..h], t[h + 1..];
    assert t == lower + [t[h]] + upper;
    forall x | x in lower
      ensures OrdLe(x, t[h])
    {
      var k :| 0 <= k < h && lower[k] == x;
      assert t[k] == x;
    }
    forall x | x in upper
      ensures OrdLe(t[h], x)
    {
      var k :| 0 <= k < |upper| && upper[k] == x;
      assert t[h + 1 + k] == x;
    }
  }
}
