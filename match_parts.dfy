/** The vocabulary of `src/network/main_execs/match_maker.rs`: the matched
    files and the loop state of pairing them, the three ways of taking a
    value pair from a line of numbers, the row that `Matched::work` makes of
    two lines and what `calc_averages` keeps of a line. Parsing one number
    is a parameter. */
module MatchParts {
  import opened Common
  import opened Text
  import opened Float

  /** `MatchItem`. */
  datatype MatchItem = MatchItem(year: nat, path: string)

  /** `Matched`, with `old` and `new` named `older` and `newer`. */
  datatype Matched = Matched(older: MatchItem, newer: MatchItem, item: nat)

  function Items(ms: seq<Matched>): (r: seq<nat>)
    ensures |r| == |ms| && forall k :: 0 <= k < |ms| ==> r[k] == ms[k].item
  {
    seq(|ms|, k requires 0 <= k < |ms| => ms[k].item)
  }

  /** The loop state of `CreateMatches`: the codes still to visit are common
      codes above all visited ones, and each keeps its entries in both
      maps. */
  ghost predicate MatchState(olds: map<nat, MatchItem>, news: map<nat, MatchItem>,
                             oldMatches: map<nat, MatchItem>, newMatches: map<nat, MatchItem>,
                             keys: set<nat>, r: seq<Matched>)
  {
    keys <= olds.Keys * news.Keys &&
    (forall x: nat :: x in Items(r) <==> x in olds && x in news && x !in keys) &&
    StrictlyIncreasing(Items(r)) &&
    (forall k, x :: 0 <= k < |r| && x in keys ==> r[k].item < x) &&
    (forall k :: 0 <= k < |r| ==>
      r[k].item in olds && r[k].item in news && r[k].older == olds[r[k].item] && r[k].newer == news[r[k].item]) &&
    (forall x :: x in keys ==> x in oldMatches && oldMatches[x] == olds[x] && x in newMatches && newMatches[x] == news[x])
  }

  lemma {:induction false} MatchStep(olds: map<nat, MatchItem>, news: map<nat, MatchItem>,
                  oldMatches: map<nat, MatchItem>, newMatches: map<nat, MatchItem>,
                  keys: set<nat>, r: seq<Matched>, key: nat)
    requires key in keys && forall y :: y in keys ==> key <= y
    requires MatchState(olds, news, oldMatches, newMatches, keys, r)
    ensures key in olds && key in news
    ensures MatchState(olds, news, oldMatches - {key}, newMatches - {key}, keys - {key},
                       r + [Matched(olds[key], news[key], key)])
  {
    var r' := r + [Matched(olds[key], news[key], key)];
    assert Items(r') == Items(r) + [key];
  }

  /** Every token parses as an `f64`. */
  ghost predicate Parses(w: seq<string>, parseF: string -> Option<F64>)
  {
    forall k :: 0 <= k < |w| ==> parseF(w[k]).Some?
  }

  /** `map(|s| s.parse::<f64>().unwrap())` run over the tokens: all values,
      or the panic of the first token that does not parse. */
  function ParseTokens(w: seq<string>, parseF: string -> Option<F64>): (r: Option<seq<F64>>)
    ensures r.Some? <==> Parses(w, parseF)
    ensures r.Some? ==> |r.value| == |w| && forall k :: 0 <= k < |w| ==> r.value[k] == parseF(w[k]).value
  {
    if w == [] then Some([])
    else match parseF(w[0])
      case None => None
      case Some(x) =>
        match ParseTokens(w[1..], parseF)
        case None => assert !Parses(w[1..], parseF); None
        case Some(rest) => Some([x] + rest)
  }

  /** The columns of a line, `split_ascii_whitespace`. */
  function Columns(line: string): seq<string>
  {
    Words(line, IsAsciiWhitespace)
  }

  /** `get_vals_trading`: the midpoint of the first two columns and the last
      column. `last` runs the parser over every column, so each must parse,
      and there must be a third column besides the two. */
  function GetValsTrading(line: string, parseF: string -> Option<F64>): (r: Result<(F64, F64)>)
    ensures var w := Columns(line);
      (r.Ok? <==> |w| >= 3 && Parses(w, parseF)) &&
      (r.Ok? ==> r.value == (Half(Add(parseF(w[0]).value, parseF(w[1]).value)), parseF(w[|w| - 1]).value))
  {
    match ParseTokens(Columns(line), parseF)
    case None => Abort("called `Result::unwrap()` on an `Err` value")
    case Some(v) =>
      if |v| < 3 then Abort("called `Option::unwrap()` on a `None` value")
      else Ok((Half(Add(v[0], v[1])), v[|v| - 1]))
  }

  /** `get_vals_max_normed`: the midpoint of the first two columns and column
      5; `nth(3)` parses the columns up to that one and no further. */
  function GetValsMaxNormed(line: string, parseF: string -> Option<F64>): (r: Result<(F64, F64)>)
    ensures var w := Columns(line);
      (r.Ok? <==> |w| >= 6 && Parses(w[..6], parseF)) &&
      (r.Ok? ==> r.value == (Half(Add(parseF(w[0]).value, parseF(w[1]).value)), parseF(w[5]).value))
  {
    var w := Columns(line);
    if |w| < 6 then Abort("called `Option::unwrap()` on a `None` value")
    else match ParseTokens(w[..6], parseF)
      case None => Abort("called `Result::unwrap()` on an `Err` value")
      case Some(v) => Ok((Half(Add(v[0], v[1])), v[5]))
  }

  /** `processed_get_vals`: `collect_tuple` demands exactly two columns, and
      both must parse. */
  function ProcessedGetVals(line: string, parseF: string -> Option<F64>): (r: Result<(F64, F64)>)
    ensures var w := Columns(line);
      (r.Ok? <==> |w| == 2 && Parses(w, parseF)) &&
      (r.Ok? ==> r.value == (parseF(w[0]).value, parseF(w[1]).value))
  {
    var w := Columns(line);
    if |w| != 2 then Abort("called `Option::unwrap()` on a `None` value")
    else match ParseTokens(w, parseF)
      case None => Abort("called `Result::unwrap()` on an `Err` value")
      case Some(v) => Ok((v[0], v[1]))
  }

  /** Which of the three readers is in use. */
  datatype Reader = Trading | MaxNormed | Processed

  function GetVals(reader: Reader, line: string, parseF: string -> Option<F64>): Result<(F64, F64)>
  {
    match reader
    case Trading => GetValsTrading(line, parseF)
    case MaxNormed => GetValsMaxNormed(line, parseF)
    case Processed => ProcessedGetVals(line, parseF)
  }

  /** A line of space-separated numbers, the way the shock clouds are
      written, reads under trading-country norming as the midpoint of its
      first two numbers and its last number. */
  lemma {:induction false} TradingOfTokens(ts: seq<string>, parseF: string -> Option<F64>)
    requires forall k :: 0 <= k < |ts| ==> ts[k] != [] && forall c :: c in ts[k] ==> !IsAsciiWhitespace(c)
    requires |ts| >= 3 && Parses(ts, parseF)
    ensures GetValsTrading(Join(ts, ' '), parseF) ==
      Ok((Half(Add(parseF(ts[0]).value, parseF(ts[1]).value)), parseF(ts[|ts| - 1]).value))
  {
    var line := Join(ts, ' ');
    ColumnsOfJoin(ts);
    var w := Columns(line);
    assert w == ts;
    assert w[|w| - 1] == ts[|ts| - 1];
    var r := GetValsTrading(line, parseF);
    assert r.Ok?;
    assert r.value.1 == parseF(w[|w| - 1]).value;
  }

  /** ... and under max norming as that midpoint and its sixth number. */
  lemma {:induction false} MaxNormedOfTokens(ts: seq<string>, parseF: string -> Option<F64>)
    requires forall k :: 0 <= k < |ts| ==> ts[k] != [] && forall c :: c in ts[k] ==> !IsAsciiWhitespace(c)
    requires |ts| >= 6 && Parses(ts, parseF)
    ensures GetValsMaxNormed(Join(ts, ' '), parseF) ==
      Ok((Half(Add(parseF(ts[0]).value, parseF(ts[1]).value)), parseF(ts[5]).value))
  {
    ColumnsOfJoin(ts);
    assert Parses(ts[..6], parseF) by {
      forall k | 0 <= k < 6
        ensures parseF(ts[..6][k]).Some?
      {
        assert ts[..6][k] == ts[k];
      }
    }
  }

  /** Both readers agree on the midpoint, and on a line of exactly six
      numbers they read the same pair. */
  lemma {:induction false} ReadersAgree(ts: seq<string>, parseF: string -> Option<F64>)
    requires forall k :: 0 <= k < |ts| ==> ts[k] != [] && forall c :: c in ts[k] ==> !IsAsciiWhitespace(c)
    requires |ts| >= 6 && Parses(ts, parseF)
    ensures GetValsTrading(Join(ts, ' '), parseF).Ok? && GetValsMaxNormed(Join(ts, ' '), parseF).Ok?
    ensures GetValsTrading(Join(ts, ' '), parseF).value.0 == GetValsMaxNormed(Join(ts, ' '), parseF).value.0
    ensures |ts| == 6 ==> GetValsTrading(Join(ts, ' '), parseF) == GetValsMaxNormed(Join(ts, ' '), parseF)
  {
    TradingOfTokens(ts, parseF);
    MaxNormedOfTokens(ts, parseF);
  }

  lemma {:induction false} ColumnsOfJoin(ts: seq<string>)
    requires forall k :: 0 <= k < |ts| ==> ts[k] != [] && forall c :: c in ts[k] ==> !IsAsciiWhitespace(c)
    ensures Columns(Join(ts, ' ')) == ts
  {
    WordsOfJoin(ts, IsAsciiWhitespace);
  }

  /** A line of two space-separated numbers, the way the compared years are
      written, reads back as those two numbers. */
  lemma {:induction false} ProcessedReadsPair(a: string, b: string, parseF: string -> Option<F64>)
    requires a != [] && forall c :: c in a ==> !IsAsciiWhitespace(c)
    requires b != [] && forall c :: c in b ==> !IsAsciiWhitespace(c)
    requires parseF(a).Some? && parseF(b).Some?
    ensures ProcessedGetVals(a + " " + b, parseF) == Ok((parseF(a).value, parseF(b).value))
  {
    var ts := [a, b];
    assert ts[1..] == [b];
    assert Join(ts, ' ') == a + " " + b;
    ColumnsOfJoin(ts);
  }

  /** A reader as `work` and `calc_averages` hold it: a function from a line
      to its value pair or a panic. */
  type ValsFun = string -> Result<(F64, F64)>

  /** The reader function of `reader`. */
  function Reading(reader: Reader, parseF: string -> Option<F64>): ValsFun
  {
    line => GetVals(reader, line, parseF)
  }

  /** One output row of `work`: the old line's mid and the new value minus
      the old one; reading either line may panic, and so does the
      assertion when the mids differ. */
  function Row(fun: ValsFun, o: string, n: string): Result<(F64, F64)>
  {
    match fun(o)
    case Abort(e) => Abort(e)
    case Ok(ov) =>
      match fun(n)
      case Abort(e) => Abort(e)
      case Ok(nv) =>
        if !Equal(ov.0, nv.0) then Abort("assertion `left == right` failed: Histograms don't match?")
        else Ok((ov.0, Sub(nv.1, ov.1)))
  }

  /** A file compared with itself: the row exists exactly when the line
      reads and its mid is a number, and a finite value gives a zero
      difference. */
  lemma {:induction false} SelfRow(fun: ValsFun, line: string)
    ensures Row(fun, line, line).Ok? <==> (fun(line).Ok? && fun(line).value.0 != NaN)
    ensures Row(fun, line, line).Ok? && IsFinite(fun(line).value.1) ==> (Row(fun, line, line).value.1 == Finite(0.0))
  {
  }

  ghost predicate RowsUpTo(fun: ValsFun, oldLines: seq<string>, newLines: seq<string>, k: nat,
                           rows: seq<(F64, F64)>)
    requires k <= |oldLines| && k <= |newLines|
  {
    |rows| == k &&
    forall j :: 0 <= j < k ==>
      (Row(fun, oldLines[j], newLines[j]).Ok? && rows[j] == Row(fun, oldLines[j], newLines[j]).value)
  }

  /** The value `calc_averages` keeps: its absolute value with
      `AverageCalcOpt::Abs`. */
  function Kept(v: F64, abs: bool): F64
  {
    if abs then Abs(v) else v
  }

  /** Line `k` of a later file fits: it reads, the first file had a line
      `k` (the index panics otherwise), and the mids agree ("Mids need to
      match!"). */
  predicate LineFits(fun: ValsFun, mids: seq<F64>, line: string, k: nat)
  {
    fun(line).Ok? && k < |mids| && Equal(fun(line).value.0, mids[k])
  }

  /** What a later file adds to row `i`: the kept value of its line `i`,
      unless that is NaN and NaNs are ignored. */
  function Pushed(fun: ValsFun, lines: seq<string>, i: nat, abs: bool, ignoreNans: bool): seq<F64>
    requires i < |lines| ==> fun(lines[i]).Ok?
  {
    if i >= |lines| then []
    else
      var v := fun(lines[i]).value.1;
      if ignoreNans && v == NaN then [] else [Kept(v, abs)]
  }
}
