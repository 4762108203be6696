/** Two line filters of `src/other_exec.rs`: `filter_files_helper`, which
    keeps the lines of a work file whose chosen column is (or is not) listed
    in a filter file, and `partition_helper`, which spreads sorted lines over
    numbered files at a sequence of borders. Files are their sequences of
    lines. */
module OtherFilters {
  import opened Common
  import opened Text
  import opened Float
  import Parser

  // ---------------------------------------------------------------------
  // filter_files_helper

  /** The key a line of the filter file contributes: the column of the
      quote-aware comma split for a csv file (`swap_remove` fails past the
      last field), otherwise the whitespace-separated word (`expect` fails
      past the last word). */
  function FilterKey(line: string, csv: bool, col: nat): (r: Result<string>)
    ensures csv ==> (r.Ok? <==> col < |Parser.Fields(line)|)
    ensures csv && r.Ok? ==> r.value == Parser.Fields(line)[col]
    ensures !csv ==> (r.Ok? <==> col < |Words(line, IsWhitespace)|)
    ensures !csv && r.Ok? ==> r.value == Words(line, IsWhitespace)[col]
  {
    if csv then
      var v := Parser.Fields(line);
      if col < |v| then Ok(v[col])
      else Abort("swap_remove index (is " + NatToString(col) + ") should be < len (is " + NatToString(|v|) + ")")
    else
      var ws := Words(line, IsWhitespace);
      if col < |ws| then Ok(ws[col]) else Abort("filter_by column not found")
  }

  /** The filter set: the keys of the lines that are not comments, the
      first failing line stopping the run. */
  function FilterSet(lines: seq<string>, csv: bool, col: nat): (r: Result<set<string>>)
    ensures r.Abort? <==> exists k :: 0 <= k < |lines| && !IsComment(lines[k]) && FilterKey(lines[k], csv, col).Abort?
    ensures r.Ok? ==> forall x :: x in r.value <==>
      exists k :: 0 <= k < |lines| && !IsComment(lines[k]) && FilterKey(lines[k], csv, col) == Ok(x)
  {
    if lines == [] then Ok({})
    else
      var init := lines[..|lines| - 1];
      var line := lines[|lines| - 1];
      assert forall k :: 0 <= k < |init| ==> init[k] == lines[k];
      match FilterSet(init, csv, col)
      case Abort(e) => Abort(e)
      case Ok(s) =>
        if IsComment(line) then Ok(s)
        else match FilterKey(line, csv, col)
          case Abort(e) => Abort(e)
          case Ok(x) => Ok(s + {x})
  }

  /** Whether a line of the work file is written: a comment when comments
      are kept, any other line when its column's membership in the filter
      set differs from `remove`. */
  predicate Emitted(line: string, keys: set<string>, otherCol: nat, keep: bool, remove: bool)
    requires !IsComment(line) ==> otherCol < |Words(line, IsWhitespace)|
  {
    if IsComment(line) then keep else (Words(line, IsWhitespace)[otherCol] in keys) != remove
  }

  /** Every line that is not a comment has the column. */
  ghost predicate HasColumn(lines: seq<string>, otherCol: nat)
  {
    forall k :: 0 <= k < |lines| && !IsComment(lines[k]) ==> otherCol < |Words(lines[k], IsWhitespace)|
  }

  /** The lines written, in their order. */
  function Selected(lines: seq<string>, keys: set<string>, otherCol: nat, keep: bool, remove: bool): (r: seq<string>)
    requires HasColumn(lines, otherCol)
    ensures |r| <= |lines|
  {
    if lines == [] then []
    else
      var init := lines[..|lines| - 1];
      var line := lines[|lines| - 1];
      assert forall k :: 0 <= k < |init| ==> init[k] == lines[k];
      Selected(init, keys, otherCol, keep, remove) + (if Emitted(line, keys, otherCol, keep, remove) then [line] else [])
  }

  lemma {:induction false} SelectedSnoc(pre: seq<string>, line: string, keys: set<string>, otherCol: nat, keep: bool, remove: bool)
    requires HasColumn(pre, otherCol) && (!IsComment(line) ==> otherCol < |Words(line, IsWhitespace)|)
    ensures HasColumn(pre + [line], otherCol)
    ensures Selected(pre + [line], keys, otherCol, keep, remove) ==
      Selected(pre, keys, otherCol, keep, remove) + (if Emitted(line, keys, otherCol, keep, remove) then [line] else [])
  {
    assert (pre + [line])[..|pre|] == pre;
  }

  /** Only input lines are written, each at most as often as it occurs in
      the input. */
  lemma {:induction false} SelectedSubsequence(lines: seq<string>, keys: set<string>, otherCol: nat, keep: bool, remove: bool)
    requires HasColumn(lines, otherCol)
    ensures multiset(Selected(lines, keys, otherCol, keep, remove)) <= multiset(lines)
    ensures forall k :: 0 <= k < |Selected(lines, keys, otherCol, keep, remove)| ==> Selected(lines, keys, otherCol, keep, remove)[k] in lines
  {
    var r := Selected(lines, keys, otherCol, keep, remove);
    if lines != [] {
      var n := |lines| - 1;
      var init := lines[..n];
      var line := lines[n];
      assert lines == init + [line];
      assert forall k :: 0 <= k < |init| ==> init[k] == lines[k];
      SelectedSubsequence(init, keys, otherCol, keep, remove);
      SelectedSnoc(init, line, keys, otherCol, keep, remove);
      assert multiset(lines) == multiset(init) + multiset{line};
    }
    forall k | 0 <= k < |r|
      ensures r[k] in lines
    {
      assert r[k] in multiset(r);
    }
  }

  /** The filter treats lines one at a time: the selection of two parts is
      the selection of each. */
  lemma {:induction false} SelectedAppend(a: seq<string>, b: seq<string>, keys: set<string>, otherCol: nat, keep: bool, remove: bool)
    requires HasColumn(a, otherCol) && HasColumn(b, otherCol)
    ensures HasColumn(a + b, otherCol)
    ensures Selected(a + b, keys, otherCol, keep, remove) == Selected(a, keys, otherCol, keep, remove) + Selected(b, keys, otherCol, keep, remove)
    decreases |b|
  {
    if b == [] {
      assert a + b == a;
    } else {
      var last := b[|b| - 1];
      var b' := b[..|b| - 1];
      assert b == b' + [last];
      assert a + b == (a + b') + [last];
      assert forall k :: 0 <= k < |b'| ==> b'[k] == b[k];
      SelectedAppend(a, b', keys, otherCol, keep, remove);
      SelectedSnoc(a + b', last, keys, otherCol, keep, remove);
      SelectedSnoc(b', last, keys, otherCol, keep, remove);
    }
  }

  /** Comments are written, all of them, exactly when they are kept. */
  lemma {:induction false} SelectedComments(lines: seq<string>, keys: set<string>, otherCol: nat, keep: bool, remove: bool)
    requires HasColumn(lines, otherCol)
    ensures CommentLines(Selected(lines, keys, otherCol, keep, remove)) == if keep then CommentLines(lines) else []
  {
    if lines != [] {
      var n := |lines| - 1;
      var init := lines[..n];
      assert forall k :: 0 <= k < |init| ==> init[k] == lines[k];
      SelectedComments(init, keys, otherCol, keep, remove);
      var s := Selected(init, keys, otherCol, keep, remove);
      if Emitted(lines[n], keys, otherCol, keep, remove) {
        assert (s + [lines[n]])[..|s|] == s;
      } else {
        assert s + [] == s;
      }
    }
  }

  /** Keeping and removing split the data lines between them: with
      comments dropped, every other line is written by exactly one of the
      two modes. */
  lemma {:induction false} KeepRemoveSplit(lines: seq<string>, keys: set<string>, otherCol: nat)
    requires HasColumn(lines, otherCol)
    ensures |Selected(lines, keys, otherCol, false, false)| + |Selected(lines, keys, otherCol, false, true)| == |DataLines(lines)|
  {
    if lines != [] {
      var n := |lines| - 1;
      var init := lines[..n];
      assert forall k :: 0 <= k < |init| ==> init[k] == lines[k];
      KeepRemoveSplit(init, keys, otherCol);
    }
  }

  /** The loop over the work file: every line is read, comments are written
      when kept, and `expect` fails on the first other line without the
      column. */
  method FilterLines(lines: seq<string>, keys: set<string>, otherCol: nat, keep: bool, remove: bool) returns (r: Result<seq<string>>)
    ensures r.Abort? <==> !HasColumn(lines, otherCol)
    ensures r.Ok? ==> r.value == Selected(lines, keys, otherCol, keep, remove)
  {
    var out := [];
    for k := 0 to |lines|
      invariant HasColumn(lines[..k], otherCol)
      invariant out == Selected(lines[..k], keys, otherCol, keep, remove)
    {
      var line := lines[k];
      assert lines[..k + 1] == lines[..k] + [line];
      if IsComment(line) {
        if keep {
          out := out + [line];
        }
      } else {
        var ws := Words(line, IsWhitespace);
        if otherCol >= |ws| {
          assert !IsComment(lines[k]) && otherCol >= |Words(lines[k], IsWhitespace)|;
          return Abort("Other column not found");
        }
        var proceed := ws[otherCol] in keys;
        if remove {
          proceed := !proceed;
        }
        if proceed {
          out := out + [line];
        }
      }
      SelectedSnoc(lines[..k], line, keys, otherCol, keep, remove);
    }
    assert lines[..|lines|] == lines;
    r := Ok(out);
  }

  /** `filter_files_helper`: the filter set from the filter file, then the
      selection of the work file. */
  method FilterFilesHelper(filterLines: seq<string>, csv: bool, filterCol: nat, work: seq<string>, otherCol: nat, keep: bool, remove: bool)
    returns (r: Result<seq<string>>)
    ensures r.Abort? <==> FilterSet(filterLines, csv, filterCol).Abort? || !HasColumn(work, otherCol)
    ensures r.Ok? ==> r.value == Selected(work, FilterSet(filterLines, csv, filterCol).value, otherCol, keep, remove)
  {
    var keys := FilterSet(filterLines, csv, filterCol);
    if keys.Abort? {
      return Abort(keys.reason);
    }
    r := FilterLines(work, keys.value, otherCol, keep, remove);
  }

  // ---------------------------------------------------------------------
  // partition_helper

  /** What `par_iter` holds at position `p`: the border, or `None` once the
      borders are used up. */
  function BorderAt(borders: seq<F64>, p: nat): (r: Option<F64>)
    ensures r.Some? <==> p < |borders|
    ensures r.Some? ==> r.value == borders[p]
  {
    if p < |borders| then Some(borders[p]) else None
  }

  /** Where a value moves the counter from `p`: past every border it fails
      `cmp` against, up to the first one it meets or the end. */
  function Advance(val: F64, borders: seq<F64>, p: nat, cmp: (F64, F64) -> bool): (r: nat)
    requires p <= |borders|
    ensures p <= r <= |borders|
    ensures r == |borders| || cmp(val, borders[r])
    ensures forall q :: p <= q < r ==> !cmp(val, borders[q])
    decreases |borders| - p
  {
    if p < |borders| && !cmp(val, borders[p]) then Advance(val, borders, p + 1, cmp) else p
  }

  /** The counter before item `k`: 0 at the start, then that of the item
      before. */
  function Before(placed: seq<nat>, k: nat): nat
    requires k <= |placed|
  {
    if k == 0 then 0 else placed[k - 1]
  }

  /** The file each item is written to. */
  function Placement(items: seq<(F64, string)>, borders: seq<F64>, cmp: (F64, F64) -> bool): (r: seq<nat>)
    ensures |r| == |items|
    ensures forall k :: 0 <= k < |r| ==> r[k] <= |borders|
  {
    if items == [] then []
    else
      var init := Placement(items[..|items| - 1], borders, cmp);
      init + [Advance(items[|items| - 1].0, borders, Before(init, |init|), cmp)]
  }

  /** The files opened, with their number and the border named in their
      header: file 0 before any item, then one whenever the counter moves. */
  function Opened(items: seq<(F64, string)>, borders: seq<F64>, cmp: (F64, F64) -> bool): seq<(nat, Option<F64>)>
  {
    if items == [] then [(0, BorderAt(borders, 0))]
    else
      var init := items[..|items| - 1];
      var placed := Placement(init, borders, cmp);
      var p := Before(placed, |placed|);
      var q := Advance(items[|items| - 1].0, borders, p, cmp);
      Opened(init, borders, cmp) + (if q != p then [(q, BorderAt(borders, q))] else [])
  }

  /** Item `k` moves the counter on from where the item before left it. */
  lemma {:induction false} PlacementAt(items: seq<(F64, string)>, borders: seq<F64>, cmp: (F64, F64) -> bool, k: nat)
    requires k < |items|
    ensures Before(Placement(items, borders, cmp), k) <= |borders|
    ensures Placement(items, borders, cmp)[k] == Advance(items[k].0, borders, Before(Placement(items, borders, cmp), k), cmp)
    decreases |items|
  {
    var init := items[..|items| - 1];
    var pi := Placement(init, borders, cmp);
    var r := Placement(items, borders, cmp);
    assert r[..|init|] == pi;
    if k < |init| {
      PlacementAt(init, borders, cmp, k);
      assert init[k] == items[k] && r[k] == pi[k];
      if k > 0 {
        assert r[k - 1] == pi[k - 1];
      }
    } else if k > 0 {
      assert r[k - 1] == pi[k - 1];
    }
  }

  /** The counter never goes back. */
  lemma {:induction false} PlacementMonotone(items: seq<(F64, string)>, borders: seq<F64>, cmp: (F64, F64) -> bool)
    ensures forall i, j :: 0 <= i < j < |items| ==> Placement(items, borders, cmp)[i] <= Placement(items, borders, cmp)[j]
  {
    if items != [] {
      var init := items[..|items| - 1];
      PlacementMonotone(init, borders, cmp);
      var pi := Placement(init, borders, cmp);
      var r := Placement(items, borders, cmp);
      assert r == pi + [r[|items| - 1]];
      forall i, j | 0 <= i < j < |items|
        ensures r[i] <= r[j]
      {
        if j == |items| - 1 && i < j - 1 {
          assert pi[i] <= pi[j - 1];
        }
      }
    }
  }

  /** Each item goes to the first border not yet passed that it meets, or
      past the last, and fails `cmp` against every border it passes. */
  lemma {:induction false} PlacementStops(items: seq<(F64, string)>, borders: seq<F64>, cmp: (F64, F64) -> bool)
    ensures forall k :: 0 <= k < |items| ==>
      var r := Placement(items, borders, cmp)[k];
      r == |borders| || cmp(items[k].0, borders[r])
    ensures forall k, q {:trigger items[k], borders[q]} ::
      0 <= k < |items| && Before(Placement(items, borders, cmp), k) <= q < Placement(items, borders, cmp)[k] ==>
      !cmp(items[k].0, borders[q])
  {
    var r := Placement(items, borders, cmp);
    forall k | 0 <= k < |items|
      ensures r[k] == |borders| || cmp(items[k].0, borders[r[k]])
    {
      PlacementAt(items, borders, cmp, k);
    }
    forall k, q {:trigger items[k], borders[q]} | 0 <= k < |items| && Before(r, k) <= q < r[k]
      ensures !cmp(items[k].0, borders[q])
    {
      PlacementAt(items, borders, cmp, k);
    }
  }

  /** One more item: its placement. */
  lemma {:induction false} PlacementSnoc(items: seq<(F64, string)>, borders: seq<F64>, cmp: (F64, F64) -> bool, k: nat)
    requires k < |items| && Before(Placement(items[..k], borders, cmp), k) <= |borders|
    ensures Placement(items[..k + 1], borders, cmp) ==
      Placement(items[..k], borders, cmp) + [Advance(items[k].0, borders, Before(Placement(items[..k], borders, cmp), k), cmp)]
  {
    var pre, whole := items[..k], items[..k + 1];
    assert whole[..|whole| - 1] == pre && whole[|whole| - 1] == items[k];
  }

  /** One more item: the file it opens when it moves the counter. */
  lemma {:induction false} OpenedSnoc(items: seq<(F64, string)>, borders: seq<F64>, cmp: (F64, F64) -> bool, k: nat)
    requires k < |items| && Before(Placement(items[..k], borders, cmp), k) <= |borders|
    ensures var p := Before(Placement(items[..k], borders, cmp), k);
      var q := Advance(items[k].0, borders, p, cmp);
      Opened(items[..k + 1], borders, cmp) == Opened(items[..k], borders, cmp) + (if q != p then [(q, BorderAt(borders, q))] else [])
  {
    var pre, whole := items[..k], items[..k + 1];
    assert whole[..|whole| - 1] == pre && whole[|whole| - 1] == items[k];
  }

  /** The files opened are numbered 0 and then strictly upwards, each
      header naming the border of its number, and the last one is the file
      the counter points at. */
  lemma {:induction false} OpenedProps(items: seq<(F64, string)>, borders: seq<F64>, cmp: (F64, F64) -> bool)
    ensures |Opened(items, borders, cmp)| >= 1 && Opened(items, borders, cmp)[0] == (0, BorderAt(borders, 0))
    ensures forall i, j :: 0 <= i < j < |Opened(items, borders, cmp)| ==> Opened(items, borders, cmp)[i].0 < Opened(items, borders, cmp)[j].0
    ensures forall i :: 0 <= i < |Opened(items, borders, cmp)| ==>
      Opened(items, borders, cmp)[i].1 == BorderAt(borders, Opened(items, borders, cmp)[i].0)
    ensures var os := Opened(items, borders, cmp);
      os[|os| - 1].0 == Before(Placement(items, borders, cmp), |items|)
  {
    if items != [] {
      var init := items[..|items| - 1];
      OpenedProps(init, borders, cmp);
      var os := Opened(init, borders, cmp);
      var placed := Placement(init, borders, cmp);
      var p := Before(placed, |placed|);
      var q := Advance(items[|items| - 1].0, borders, p, cmp);
      var os' := Opened(items, borders, cmp);
      if q != p {
        assert os' == os + [(q, BorderAt(borders, q))];
        forall i, j | 0 <= i < j < |os'|
          ensures os'[i].0 < os'[j].0
        {
          if j == |os'| - 1 && i < j - 1 {
            assert os'[i].0 < os'[j - 1].0;
          }
        }
      }
    }
  }

  /** Every item goes to a file that was opened. */
  lemma {:induction false} PlacedOpened(items: seq<(F64, string)>, borders: seq<F64>, cmp: (F64, F64) -> bool, k: nat)
    requires k < |items|
    ensures exists j :: 0 <= j < |Opened(items, borders, cmp)| && Opened(items, borders, cmp)[j].0 == Placement(items, borders, cmp)[k]
    decreases |items|
  {
    var init := items[..|items| - 1];
    var pi := Placement(init, borders, cmp);
    var os := Opened(init, borders, cmp);
    var os' := Opened(items, borders, cmp);
    assert Placement(items, borders, cmp)[..|init|] == pi;
    assert os'[..|os|] == os;
    if k < |init| {
      PlacedOpened(init, borders, cmp, k);
      var j :| 0 <= j < |os| && os[j].0 == pi[k];
      assert os'[j] == os[j];
    } else {
      OpenedProps(init, borders, cmp);
      var p := Before(pi, |pi|);
      var q := Advance(items[|items| - 1].0, borders, p, cmp);
      if q == p {
        assert os'[|os| - 1] == os[|os| - 1];
      } else {
        assert os'[|os|].0 == q;
      }
    }
  }

  /** `partition_helper`: `counter` and `next` walk along the borders, a new
      file is opened whenever an item fails `cmp` against `next`, and every
      item is written to the current file. */
  method PartitionHelper(items: seq<(F64, string)>, borders: seq<F64>, cmp: (F64, F64) -> bool)
    returns (files: seq<(nat, Option<F64>)>, placed: seq<nat>)
    ensures files == Opened(items, borders, cmp)
    ensures placed == Placement(items, borders, cmp)
  {
    var counter := 0;
    var next := BorderAt(borders, 0);
    files := [(counter, next)];
    placed := [];
    for k := 0 to |items|
      invariant counter <= |borders| && next == BorderAt(borders, counter)
      invariant placed == Placement(items[..k], borders, cmp)
      invariant files == Opened(items[..k], borders, cmp)
      invariant counter == Before(placed, k)
    {
      var val := items[k].0;
      PlacementSnoc(items, borders, cmp, k);
      OpenedSnoc(items, borders, cmp, k);
      ghost var target := Advance(val, borders, counter, cmp);
      if next.Some? && !cmp(val, next.value) {
        counter := counter + 1;
        next := BorderAt(borders, counter);
        while next.Some? && !cmp(val, next.value)
          invariant counter <= |borders| && next == BorderAt(borders, counter)
          invariant Advance(val, borders, counter, cmp) == target
          decreases |borders| - counter
        {
          counter := counter + 1;
          next := BorderAt(borders, counter);
        }
        files := files + [(counter, next)];
      }
      placed := placed + [counter];
    }
    assert items[..|items|] == items;
  }
}
