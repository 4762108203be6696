/** `worst_integral_sorting` (`src/other_exec.rs`): later files are rewritten
    in the line order of the first file, unseen ids appended in the order
    in which they first appear. */
module IntegralSort {
  import opened Common
  import opened Text
  import opened Sorting
  import opened IntegralParts

  const UnwrapNone := "called `Option::unwrap()` on a `None` value"

  /** A data line without a first word makes `DataLines(lines)` not all
      worded. */
  lemma {:induction false} Wordless(lines: seq<string>, i: nat)
    requires i < |lines| && !IsComment(lines[i]) && FirstWord(lines[i]).None?
    ensures !AllWorded(DataLines(lines))
  {
    DataLinesStep(lines, i);
    DataLinesAppend(lines[..i + 1], lines[i + 1..]);
    assert lines[..i + 1] + lines[i + 1..] == lines;
    assert DataLines(lines)[|DataLines(lines[..i])|] == lines[i];
  }

  /** A worded data line extends the ids by its first word. */
  lemma {:induction false} DataStep(lines: seq<string>, i: nat)
    requires i < |lines| && !IsComment(lines[i]) && FirstWord(lines[i]).Some?
    requires AllWorded(DataLines(lines[..i]))
    ensures AllWorded(DataLines(lines[..i + 1]))
    ensures Ids(DataLines(lines[..i + 1])) == Ids(DataLines(lines[..i])) + [FirstWord(lines[i]).value]
    ensures |DataLines(lines[..i + 1])| == |DataLines(lines[..i])| + 1
  {
    DataLinesStep(lines, i);
    IdsSnoc(DataLines(lines[..i]), lines[i]);
  }

  lemma {:induction false} FirstMapSnoc(ids: seq<string>, x: string)
    ensures FirstMap(ids + [x]) == FirstMap(ids)[x := |ids|]
  {
    assert (ids + [x])[..|ids|] == ids;
  }

  lemma {:induction false} AssignedSnoc(ids: seq<string>, x: string, m: map<string, nat>, counter: nat)
    ensures Assigned(ids + [x], m, counter) ==
      var p := Assigned(ids, m, counter);
      if x in p.0 then p else (p.0[x := p.1], p.1 + 1)
  {
    assert (ids + [x])[..|ids|] == ids;
  }

  /** The first file: each data line gives its id the next counter. */
  method FirstOrders(lines: seq<string>) returns (r: Result<(map<string, nat>, nat)>)
    ensures r.Abort? <==> !AllWorded(DataLines(lines))
    ensures r.Ok? ==> AllWorded(DataLines(lines)) && r.value == (FirstMap(Ids(DataLines(lines))), |DataLines(lines)|)
  {
    var sorting: map<string, nat> := map[];
    var counter: nat := 0;
    for i := 0 to |lines|
      invariant AllWorded(DataLines(lines[..i]))
      invariant sorting == FirstMap(Ids(DataLines(lines[..i])))
      invariant counter == |DataLines(lines[..i])|
    {
      DataLinesStep(lines, i);
      if !IsComment(lines[i]) {
        var w := FirstWord(lines[i]);
        if w.None? {
          Wordless(lines, i);
          return Abort(UnwrapNone);
        }
        DataStep(lines, i);
        FirstMapSnoc(Ids(DataLines(lines[..i])), w.value);
        sorting := sorting[w.value := counter];
        counter := counter + 1;
      }
    }
    assert lines[..|lines|] == lines;
    return Ok((sorting, counter));
  }

  lemma {:induction false} EntriesSnoc(d: seq<string>, x: string, m: map<string, nat>, m': map<string, nat>)
    requires AllWorded(d) && FirstWord(x).Some? && FirstWord(x).value in m'
    requires forall k :: 0 <= k < |d| ==> Ids(d)[k] in m
    requires forall y :: y in m ==> y in m' && m'[y] == m[y]
    ensures AllWorded(d + [x]) && forall k :: 0 <= k < |d| + 1 ==> Ids(d + [x])[k] in m'
    ensures Entries(d + [x], m') == Entries(d, m) + [Keyed(m'[FirstWord(x).value], x)]
  {
    IdsSnoc(d, x);
  }

  /** What the read loop of a later file has built after `i` lines. */
  ghost predicate Gathered(lines: seq<string>, i: nat, m: map<string, nat>, counter: nat,
                           comments: seq<string>, es: seq<Keyed>, sorting: map<string, nat>, c: nat)
    requires i <= |lines|
  {
    var d := DataLines(lines[..i]);
    AllWorded(d) &&
    comments == CommentLines(lines[..i]) &&
    (sorting, c) == Assigned(Ids(d), m, counter) &&
    (forall y :: y in m ==> y in sorting && sorting[y] == m[y]) &&
    (forall k :: 0 <= k < |d| ==> Ids(d)[k] in sorting) &&
    es == Entries(d, sorting)
  }

  lemma {:induction false} GatherComment(lines: seq<string>, i: nat, m: map<string, nat>, counter: nat,
                      comments: seq<string>, es: seq<Keyed>, sorting: map<string, nat>, c: nat)
    requires i < |lines| && IsComment(lines[i])
    requires Gathered(lines, i, m, counter, comments, es, sorting, c)
    ensures Gathered(lines, i + 1, m, counter, comments + [lines[i]], es, sorting, c)
  {
    DataLinesStep(lines, i);
    CommentLinesStep(lines, i);
  }

  /** A data line whose id has an order, or gets the next one. */
  lemma {:induction false} GatherData(lines: seq<string>, i: nat, m: map<string, nat>, counter: nat,
                   comments: seq<string>, es: seq<Keyed>, sorting: map<string, nat>, c: nat)
    requires i < |lines| && !IsComment(lines[i]) && FirstWord(lines[i]).Some?
    requires Gathered(lines, i, m, counter, comments, es, sorting, c)
    ensures var w := FirstWord(lines[i]).value;
      if w in sorting then
        Gathered(lines, i + 1, m, counter, comments, es + [Keyed(sorting[w], lines[i])], sorting, c)
      else
        Gathered(lines, i + 1, m, counter, comments, es + [Keyed(c, lines[i])], sorting[w := c], c + 1)
  {
    var w := FirstWord(lines[i]).value;
    var d := DataLines(lines[..i]);
    DataLinesStep(lines, i);
    CommentLinesStep(lines, i);
    DataStep(lines, i);
    AssignedSnoc(Ids(d), w, m, counter);
    if w in sorting {
      EntriesSnoc(d, lines[i], sorting, sorting);
    } else {
      EntriesSnoc(d, lines[i], sorting, sorting[w := c]);
    }
  }

  /** The read loop of a later file: comments are kept in order, each data
      line is paired with the order of its id, new ids being numbered on
      the way. */
  method Gather(lines: seq<string>, m: map<string, nat>, counter: nat)
    returns (r: Result<(seq<string>, seq<Keyed>, map<string, nat>, nat)>)
    ensures r.Abort? <==> !AllWorded(DataLines(lines))
    ensures r.Ok? ==> AllWorded(DataLines(lines)) && r.value.0 == CommentLines(lines)
    ensures r.Ok? ==> (r.value.2, r.value.3) == Assigned(Ids(DataLines(lines)), m, counter)
    ensures r.Ok? ==> forall k :: 0 <= k < |DataLines(lines)| ==> Ids(DataLines(lines))[k] in r.value.2
    ensures r.Ok? ==> r.value.1 == Entries(DataLines(lines), r.value.2)
  {
    var comments: seq<string> := [];
    var es: seq<Keyed> := [];
    var sorting := m;
    var c := counter;
    for i := 0 to |lines|
      invariant Gathered(lines, i, m, counter, comments, es, sorting, c)
    {
      if IsComment(lines[i]) {
        GatherComment(lines, i, m, counter, comments, es, sorting, c);
        comments := comments + [lines[i]];
      } else {
        var w := FirstWord(lines[i]);
        if w.None? {
          Wordless(lines, i);
          return Abort(UnwrapNone);
        }
        GatherData(lines, i, m, counter, comments, es, sorting, c);
        if w.value in sorting {
          es := es + [Keyed(sorting[w.value], lines[i])];
        } else {
          es := es + [Keyed(c, lines[i])];
          sorting := sorting[w.value := c];
          c := c + 1;
        }
      }
    }
    assert lines[..|lines|] == lines;
    return Ok((comments, es, sorting, c));
  }

  function Placeholders(n: nat): (r: seq<string>)
    ensures |r| == n && forall k :: 0 <= k < n ==> r[k] == Placeholder
  {
    seq(n, _ => Placeholder)
  }

  /** One more entry, past every earlier one, after `n` placeholder rows. */
  lemma {:induction false} RowsSnoc(es: seq<Keyed>, out: seq<string>, e: Keyed, n: nat)
    requires Rows(es, out) && e.order == |out| + n
    ensures Rows(es + [e], out + Placeholders(n) + [e.line])
  {
    var out' := out + Placeholders(n) + [e.line];
    forall p | 0 <= p < |out'| && (forall d :: d in es + [e] ==> d.order != p)
      ensures out'[p] == Placeholder
    {
      if p < |out| {
        assert forall d :: d in es ==> d in es + [e];
      }
    }
    assert e in es + [e];
  }

  /** One entry of the write loop: the placeholder rows up to its order,
      then its line; `checked_sub` fails when the rows already written have
      passed its order. */
  method PutLine(out: seq<string>, e: Keyed) returns (r: Result<seq<string>>)
    ensures r.Abort? <==> e.order < |out|
    ensures r.Ok? ==> r.value == out + Placeholders(e.order - |out|) + [e.line]
  {
    var written := |out|;
    if written == e.order {
      assert out + Placeholders(0) == out;
      return Ok(out + [e.line]);
    }
    if e.order < written {
      return Abort(UnwrapNone);
    }
    var missing := e.order - written;
    var o := out;
    for q := 0 to missing
      invariant o == out + Placeholders(q)
    {
      assert Placeholders(q + 1) == Placeholders(q) + [Placeholder];
      o := o + [Placeholder];
    }
    return Ok(o + [e.line]);
  }

  lemma {:induction false} KeyedInOrder(s: seq<Keyed>)
    requires SortedBy(s, OrderKey)
    ensures InOrder(s)
  {
    forall i, j | 0 <= i < j < |s|
      ensures s[i].order <= s[j].order
    {
      assert OrderKey(s[i]) <= OrderKey(s[j]);
    }
  }

  /** One step of the write loop: the next entry either repeats the last
      order or extends the rows. */
  lemma {:induction false} WriteStep(sorted: seq<Keyed>, i: nat, out: seq<string>)
    requires InOrder(sorted) && Writing(sorted, i, out) && i < |sorted|
    ensures sorted[i].order < |out| ==> exists a, b :: 0 <= a < b < |sorted| && sorted[a].order == sorted[b].order
    ensures |out| <= sorted[i].order ==>
      Writing(sorted, i + 1, out + Placeholders(sorted[i].order - |out|) + [sorted[i].line])
  {
    var e := sorted[i];
    if e.order < |out| {
      assert sorted[i - 1].order == e.order;
    } else {
      assert sorted[..i + 1] == sorted[..i] + [e];
      RowsSnoc(sorted[..i], out, e, e.order - |out|);
    }
  }

  /** The write loop ran to the end: no order repeats and the rows hold them all. */
  lemma {:induction false} WriteDone(sorted: seq<Keyed>, out: seq<string>)
    requires Writing(sorted, |sorted|, out)
    ensures Rows(sorted, out)
    ensures !exists i, j :: 0 <= i < j < |sorted| && sorted[i].order == sorted[j].order
  {
    assert sorted[..|sorted|] == sorted;
  }

  /** One entry of the write loop, moving the loop state on. */
  method WriteOne(sorted: seq<Keyed>, i: nat, out: seq<string>) returns (r: Result<seq<string>>)
    requires InOrder(sorted) && Writing(sorted, i, out) && i < |sorted|
    ensures r.Abort? ==> exists a, b :: 0 <= a < b < |sorted| && sorted[a].order == sorted[b].order
    ensures r.Ok? ==> Writing(sorted, i + 1, r.value)
  {
    WriteStep(sorted, i, out);
    r := PutLine(out, sorted[i]);
  }

  /** The write loop: each line at the row of its order, placeholder rows
      where an order has no line; it fails at the first order that repeats. */
  method WriteRows(sorted: seq<Keyed>) returns (r: Result<seq<string>>)
    requires InOrder(sorted)
    ensures r.Abort? <==> exists i, j :: 0 <= i < j < |sorted| && sorted[i].order == sorted[j].order
    ensures r.Ok? ==> Rows(sorted, r.value)
  {
    var out: seq<string> := [];
    assert sorted[..0] == [];
    for i := 0 to |sorted|
      invariant Writing(sorted, i, out)
    {
      var next := WriteOne(sorted, i, out);
      if next.Abort? {
        return Abort(next.reason);
      }
      out := next.value;
    }
    WriteDone(sorted, out);
    return Ok(out);
  }

  /** Under a numbering, two entries share an order exactly when two lines
      share an id. */
  lemma {:induction false} SharedOrders(d: seq<string>, m: map<string, nat>, c: nat)
    requires Valid(m, c) && AllWorded(d) && forall k :: 0 <= k < |d| ==> Ids(d)[k] in m
    ensures (exists i, j :: 0 <= i < j < |d| && Entries(d, m)[i].order == Entries(d, m)[j].order) <==> !Distinct(Ids(d))
  {
    if !Distinct(Ids(d)) {
      var i, j :| 0 <= i < j < |d| && Ids(d)[i] == Ids(d)[j];
      assert Entries(d, m)[i].order == Entries(d, m)[j].order;
    }
  }

  /** One later file: its comments, then its data rows in the shared order,
      and the numbering extended by its new ids. */
  method SortLater(lines: seq<string>, m: map<string, nat>, counter: nat)
    returns (r: Result<(seq<string>, map<string, nat>, nat)>)
    requires Valid(m, counter)
    ensures r.Abort? <==> !AllWorded(DataLines(lines)) || !Distinct(Ids(DataLines(lines)))
    ensures r.Ok? ==> AllWorded(DataLines(lines)) && Distinct(Ids(DataLines(lines)))
    ensures r.Ok? ==> (r.value.1, r.value.2) == Assigned(Ids(DataLines(lines)), m, counter)
    ensures r.Ok? ==> SortedOutput(lines, r.value.1, r.value.0)
  {
    var g := Gather(lines, m, counter);
    if g.Abort? {
      return Abort(g.reason);
    }
    var (comments, es, m', c') := g.value;
    ghost var d := DataLines(lines);
    AssignedFresh(Ids(d), m, counter);
    SharedOrders(d, m', c');
    var sorted := SortByKey(es, OrderKey);
    assert multiset(sorted) == multiset(es);
    SharedOrdersPermuted(sorted, es);
    KeyedInOrder(sorted);
    var rows := WriteRows(sorted);
    if rows.Abort? {
      return Abort(rows.reason);
    }
    RowsPermuted(sorted, es, rows.value);
    assert (comments + rows.value)[..|comments|] == comments;
    assert (comments + rows.value)[|comments|..] == rows.value;
    return Ok((comments + rows.value, m', c'));
  }

  /** Whether two entries share an order does not depend on their order. */
  lemma {:induction false} SharedOrdersPermuted(s: seq<Keyed>, t: seq<Keyed>)
    requires multiset(s) == multiset(t)
    ensures (exists i, j :: 0 <= i < j < |s| && s[i].order == s[j].order) <==>
            (exists a, b :: 0 <= a < b < |t| && t[a].order == t[b].order)
  {
    if exists i, j :: 0 <= i < j < |s| && s[i].order == s[j].order {
      var i, j :| 0 <= i < j < |s| && s[i].order == s[j].order;
      SameOrderPair(s, t, i, j);
    }
    if exists a, b :: 0 <= a < b < |t| && t[a].order == t[b].order {
      var a, b :| 0 <= a < b < |t| && t[a].order == t[b].order;
      SameOrderPair(t, s, a, b);
    }
  }

  /** Two equal entries make two copies in the multiset. */
  lemma {:induction false} PairCopies(s: seq<Keyed>, i: nat, j: nat)
    requires i < j < |s| && s[i] == s[j]
    ensures multiset(s)[s[i]] >= 2
  {
    assert s == s[..j] + [s[j]] + s[j + 1..];
    assert s[..j][i] == s[i];
    assert multiset(s) == multiset(s[..j]) + multiset{s[j]} + multiset(s[j + 1..]);
  }

  /** Two copies in the multiset sit at two positions. */
  lemma {:induction false} CopiesPair(t: seq<Keyed>, x: Keyed)
    requires multiset(t)[x] >= 2
    ensures exists a, b :: 0 <= a < b < |t| && t[a] == x && t[b] == x
    decreases |t|
  {
    var n := |t| - 1;
    assert t == t[..n] + [t[n]];
    assert multiset(t) == multiset(t[..n]) + multiset{t[n]};
    if t[n] == x {
      assert x in multiset(t[..n]);
      var a :| 0 <= a < n && t[..n][a] == x;
      assert t[a] == x && t[n] == x;
    } else {
      CopiesPair(t[..n], x);
      var a, b :| 0 <= a < b < n && t[..n][a] == x && t[..n][b] == x;
      assert t[a] == x && t[b] == x;
    }
  }

  /** A pair of entries with one order survives a permutation. */
  lemma {:induction false} SameOrderPair(s: seq<Keyed>, t: seq<Keyed>, i: nat, j: nat)
    requires multiset(s) == multiset(t) && i < j < |s| && s[i].order == s[j].order
    ensures exists a, b :: 0 <= a < b < |t| && t[a].order == t[b].order
  {
    if s[i] == s[j] {
      PairCopies(s, i, j);
      CopiesPair(t, s[i]);
      var a, b :| 0 <= a < b < |t| && t[a] == s[i] && t[b] == s[i];
      assert t[a].order == t[b].order;
    } else {
      assert s[i] in multiset(t) && s[j] in multiset(t);
      var a :| 0 <= a < |t| && t[a] == s[i];
      var b :| 0 <= b < |t| && t[b] == s[j];
      if a < b {
        assert t[a].order == t[b].order;
      } else {
        assert t[b].order == t[a].order;
      }
    }
  }

  /** The rewritten file: the comment lines first, then the data rows of the
      entries under the numbering. */
  ghost predicate SortedOutput(lines: seq<string>, m: map<string, nat>, out: seq<string>)
  {
    var cs := CommentLines(lines);
    var d := DataLines(lines);
    AllWorded(d) &&
    (forall k :: 0 <= k < |d| ==> Ids(d)[k] in m) &&
    |cs| <= |out| && out[..|cs|] == cs && Rows(Entries(d, m), out[|cs|..])
  }

  /** `split('/').last()`: the part after the last `/`. */
  function LastPart(path: string): (r: string)
    ensures '/' !in r && |r| <= |path| && path[|path| - |r|..] == r
    ensures |r| < |path| ==> path[|path| - |r| - 1] == '/'
  {
    if path == [] || path[|path| - 1] == '/' then []
    else
      var t := path[..|path| - 1];
      var r := LastPart(t);
      assert t[|t| - |r|..] == r;
      assert path[|path| - |r| - 1..] == t[|t| - |r|..] + [path[|path| - 1]];
      r + [path[|path| - 1]]
  }

  /** The name of the rewritten file. */
  function SortedName(path: string): string
  {
    LastPart(path) + ".sorted"
  }

  /** The contents of the files, as `read` gives them. */
  function Contents(files: seq<string>, read: string -> seq<string>): (c: seq<seq<string>>)
    ensures |c| == |files| && forall f :: 0 <= f < |files| ==> c[f] == read(files[f])
  {
    seq(|files|, f requires 0 <= f < |files| => read(files[f]))
  }

  /** The numbering after the first `f` files. */
  ghost function OrdersAfter(cs: seq<seq<string>>, f: nat): (map<string, nat>, nat)
    requires 1 <= f <= |cs| && forall g :: 0 <= g < f ==> AllWorded(DataLines(cs[g]))
  {
    if f == 1 then (FirstMap(Ids(DataLines(cs[0]))), |DataLines(cs[0])|)
    else
      var p := OrdersAfter(cs, f - 1);
      Assigned(Ids(DataLines(cs[f - 1])), p.0, p.1)
  }

  /** It stays a numbering. */
  lemma {:induction false} OrdersValid(cs: seq<seq<string>>, f: nat)
    requires 1 <= f <= |cs| && forall g :: 0 <= g < f ==> AllWorded(DataLines(cs[g]))
    ensures Valid(OrdersAfter(cs, f).0, OrdersAfter(cs, f).1)
  {
    if f == 1 {
      FirstMapValid(Ids(DataLines(cs[0])));
    } else {
      OrdersValid(cs, f - 1);
      var p := OrdersAfter(cs, f - 1);
      AssignedFresh(Ids(DataLines(cs[f - 1])), p.0, p.1);
    }
  }

  /** Nothing makes the run fail: two files at least, every data line with
      an id, and no id twice in a later file. */
  ghost predicate Sortable(cs: seq<seq<string>>)
  {
    |cs| >= 2 &&
    (forall g :: 0 <= g < |cs| ==> AllWorded(DataLines(cs[g]))) &&
    (forall g :: 1 <= g < |cs| ==> Distinct(Ids(DataLines(cs[g]))))
  }

  lemma {:induction false} WordedStep(cs: seq<seq<string>>, f: nat)
    requires f < |cs| && AllWorded(DataLines(cs[f]))
    requires forall g :: 0 <= g < f ==> AllWorded(DataLines(cs[g]))
    ensures forall g :: 0 <= g <= f ==> AllWorded(DataLines(cs[g]))
  {
  }

  lemma {:induction false} DistinctStep(cs: seq<seq<string>>, f: nat)
    requires f < |cs| && forall g :: 0 <= g <= f ==> AllWorded(DataLines(cs[g]))
    requires Distinct(Ids(DataLines(cs[f])))
    requires forall g :: 1 <= g < f ==> Distinct(Ids(DataLines(cs[g])))
    ensures forall g :: 1 <= g <= f ==> Distinct(Ids(DataLines(cs[g])))
  {
  }

  /** Entry `j` of the output is later file `j + 1`, rewritten: its name
      and its lines in the numbering after its own ids were added. */
  ghost predicate Done(files: seq<string>, cs: seq<seq<string>>, j: nat, out: (string, seq<string>))
    requires |cs| == |files| && j + 1 < |cs|
    requires forall g :: 0 <= g <= j + 1 ==> AllWorded(DataLines(cs[g]))
  {
    out.0 == SortedName(files[j + 1]) && SortedOutput(cs[j + 1], OrdersAfter(cs, j + 2).0, out.1)
  }

  /** Every output so far is `Done`. */
  ghost predicate Written(files: seq<string>, cs: seq<seq<string>>, outs: seq<(string, seq<string>)>)
    requires |cs| == |files| && |outs| < |cs|
    requires forall g :: 0 <= g <= |outs| ==> AllWorded(DataLines(cs[g]))
    decreases |outs|
  {
    outs == [] ||
    (Written(files, cs, outs[..|outs| - 1]) && Done(files, cs, |outs| - 1, outs[|outs| - 1]))
  }

  lemma {:induction false} WrittenSnoc(files: seq<string>, cs: seq<seq<string>>, outs: seq<(string, seq<string>)>, x: (string, seq<string>))
    requires |cs| == |files| && |outs| + 1 < |cs|
    requires forall g :: 0 <= g <= |outs| + 1 ==> AllWorded(DataLines(cs[g]))
    requires Written(files, cs, outs) && Done(files, cs, |outs|, x)
    ensures Written(files, cs, outs + [x])
  {
    assert (outs + [x])[..|outs|] == outs;
  }

  lemma {:induction false} WrittenAt(files: seq<string>, cs: seq<seq<string>>, outs: seq<(string, seq<string>)>, j: nat)
    requires |cs| == |files| && |outs| < |cs|
    requires forall g :: 0 <= g <= |outs| ==> AllWorded(DataLines(cs[g]))
    requires Written(files, cs, outs) && j < |outs|
    ensures Done(files, cs, j, outs[j])
    decreases |outs|
  {
    if j < |outs| - 1 {
      var t := outs[..|outs| - 1];
      WrittenAt(files, cs, t, j);
      assert t[j] == outs[j];
    }
  }

  /** The state of the run before later file `f`. */
  ghost predicate Running(files: seq<string>, cs: seq<seq<string>>, f: nat,
                          sorting: map<string, nat>, counter: nat, outs: seq<(string, seq<string>)>)
    requires |cs| == |files| && 1 <= f <= |cs|
  {
    (forall g :: 0 <= g < f ==> AllWorded(DataLines(cs[g]))) &&
    (forall g :: 1 <= g < f ==> Distinct(Ids(DataLines(cs[g])))) &&
    (sorting, counter) == OrdersAfter(cs, f) &&
    Valid(sorting, counter) &&
    |outs| == f - 1 && Written(files, cs, outs)
  }

  /** Later file `f`, sorted without failing, moves the run on. */
  lemma {:induction false} RunStep(files: seq<string>, cs: seq<seq<string>>, f: nat,
                sorting: map<string, nat>, counter: nat, outs: seq<(string, seq<string>)>,
                out: seq<string>, m': map<string, nat>, c': nat)
    requires |cs| == |files| && 1 <= f < |cs|
    requires Running(files, cs, f, sorting, counter, outs)
    requires AllWorded(DataLines(cs[f])) && Distinct(Ids(DataLines(cs[f])))
    requires (m', c') == Assigned(Ids(DataLines(cs[f])), sorting, counter)
    requires SortedOutput(cs[f], m', out)
    ensures Running(files, cs, f + 1, m', c', outs + [(SortedName(files[f]), out)])
  {
    WordedStep(cs, f);
    DistinctStep(cs, f);
    assert OrdersAfter(cs, f + 1) == (m', c');
    WrittenSnoc(files, cs, outs, (SortedName(files[f]), out));
    OrdersValid(cs, f + 1);
  }

  /** A file that makes the run fail: a data line without an id, or an id
      twice in a later file. */
  lemma {:induction false} Unsortable(cs: seq<seq<string>>, f: nat)
    requires f < |cs| && forall g :: 0 <= g < f ==> AllWorded(DataLines(cs[g]))
    requires !AllWorded(DataLines(cs[f])) || (f >= 1 && !Distinct(Ids(DataLines(cs[f]))))
    ensures !Sortable(cs)
  {
  }

  /** A run that has gone through every file without failing shows the
      files sortable and every output done. */
  lemma {:induction false} RunDone(files: seq<string>, cs: seq<seq<string>>,
                sorting: map<string, nat>, counter: nat, outs: seq<(string, seq<string>)>)
    requires |cs| == |files| && |cs| >= 2
    requires Running(files, cs, |cs|, sorting, counter, outs)
    ensures Sortable(cs) && |outs| == |files| - 1
    ensures forall j :: 0 <= j < |outs| ==> Done(files, cs, j, outs[j])
  {
    forall j | 0 <= j < |outs|
      ensures Done(files, cs, j, outs[j])
    {
      WrittenAt(files, cs, outs, j);
    }
  }
}
