/** The rules of `network_parser` in `src/parser.rs`: the header gives the
    columns and the year columns; a first pass over the wanted rows checks
    that they share one unit and have the header's length and collects the
    country codes; the nodes are those codes in ascending order; a second
    pass adds, for every year, an edge from reporter to partner for every
    positive amount. Rows are given already split into fields. */
module NetworkParser {
  import opened Common
  import opened Text
  import opened Graph
  import opened DirectedNetwork

  // ---------------------------------------------------------------------
  // The header

  /** A header entry names a year column when it is `Y` followed by an
      `i32`. */
  function YearOf(entry: string): (r: Option<int>)
    ensures r.Some? ==> I32Min <= r.value <= I32Max && entry != [] && entry[0] == 'Y'
    ensures r.Some? <==> entry != [] && entry[0] == 'Y' && ParseInt(entry[1..], true, I32Min, I32Max).Some?
  {
    if entry != [] && entry[0] == 'Y' then ParseInt(entry[1..], true, I32Min, I32Max) else None
  }

  /** `years` lists, in column order, the year columns among the first
      `upto` header entries. */
  ghost predicate YearsUpTo(entries: seq<string>, years: seq<(int, nat)>, upto: nat)
    requires upto <= |entries|
  {
    (forall k :: 0 <= k < |years| ==> years[k].1 < upto && YearOf(entries[years[k].1]) == Some(years[k].0)) &&
    (forall k, l :: 0 <= k < l < |years| ==> years[k].1 < years[l].1) &&
    (forall i :: 0 <= i < upto && YearOf(entries[i]).Some? ==> exists k :: 0 <= k < |years| && years[k].1 == i)
  }

  /** `names` maps each of the first `upto` header entries to the column
      where it last occurs among them. */
  ghost predicate NamesUpTo(entries: seq<string>, names: map<string, nat>, upto: nat)
    requires upto <= |entries|
  {
    (forall e :: e in names <==> e in entries[..upto]) &&
    (forall e :: e in names ==>
       names[e] < upto && entries[names[e]] == e && forall j :: names[e] < j < upto ==> entries[j] != e)
  }

  lemma {:induction false} YearsStep(entries: seq<string>, years: seq<(int, nat)>, idx: nat)
    requires idx < |entries| && YearsUpTo(entries, years, idx)
    ensures YearOf(entries[idx]).None? ==> YearsUpTo(entries, years, idx + 1)
    ensures YearOf(entries[idx]).Some? ==> YearsUpTo(entries, years + [(YearOf(entries[idx]).value, idx)], idx + 1)
  {
    if YearOf(entries[idx]).Some? {
      var next := years + [(YearOf(entries[idx]).value, idx)];
      assert forall k :: 0 <= k < |years| ==> next[k] == years[k];
      assert next[|years|].1 == idx;
    }
  }

  lemma {:induction false} NamesStep(entries: seq<string>, names: map<string, nat>, idx: nat)
    requires idx < |entries| && NamesUpTo(entries, names, idx)
    ensures NamesUpTo(entries, names[entries[idx] := idx], idx + 1)
  {
    var next := names[entries[idx] := idx];
    assert entries[..idx + 1] == entries[..idx] + [entries[idx]];
    forall e | e in next
      ensures next[e] < idx + 1 && entries[next[e]] == e && forall j :: next[e] < j < idx + 1 ==> entries[j] != e
    {
      if e != entries[idx] {
        assert next[e] == names[e];
      }
    }
  }

  /** The header loop: the year columns in column order, and a map from
      every entry to the column where it last occurs. */
  method ReadHeader(entries: seq<string>) returns (years: seq<(int, nat)>, names: map<string, nat>)
    ensures forall k :: 0 <= k < |years| ==> years[k].1 < |entries| && YearOf(entries[years[k].1]) == Some(years[k].0)
    ensures forall k, l :: 0 <= k < l < |years| ==> years[k].1 < years[l].1
    ensures forall i :: 0 <= i < |entries| && YearOf(entries[i]).Some? ==> exists k :: 0 <= k < |years| && years[k].1 == i
    ensures forall e :: e in names <==> e in entries
    ensures forall e :: e in names ==>
              names[e] < |entries| && entries[names[e]] == e && forall j :: names[e] < j < |entries| ==> entries[j] != e
  {
    years := [];
    names := map[];
    for idx := 0 to |entries|
      invariant YearsUpTo(entries, years, idx)
      invariant NamesUpTo(entries, names, idx)
    {
      var entry := entries[idx];
      YearsStep(entries, years, idx);
      NamesStep(entries, names, idx);
      if entry != [] && entry[0] == 'Y' {
        var y := ParseInt(entry[1..], true, I32Min, I32Max);
        if y.Some? {
          years := years + [(y.value, idx)];
        }
      }
      names := names[entry := idx];
    }
    assert entries[..|entries|] == entries;
  }

  datatype Columns = Columns(item: nat, reporter: nat, partner: nat, unit: nat, element: nat)

  /** The five columns the parser looks up; a missing one stops the run. */
  function HeaderColumns(names: map<string, nat>): (r: Result<Columns>)
    ensures r.Ok? <==> "Item Code" in names && "Reporter Country Code" in names && "Partner Country Code" in names &&
                       "Unit" in names && "Element" in names
    ensures r.Ok? ==> r.value.item == names["Item Code"] && r.value.unit == names["Unit"] &&
                      r.value.reporter == names["Reporter Country Code"] &&
                      r.value.partner == names["Partner Country Code"] && r.value.element == names["Element"]
  {
    if "Item Code" !in names then Abort("no Item Code column")
    else if "Reporter Country Code" !in names then Abort("no Reporter Country Code column")
    else if "Partner Country Code" !in names then Abort("no Partner Country Code column")
    else if "Unit" !in names then Abort("no Unit column")
    else if "Element" !in names then Abort("no Element column")
    else Ok(Columns(names["Item Code"], names["Reporter Country Code"], names["Partner Country Code"],
                    names["Unit"], names["Element"]))
  }

  // ---------------------------------------------------------------------
  // The first pass: one unit, the header's length, the country codes

  /** What selects a row: its columns, the expected row length (the number
      of distinct header entries), the item code and the transaction type. */
  datatype Filter = Filter(c: Columns, lineLen: nat, itemCode: string, wanted: string)

  /** The cells the two row filters read are there. */
  ghost predicate CellsPresent(row: seq<string>, f: Filter)
  {
    f.c.item < |row| && (row[f.c.item] == f.itemCode ==> f.c.element < |row|)
  }

  ghost predicate IsSelected(row: seq<string>, f: Filter)
  {
    f.c.item < |row| && row[f.c.item] == f.itemCode && f.c.element < |row| && row[f.c.element] == f.wanted
  }

  /** A selected row must have the header's length and the unit and country
      cells. */
  ghost predicate RowShape(row: seq<string>, f: Filter)
  {
    f.c.unit < |row| && |row| == f.lineLen && f.c.reporter < |row| && f.c.partner < |row|
  }

  ghost predicate WellFormed(rows: seq<seq<string>>, f: Filter)
  {
    forall i :: 0 <= i < |rows| ==> CellsPresent(rows[i], f) && (IsSelected(rows[i], f) ==> RowShape(rows[i], f))
  }

  /** All selected rows carry one unit, the given one if there is one. */
  ghost predicate UnitsAgree(u: Option<string>, rows: seq<seq<string>>, f: Filter)
  {
    (forall i :: 0 <= i < |rows| && IsSelected(rows[i], f) && RowShape(rows[i], f) && u.Some? ==> rows[i][f.c.unit] == u.value) &&
    (forall i, j ::
       (0 <= i < |rows| && 0 <= j < |rows| && IsSelected(rows[i], f) && RowShape(rows[i], f) &&
        IsSelected(rows[j], f) && RowShape(rows[j], f)) ==> rows[i][f.c.unit] == rows[j][f.c.unit])
  }

  /** The unit seen first and the country codes, in ascending order. */
  datatype Pass = Pass(unit: Option<string>, countries: seq<string>)

  ghost predicate ValidPass(p: Pass)
  {
    StrSorted(p.countries)
  }

  /** One row of the first pass. */
  function RowStep(st: Pass, row: seq<string>, f: Filter): (r: Result<Pass>)
    requires ValidPass(st)
    ensures r.Ok? ==> ValidPass(r.value)
  {
    if f.c.item >= |row| then Abort("index out of bounds")
    else if row[f.c.item] != f.itemCode then Ok(st)
    else if f.c.element >= |row| then Abort("index out of bounds")
    else if row[f.c.element] != f.wanted then Ok(st)
    else if f.c.unit >= |row| then Abort("unwrap on None")
    else if st.unit.Some? && st.unit.value != row[f.c.unit] then Abort("Unit error")
    else if |row| != f.lineLen then Abort("Line error")
    else if f.c.reporter >= |row| || f.c.partner >= |row| then Abort("unwrap on None")
    else
      var u := if st.unit.None? then Some(row[f.c.unit]) else st.unit;
      Ok(Pass(u, InsertSorted(InsertSorted(st.countries, row[f.c.reporter]), row[f.c.partner])))
  }

  function PassFrom(st: Pass, rows: seq<seq<string>>, f: Filter): (r: Result<Pass>)
    requires ValidPass(st)
    ensures r.Ok? ==> ValidPass(r.value)
    decreases |rows|
  {
    if rows == [] then Ok(st)
    else
      match RowStep(st, rows[0], f)
      case Abort(e) => Abort(e)
      case Ok(next) => PassFrom(next, rows[1..], f)
  }

  /** The first loop of `network_parser`, returning early on the first
      error. */
  method FirstPass(rows: seq<seq<string>>, f: Filter) returns (r: Result<Pass>)
    ensures r == PassFrom(Pass(None, []), rows, f)
  {
    var unit: Option<string> := None;
    var countries: seq<string> := [];
    for k := 0 to |rows|
      invariant StrSorted(countries)
      invariant PassFrom(Pass(unit, countries), rows[k..], f) == PassFrom(Pass(None, []), rows, f)
    {
      assert rows[k..][1..] == rows[k + 1..];
      var row := rows[k];
      if f.c.item >= |row| {
        return Abort("index out of bounds");
      }
      if row[f.c.item] != f.itemCode {
        continue;
      }
      if f.c.element >= |row| {
        return Abort("index out of bounds");
      }
      if row[f.c.element] != f.wanted {
        continue;
      }
      if f.c.unit >= |row| {
        return Abort("unwrap on None");
      }
      var u := row[f.c.unit];
      if unit.Some? {
        if unit.value != u {
          return Abort("Unit error");
        }
      } else {
        unit := Some(u);
      }
      if |row| != f.lineLen {
        return Abort("Line error");
      }
      if f.c.reporter >= |row| || f.c.partner >= |row| {
        return Abort("unwrap on None");
      }
      countries := InsertSorted(countries, row[f.c.reporter]);
      countries := InsertSorted(countries, row[f.c.partner]);
    }
    assert rows[|rows|..] == [];
    r := Ok(Pass(unit, countries));
  }

  lemma {:induction false} WellFormedTail(rows: seq<seq<string>>, f: Filter)
    requires rows != []
    ensures WellFormed(rows, f) <==> CellsPresent(rows[0], f) && (IsSelected(rows[0], f) ==> RowShape(rows[0], f)) && WellFormed(rows[1..], f)
  {
    if CellsPresent(rows[0], f) && (IsSelected(rows[0], f) ==> RowShape(rows[0], f)) && WellFormed(rows[1..], f) {
      forall i | 0 <= i < |rows|
        ensures CellsPresent(rows[i], f) && (IsSelected(rows[i], f) ==> RowShape(rows[i], f))
      {
        if i > 0 {
          assert rows[i] == rows[1..][i - 1];
        }
      }
    }
  }

  /** A row that is not selected does not bear on the units. */
  lemma {:induction false} UnitsAgreeSkip(u: Option<string>, rows: seq<seq<string>>, f: Filter)
    requires rows != [] && !(IsSelected(rows[0], f) && RowShape(rows[0], f))
    ensures UnitsAgree(u, rows, f) <==> UnitsAgree(u, rows[1..], f)
  {
    var t := rows[1..];
    assert forall i :: 1 <= i < |rows| ==> rows[i] == t[i - 1];
    if UnitsAgree(u, t, f) {
      forall i, j | 0 <= i < |rows| && 0 <= j < |rows| && IsSelected(rows[i], f) && RowShape(rows[i], f) &&
                    IsSelected(rows[j], f) && RowShape(rows[j], f)
        ensures rows[i][f.c.unit] == rows[j][f.c.unit]
      {
        assert t[i - 1] == rows[i] && t[j - 1] == rows[j];
      }
    }
  }

  /** A selected row fixes the unit for the rows after it. */
  lemma {:induction false} UnitsAgreeTake(u: Option<string>, rows: seq<seq<string>>, f: Filter)
    requires rows != [] && IsSelected(rows[0], f) && RowShape(rows[0], f)
    requires u.Some? ==> u.value == rows[0][f.c.unit]
    ensures UnitsAgree(u, rows, f) <==> UnitsAgree(Some(rows[0][f.c.unit]), rows[1..], f)
  {
    var t := rows[1..];
    var w := rows[0][f.c.unit];
    assert forall i :: 1 <= i < |rows| ==> rows[i] == t[i - 1];
    if UnitsAgree(Some(w), t, f) {
      assert forall i :: 0 <= i < |rows| && IsSelected(rows[i], f) && RowShape(rows[i], f) ==> rows[i][f.c.unit] == w by {
        forall i | 0 <= i < |rows| && IsSelected(rows[i], f) && RowShape(rows[i], f)
          ensures rows[i][f.c.unit] == w
        {
          if i > 0 {
            assert t[i - 1] == rows[i];
          }
        }
      }
    }
    if UnitsAgree(u, rows, f) {
      forall i | 0 <= i < |t| && IsSelected(t[i], f) && RowShape(t[i], f)
        ensures t[i][f.c.unit] == w
      {
        assert rows[i + 1] == t[i];
      }
    }
  }

  /** The first pass succeeds exactly when every row has the cells the
      filters read, every selected row has the header's length and its
      unit and country cells, and all selected rows carry the unit seen
      first. */
  lemma {:induction false} PassFromOk(st: Pass, rows: seq<seq<string>>, f: Filter)
    requires ValidPass(st)
    ensures PassFrom(st, rows, f).Ok? <==> WellFormed(rows, f) && UnitsAgree(st.unit, rows, f)
    decreases |rows|
  {
    if rows != [] {
      var row := rows[0];
      WellFormedTail(rows, f);
      var step := RowStep(st, row, f);
      if !(IsSelected(row, f) && RowShape(row, f)) {
        UnitsAgreeSkip(st.unit, rows, f);
        if step.Ok? {
          assert step.value == st;
          PassFromOk(st, rows[1..], f);
        }
      } else if st.unit.Some? && st.unit.value != row[f.c.unit] {
        assert step.Abort?;
        assert !UnitsAgree(st.unit, rows, f);
      } else {
        UnitsAgreeTake(st.unit, rows, f);
        assert step.Ok? && step.value.unit == Some(row[f.c.unit]);
        PassFromOk(step.value, rows[1..], f);
      }
    }
  }

  /** When the first pass succeeds, its countries are exactly the reporter
      and partner codes of the selected rows (besides those it started
      with), and its unit is that of every selected row. */
  lemma {:induction false} PassFromResult(st: Pass, rows: seq<seq<string>>, f: Filter)
    requires ValidPass(st) && PassFrom(st, rows, f).Ok?
    ensures forall x :: x in PassFrom(st, rows, f).value.countries <==>
              x in st.countries ||
              exists i :: 0 <= i < |rows| && IsSelected(rows[i], f) && RowShape(rows[i], f) &&
                          (x == rows[i][f.c.reporter] || x == rows[i][f.c.partner])
    ensures forall i :: 0 <= i < |rows| && IsSelected(rows[i], f) && RowShape(rows[i], f) ==>
              PassFrom(st, rows, f).value.unit == Some(rows[i][f.c.unit])
    ensures st.unit.Some? ==> PassFrom(st, rows, f).value.unit == st.unit
    decreases |rows|
  {
    if rows != [] {
      var row := rows[0];
      var t := rows[1..];
      var next := RowStep(st, row, f).value;
      PassFromResult(next, t, f);
      assert forall i :: 1 <= i < |rows| ==> rows[i] == t[i - 1];
      var res := PassFrom(st, rows, f).value;
      assert res == PassFrom(next, t, f).value;
      if IsSelected(row, f) && RowShape(row, f) {
        assert Elems(next.countries) == Elems(st.countries) + {row[f.c.reporter], row[f.c.partner]};
        forall x | x in res.countries
          ensures x in st.countries ||
                  exists i :: 0 <= i < |rows| && IsSelected(rows[i], f) && RowShape(rows[i], f) &&
                              (x == rows[i][f.c.reporter] || x == rows[i][f.c.partner])
        {
          if x !in next.countries {
            var i :| 0 <= i < |t| && IsSelected(t[i], f) && RowShape(t[i], f) &&
                     (x == t[i][f.c.reporter] || x == t[i][f.c.partner]);
            assert rows[i + 1] == t[i];
          } else if x !in st.countries {
            assert x in Elems(next.countries);
          }
        }
        forall x | x in st.countries || exists i :: 0 <= i < |rows| && IsSelected(rows[i], f) && RowShape(rows[i], f) &&
                                                  (x == rows[i][f.c.reporter] || x == rows[i][f.c.partner])
          ensures x in res.countries
        {
          if x in st.countries {
            assert x in Elems(st.countries);
            assert x in Elems(next.countries);
          } else {
            var i :| 0 <= i < |rows| && IsSelected(rows[i], f) && RowShape(rows[i], f) &&
                     (x == rows[i][f.c.reporter] || x == rows[i][f.c.partner]);
            if i == 0 {
              assert x in Elems(next.countries);
            } else {
              assert t[i - 1] == rows[i];
            }
          }
        }
      } else {
        assert next == st;
        forall x | x in res.countries
          ensures x in st.countries ||
                  exists i :: 0 <= i < |rows| && IsSelected(rows[i], f) && RowShape(rows[i], f) &&
                              (x == rows[i][f.c.reporter] || x == rows[i][f.c.partner])
        {
          if x !in st.countries {
            var i :| 0 <= i < |t| && IsSelected(t[i], f) && RowShape(t[i], f) &&
                     (x == t[i][f.c.reporter] || x == t[i][f.c.partner]);
            assert rows[i + 1] == t[i];
          }
        }
      }
    }
  }

  /** Some row is selected and has the shape a selected row needs. */
  ghost predicate AnySelected(rows: seq<seq<string>>, f: Filter)
  {
    exists i :: 0 <= i < |rows| && IsSelected(rows[i], f) && RowShape(rows[i], f)
  }

  /** The first pass only finds a unit in a selected row. */
  lemma {:induction false} PassFromUnit(st: Pass, rows: seq<seq<string>>, f: Filter)
    requires ValidPass(st) && PassFrom(st, rows, f).Ok?
    ensures PassFrom(st, rows, f).value.unit.Some? ==> st.unit.Some? || AnySelected(rows, f)
    decreases |rows|
  {
    if rows != [] {
      var next := RowStep(st, rows[0], f).value;
      PassFromUnit(next, rows[1..], f);
      if next.unit.Some? && st.unit.None? {
        assert IsSelected(rows[0], f) && RowShape(rows[0], f);
      }
      if AnySelected(rows[1..], f) {
        var i :| 0 <= i < |rows[1..]| && IsSelected(rows[1..][i], f) && RowShape(rows[1..][i], f);
        assert rows[i + 1] == rows[1..][i];
      }
    }
  }

  // ---------------------------------------------------------------------
  // Nodes and ids

  /** One node per country code, in the order of the codes, with no edges. */
  function NodesOf(codes: seq<string>): (r: seq<Node>)
    ensures |r| == |codes| && forall i :: 0 <= i < |codes| ==> r[i] == Node(codes[i], [])
  {
    seq(|codes|, i requires 0 <= i < |codes| => Node(codes[i], []))
  }

  /** The id map: every code to its position in the node list (the last one
      if a code occurred twice). */
  method IdMap(all: seq<string>) returns (m: map<string, nat>)
    ensures forall x :: x in m <==> x in all
    ensures forall x :: x in m ==> m[x] < |all| && all[m[x]] == x && forall j :: m[x] < j < |all| ==> all[j] != x
  {
    m := map[];
    for id := 0 to |all|
      invariant NamesUpTo(all, m, id)
    {
      NamesStep(all, m, id);
      m := m[all[id] := id];
    }
    assert all[..|all|] == all;
  }

  /** The node list is the ascending list of codes, so the id of a code is
      its position and the ids follow the order of the codes. */
  lemma {:induction false} IdsFollowOrder(all: seq<string>, m: map<string, nat>)
    requires StrSorted(all)
    requires forall x :: x in m <==> x in all
    requires forall x :: x in m ==> m[x] < |all| && all[m[x]] == x
    ensures forall i :: 0 <= i < |all| ==> all[i] in m && m[all[i]] == i
    ensures forall x, y :: x in m && y in m && StrLess(x, y) ==> m[x] < m[y]
  {
    forall i | 0 <= i < |all|
      ensures all[i] in m && m[all[i]] == i
    {
      var j := m[all[i]];
      StrLessIrreflexive(all[i]);
    }
    forall x, y | x in m && y in m && StrLess(x, y)
      ensures m[x] < m[y]
    {
      StrLessIrreflexive(x);
      if m[y] < m[x] {
        assert StrLess(y, x);
        StrLessTransitive(x, y, x);
      }
    }
  }

  /** One network per year column, all starting from the same nodes; the
      unit of the first pass is needed as soon as there is a year
      (`glob_unit.as_ref().unwrap()`). */
  function YearNetworks(years: seq<(int, nat)>, nodes: seq<Node>, unit: Option<string>, direction: Direction): (r: Result<seq<Network>>)
    ensures r.Abort? <==> |years| > 0 && unit.None?
    ensures r.Ok? ==> |r.value| == |years| && forall k :: 0 <= k < |years| ==> r.value[k] == Network(direction, nodes, years[k].0)
  {
    if |years| > 0 && unit.None? then Abort("unwrap on None")
    else Ok(seq(|years|, k requires 0 <= k < |years| => Network(direction, nodes, years[k].0)))
  }

  // ---------------------------------------------------------------------
  // The second pass: the edges

  /** The edge one amount cell gives: none for an empty cell or an amount
      that is not above zero; a cell that does not parse as a number stops
      the run. Number parsing is a parameter. */
  function EdgeOf(cell: string, part: nat, parse: string -> Option<real>): (r: Result<Option<Edge>>)
    ensures r.Abort? <==> cell != [] && parse(cell).None?
    ensures (r.Ok? && r.value.Some?) <==> cell != [] && parse(cell).Some? && parse(cell).value > 0.0
    ensures r.Ok? && r.value.Some? ==> r.value.value == Edge(part, parse(cell).value)
  {
    if cell == [] then Ok(None)
    else match parse(cell)
      case None => Abort("Error in parsing amount as float")
      case Some(amount) => if amount > 0.0 then Ok(Some(Edge(part, amount))) else Ok(None)
  }

  /** The amount cell of a row for one year column; a missing cell stops the
      run. */
  function CellEdge(row: seq<string>, col: nat, part: nat, parse: string -> Option<real>): Result<Option<Edge>>
  {
    if col >= |row| then Abort("index out of bounds") else EdgeOf(row[col], part, parse)
  }

  /** The adjacency of node `rep` extended by the edge, if there is one. */
  function WithEdge(nodes: seq<Node>, rep: nat, e: Option<Edge>): (r: seq<Node>)
    requires rep < |nodes|
    ensures |r| == |nodes|
    ensures forall i :: 0 <= i < |nodes| ==> r[i].identifier == nodes[i].identifier
    ensures forall i :: 0 <= i < |nodes| ==> r[i].adj == nodes[i].adj + (if i == rep && e.Some? then [e.value] else [])
  {
    if e.None? then nodes else nodes[rep := Node(nodes[rep].identifier, nodes[rep].adj + [e.value])]
  }

  /** One selected row: for every year column, the edge of its amount cell
      is added to the reporter in that year's network. */
  method AddLineEdges(nets: seq<Network>, years: seq<(int, nat)>, row: seq<string>, rep: nat, part: nat,
                      parse: string -> Option<real>) returns (r: Result<seq<Network>>)
    requires |nets| == |years| && forall y :: 0 <= y < |nets| ==> rep < |nets[y].nodes|
    ensures r.Ok? <==> forall y :: 0 <= y < |years| ==> CellEdge(row, years[y].1, part, parse).Ok?
    ensures r.Ok? ==> |r.value| == |nets|
    ensures r.Ok? ==> forall y :: 0 <= y < |nets| ==>
              r.value[y] == nets[y].(nodes := WithEdge(nets[y].nodes, rep, CellEdge(row, years[y].1, part, parse).value))
  {
    var cur := nets;
    for y := 0 to |years|
      invariant |cur| == |nets|
      invariant forall z :: 0 <= z < y ==> CellEdge(row, years[z].1, part, parse).Ok?
      invariant forall z :: 0 <= z < y ==>
        cur[z] == nets[z].(nodes := WithEdge(nets[z].nodes, rep, CellEdge(row, years[z].1, part, parse).value))
      invariant forall z :: y <= z < |nets| ==> cur[z] == nets[z]
    {
      var col := years[y].1;
      if col >= |row| {
        return Abort("index out of bounds");
      }
      var cell := row[col];
      if cell != [] {
        var amount := parse(cell);
        if amount.None? {
          return Abort("Error in parsing amount as float");
        }
        if amount.value > 0.0 {
          var net := cur[y];
          var node := net.nodes[rep];
          cur := cur[y := net.(nodes := net.nodes[rep := Node(node.identifier, node.adj + [Edge(part, amount.value)])])];
        }
      }
    }
    r := Ok(cur);
  }

  /** A selected row can be placed: its country cells are there, both
      codes have ids, and every year's amount cell gives an edge or none. */
  ghost predicate RowPlaced(row: seq<string>, f: Filter, ids: map<string, nat>, years: seq<(int, nat)>,
                            parse: string -> Option<real>)
  {
    CellsPresent(row, f) &&
    (IsSelected(row, f) ==>
      f.c.reporter < |row| && f.c.partner < |row| && row[f.c.reporter] in ids && row[f.c.partner] in ids &&
      forall y :: 0 <= y < |years| ==> CellEdge(row, years[y].1, ids[row[f.c.partner]], parse).Ok?)
  }

  /** The edges of node `i` in the year whose amounts stand in column `col`:
      one per selected row whose reporter has id `i` and whose amount is
      above zero, leading to the partner's id, in row order. */
  ghost function YearAdj(rows: seq<seq<string>>, f: Filter, ids: map<string, nat>, col: nat, i: nat,
                         parse: string -> Option<real>): seq<Edge>
  {
    if rows == [] then []
    else
      var row := rows[|rows| - 1];
      YearAdj(rows[..|rows| - 1], f, ids, col, i, parse) +
      (if IsSelected(row, f) && f.c.reporter < |row| && f.c.partner < |row| &&
          row[f.c.reporter] in ids && row[f.c.partner] in ids && ids[row[f.c.reporter]] == i &&
          CellEdge(row, col, ids[row[f.c.partner]], parse).Ok? && CellEdge(row, col, ids[row[f.c.partner]], parse).value.Some?
       then [CellEdge(row, col, ids[row[f.c.partner]], parse).value.value]
       else [])
  }

  ghost predicate SameShape(a: seq<Network>, b: seq<Network>)
  {
    |a| == |b| &&
    forall y :: 0 <= y < |a| ==>
      a[y].direction == b[y].direction && a[y].year == b[y].year && |a[y].nodes| == |b[y].nodes| &&
      forall i :: 0 <= i < |a[y].nodes| ==> a[y].nodes[i].identifier == b[y].nodes[i].identifier
  }

  /** The second loop of `network_parser`: every selected row adds its
      edges to every year. It stops exactly when some row cannot be placed;
      otherwise every node of every year has gained exactly the edges
      `YearAdj` describes, and nothing else has changed. */
  method SecondPass(nets: seq<Network>, years: seq<(int, nat)>, rows: seq<seq<string>>, f: Filter,
                    ids: map<string, nat>, parse: string -> Option<real>) returns (r: Result<seq<Network>>)
    requires |nets| == |years|
    requires forall y, x :: 0 <= y < |nets| && x in ids ==> ids[x] < |nets[y].nodes|
    ensures r.Ok? <==> forall k :: 0 <= k < |rows| ==> RowPlaced(rows[k], f, ids, years, parse)
    ensures r.Ok? ==> SameShape(r.value, nets)
    ensures r.Ok? ==> forall y, i :: 0 <= y < |nets| && 0 <= i < |nets[y].nodes| ==>
                        r.value[y].nodes[i].adj == nets[y].nodes[i].adj + YearAdj(rows, f, ids, years[y].1, i, parse)
  {
    var cur := nets;
    for k := 0 to |rows|
      invariant PassState(cur, nets, years, rows[..k], f, ids, parse)
    {
      var next := PlaceRow(cur, nets, years, rows[k], f, ids, parse, rows[..k]);
      if next.Abort? {
        return Abort(next.reason);
      }
      assert rows[..k + 1] == rows[..k] + [rows[k]];
      cur := next.value;
    }
    assert rows[..|rows|] == rows;
    r := Ok(cur);
  }

  /** The networks after the rows `done`: the same nodes as `nets`, each
      row placed, and each node with the edges `YearAdj` gives it. */
  ghost predicate PassState(cur: seq<Network>, nets: seq<Network>, years: seq<(int, nat)>, done: seq<seq<string>>,
                            f: Filter, ids: map<string, nat>, parse: string -> Option<real>)
  {
    |nets| == |years| && SameShape(cur, nets) &&
    (forall y, x :: 0 <= y < |nets| && x in ids ==> ids[x] < |nets[y].nodes|) &&
    (forall j :: 0 <= j < |done| ==> RowPlaced(done[j], f, ids, years, parse)) &&
    (forall y, i :: 0 <= y < |nets| && 0 <= i < |nets[y].nodes| ==>
       cur[y].nodes[i].adj == nets[y].nodes[i].adj + YearAdj(done, f, ids, years[y].1, i, parse))
  }

  /** One row of the second loop: rows of other items or elements are
      skipped; a selected row needs its country cells, both codes known
      and every year's amount to parse. */
  method PlaceRow(cur: seq<Network>, nets: seq<Network>, years: seq<(int, nat)>, row: seq<string>, f: Filter,
                  ids: map<string, nat>, parse: string -> Option<real>, ghost done: seq<seq<string>>)
    returns (r: Result<seq<Network>>)
    requires PassState(cur, nets, years, done, f, ids, parse)
    ensures r.Ok? <==> RowPlaced(row, f, ids, years, parse)
    ensures r.Ok? ==> PassState(r.value, nets, years, done + [row], f, ids, parse)
  {
    if f.c.item >= |row| || (row[f.c.item] == f.itemCode && f.c.element >= |row|) {
      return Abort("index out of bounds");
    }
    if row[f.c.item] == f.itemCode && row[f.c.element] == f.wanted {
      if f.c.reporter >= |row| || f.c.partner >= |row| {
        return Abort("unwrap on None");
      }
      var repCode := row[f.c.reporter];
      var partCode := row[f.c.partner];
      if repCode !in ids || partCode !in ids {
        return Abort("unwrap on None");
      }
      var rep := ids[repCode];
      var part := ids[partCode];
      var next := AddLineEdges(cur, years, row, rep, part, parse);
      if next.Abort? {
        return next;
      }
      PlacedStep(cur, next.value, nets, years, row, done, f, ids, parse);
      r := next;
    } else {
      SkippedStep(cur, nets, years, row, done, f, ids, parse);
      r := Ok(cur);
    }
  }

  /** The edges a selected row adds keep the loop's state. */
  lemma {:induction false} PlacedStep(cur: seq<Network>, next: seq<Network>, nets: seq<Network>, years: seq<(int, nat)>, row: seq<string>,
                   done: seq<seq<string>>, f: Filter, ids: map<string, nat>, parse: string -> Option<real>)
    requires PassState(cur, nets, years, done, f, ids, parse)
    requires IsSelected(row, f) && f.c.reporter < |row| && f.c.partner < |row|
    requires row[f.c.reporter] in ids && row[f.c.partner] in ids
    requires forall y :: 0 <= y < |years| ==> CellEdge(row, years[y].1, ids[row[f.c.partner]], parse).Ok?
    requires |next| == |cur| && forall y :: 0 <= y < |cur| ==>
      next[y] == cur[y].(nodes := WithEdge(cur[y].nodes, ids[row[f.c.reporter]], CellEdge(row, years[y].1, ids[row[f.c.partner]], parse).value))
    ensures PassState(next, nets, years, done + [row], f, ids, parse)
  {
    assert (done + [row])[..|done|] == done;
    forall j | 0 <= j < |done| + 1
      ensures RowPlaced((done + [row])[j], f, ids, years, parse)
    {
      if j < |done| {
        assert (done + [row])[j] == done[j];
      }
    }
  }

  /** A row that is not selected changes nothing. */
  lemma {:induction false} SkippedStep(cur: seq<Network>, nets: seq<Network>, years: seq<(int, nat)>, row: seq<string>,
                    done: seq<seq<string>>, f: Filter, ids: map<string, nat>, parse: string -> Option<real>)
    requires PassState(cur, nets, years, done, f, ids, parse)
    requires CellsPresent(row, f) && !IsSelected(row, f)
    ensures PassState(cur, nets, years, done + [row], f, ids, parse)
  {
    assert (done + [row])[..|done|] == done;
    forall j | 0 <= j < |done| + 1
      ensures RowPlaced((done + [row])[j], f, ids, years, parse)
    {
      if j < |done| {
        assert (done + [row])[j] == done[j];
      }
    }
  }

  /** `x` is the reporter or the partner code of some selected row. */
  ghost predicate Traded(x: string, rows: seq<seq<string>>, f: Filter)
  {
    exists k :: 0 <= k < |rows| && IsSelected(rows[k], f) && RowShape(rows[k], f) &&
                (x == rows[k][f.c.reporter] || x == rows[k][f.c.partner])
  }

  /** The part of `network_parser` after the first pass: the nodes from the
      collected codes, the id map, one network per year and the second
      pass. */
  method BuildNetworks(years: seq<(int, nat)>, rows: seq<seq<string>>, f: Filter, p: Pass,
                       direction: Direction, parse: string -> Option<real>)
    returns (r: Result<seq<Network>>, ids: map<string, nat>)
    requires StrSorted(p.countries)
    requires forall x :: x in p.countries ==> Traded(x, rows, f)
    ensures r.Ok? ==> |r.value| == |years|
    ensures r.Ok? ==> forall y :: 0 <= y < |r.value| ==>
              r.value[y].direction == direction && r.value[y].year == years[y].0
    ensures r.Ok? ==> forall y :: 0 <= y < |r.value| ==> |r.value[y].nodes| == |p.countries|
    ensures r.Ok? ==> forall y, i, j :: 0 <= y < |r.value| && 0 <= i < j < |r.value[y].nodes| ==>
              StrLess(r.value[y].nodes[i].identifier, r.value[y].nodes[j].identifier)
    ensures r.Ok? ==> forall y, i :: 0 <= y < |r.value| && 0 <= i < |r.value[y].nodes| ==>
              r.value[y].nodes[i].identifier in ids && ids[r.value[y].nodes[i].identifier] == i &&
              r.value[y].nodes[i].adj == YearAdj(rows, f, ids, years[y].1, i, parse)
    ensures r.Ok? ==> forall y, i :: 0 <= y < |r.value| && 0 <= i < |r.value[y].nodes| ==>
              Traded(r.value[y].nodes[i].identifier, rows, f)
    ensures forall x :: x in ids <==> x in p.countries
    ensures r.Ok? ==> forall y, x :: 0 <= y < |r.value| && x in p.countries ==>
              x in ids && ids[x] < |r.value[y].nodes| && r.value[y].nodes[ids[x]].identifier == x
    ensures r.Abort? <==> (|years| > 0 && p.unit.None?) ||
                          exists k :: 0 <= k < |rows| && !RowPlaced(rows[k], f, ids, years, parse)
  {
    var codes := p.countries;
    var nodes := NodesOf(codes);
    ids := IdMap(codes);
    IdsFollowOrder(codes, ids);
    var nets := YearNetworks(years, nodes, p.unit, direction);
    if nets.Abort? {
      return Abort(nets.reason), ids;
    }
    r := SecondPass(nets.value, years, rows, f, ids, parse);
    if r.Ok? {
      forall y, i | 0 <= y < |r.value| && 0 <= i < |r.value[y].nodes|
        ensures r.value[y].nodes[i].identifier == codes[i]
        ensures r.value[y].nodes[i].adj == YearAdj(rows, f, ids, years[y].1, i, parse)
      {
        assert nets.value[y].nodes == nodes;
        assert nodes[i].adj == [];
      }
      forall y, i | 0 <= y < |r.value| && 0 <= i < |r.value[y].nodes|
        ensures Traded(r.value[y].nodes[i].identifier, rows, f)
      {
        assert codes[i] in codes;
      }
      forall y, x | 0 <= y < |r.value| && x in codes
        ensures x in ids && ids[x] < |r.value[y].nodes| && r.value[y].nodes[ids[x]].identifier == x
      {
        assert r.value[y].nodes[ids[x]].identifier == codes[ids[x]];
      }
    }
  }

  /** The networks a successful parse gives: one per year column, with the
      given direction and that column's year; in each, the nodes are the
      reporter and partner codes of the selected rows in ascending order,
      each code once and every such code a node, the node with id `i` sits
      at position `i`, and it has exactly the edges `YearAdj` gives for
      `i`. */
  ghost predicate TradeNetworks(nets: seq<Network>, years: seq<(int, nat)>, rows: seq<seq<string>>, f: Filter,
                                ids: map<string, nat>, direction: Direction, parse: string -> Option<real>)
  {
    |nets| == |years| &&
    (forall y :: 0 <= y < |nets| ==> nets[y].direction == direction && nets[y].year == years[y].0) &&
    (forall y, i, j :: 0 <= y < |nets| && 0 <= i < j < |nets[y].nodes| ==>
       StrLess(nets[y].nodes[i].identifier, nets[y].nodes[j].identifier)) &&
    (forall y, i :: 0 <= y < |nets| && 0 <= i < |nets[y].nodes| ==>
       nets[y].nodes[i].identifier in ids && ids[nets[y].nodes[i].identifier] == i &&
       nets[y].nodes[i].adj == YearAdj(rows, f, ids, years[y].1, i, parse)) &&
    (forall y, i :: 0 <= y < |nets| && 0 <= i < |nets[y].nodes| ==> Traded(nets[y].nodes[i].identifier, rows, f)) &&
    (forall y, x :: 0 <= y < |nets| && Traded(x, rows, f) ==>
       x in ids && ids[x] < |nets[y].nodes| && nets[y].nodes[ids[x]].identifier == x)
  }

  /** The part of `network_parser` after the header: the first pass, then
      the networks. It fails exactly when a row lacks a cell the filters
      read, a selected row has a different unit or length (`Unit error`,
      `Line error`) or lacks a country cell, there are years but no selected
      row to give the unit, or a selected row cannot be placed. When it
      succeeds, it gives the networks `TradeNetworks` describes. */
  method ParseRows(rows: seq<seq<string>>, f: Filter, years: seq<(int, nat)>, direction: Direction,
                   parse: string -> Option<real>)
    returns (r: Result<seq<Network>>, ids: map<string, nat>)
    ensures r.Abort? <==> !WellFormed(rows, f) || !UnitsAgree(None, rows, f) ||
                          (|years| > 0 && !AnySelected(rows, f)) ||
                          exists k :: 0 <= k < |rows| && !RowPlaced(rows[k], f, ids, years, parse)
    ensures r.Ok? ==> TradeNetworks(r.value, years, rows, f, ids, direction, parse)
  {
    ids := map[];
    var first := FirstPass(rows, f);
    PassFromOk(Pass(None, []), rows, f);
    if first.Abort? {
      return Abort(first.reason), ids;
    }
    PassFromResult(Pass(None, []), rows, f);
    PassFromUnit(Pass(None, []), rows, f);
    assert forall x :: x in first.value.countries <==> Traded(x, rows, f);
    r, ids := BuildNetworks(years, rows, f, first.value, direction, parse);
  }

  /** The header holds the five columns the parser looks up. */
  ghost predicate HasColumns(header: seq<string>)
  {
    "Item Code" in header && "Reporter Country Code" in header && "Partner Country Code" in header &&
    "Unit" in header && "Element" in header
  }

  /** Column `k` is the last one of the header named `e`. */
  ghost predicate LastAt(header: seq<string>, e: string, k: nat)
  {
    k < |header| && header[k] == e && forall j :: k < j < |header| ==> header[j] != e
  }

  /** `network_parser` on a split header and split rows; it also hands back
      the filter, the year columns and the id map it used. The filter reads
      the last header column of each name and expects rows as long as the
      number of distinct header entries. The run fails exactly when a column
      is missing or `ParseRows` fails, and on success it gives the networks
      `TradeNetworks` describes. */
  method ParseNetworks(header: seq<string>, rows: seq<seq<string>>, itemCode: string, wanted: string,
                       direction: Direction, parse: string -> Option<real>)
    returns (r: Result<seq<Network>>, f: Filter, years: seq<(int, nat)>, ids: map<string, nat>)
    ensures f.itemCode == itemCode && f.wanted == wanted
    ensures HasColumns(header) ==>
              LastAt(header, "Item Code", f.c.item) && LastAt(header, "Reporter Country Code", f.c.reporter) &&
              LastAt(header, "Partner Country Code", f.c.partner) && LastAt(header, "Unit", f.c.unit) &&
              LastAt(header, "Element", f.c.element) && f.lineLen == |set e | e in header|
    ensures forall k :: 0 <= k < |years| ==> years[k].1 < |header| && YearOf(header[years[k].1]) == Some(years[k].0)
    ensures r.Abort? <==> !HasColumns(header) || !WellFormed(rows, f) || !UnitsAgree(None, rows, f) ||
                          (|years| > 0 && !AnySelected(rows, f)) ||
                          exists k :: 0 <= k < |rows| && !RowPlaced(rows[k], f, ids, years, parse)
    ensures r.Ok? ==> TradeNetworks(r.value, years, rows, f, ids, direction, parse)
  {
    var names;
    years, names := ReadHeader(header);
    f := Filter(Columns(0, 0, 0, 0, 0), 0, itemCode, wanted);
    ids := map[];
    var cols := HeaderColumns(names);
    if cols.Abort? {
      return Abort(cols.reason), f, years, ids;
    }
    assert names.Keys == set e | e in header;
    f := Filter(cols.value, |names|, itemCode, wanted);
    r, ids := ParseRows(rows, f, years, direction, parse);
  }
}
