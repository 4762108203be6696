/** `src/group_cmp/cmp_th.rs`: files of country-id sets, one set per
    disruption level, each introduced by a `§` header line with a country
    count and a percentage; two such files are compared level by level, and
    several (one per year) are counted together. Files are given as their
    lines with comment lines already removed; parsing a floating-point
    number is a parameter. */
module CmpTh {
  import opened Common
  import opened Text
  import opened Float

  datatype SetInfo = SetInfo(members: set<int>, cCount: int, percent: F64)

  // ---------------------------------------------------------------------
  // read_set_infos

  predicate IsHeader(line: string)
  {
    |line| >= 1 && line[0] == '§'
  }

  /** The count and the percentage of a header's text after the `§`: the
      first two ASCII-whitespace separated tokens, as an `i32` and as an
      `f64`; nothing when either is missing or does not parse. */
  function HeaderInfo(text: string, parseF: string -> Option<F64>): Option<(int, F64)>
  {
    var tokens := Words(text, IsAsciiWhitespace);
    if |tokens| < 1 then None
    else match ParseInt(tokens[0], true, I32Min, I32Max)
      case None => None
      case Some(c) =>
        if |tokens| < 2 then None
        else match parseF(tokens[1])
          case None => None
          case Some(p) => Some((c, p))
  }

  /** An id line: an `i16`. */
  function IdOf(line: string): Option<int>
  {
    ParseInt(line, true, I16Min, I16Max)
  }

  /** The line is read without aborting. */
  predicate LineOk(line: string, parseF: string -> Option<F64>)
  {
    if IsHeader(line) then HeaderInfo(line[1..], parseF).Some? else IdOf(line).Some?
  }

  /** The header texts in order. */
  ghost function Heads(lines: seq<string>): seq<string>
  {
    if lines == [] then []
    else Heads(lines[..|lines| - 1]) + (if IsHeader(lines[|lines| - 1]) then [lines[|lines| - 1][1..]] else [])
  }

  /** The id lines cut at the headers: before the first header, between
      consecutive headers, after the last one. */
  ghost function Segs(lines: seq<string>): (r: seq<seq<string>>)
    ensures |r| == |Heads(lines)| + 1
  {
    if lines == [] then [[]]
    else
      var p := Segs(lines[..|lines| - 1]);
      var x := lines[|lines| - 1];
      if IsHeader(x) then p + [[]] else p[..|p| - 1] + [p[|p| - 1] + [x]]
  }

  /** The ids of the id lines. */
  ghost function Ids(seg: seq<string>): set<int>
  {
    if seg == [] then {}
    else Ids(seg[..|seg| - 1]) + (match IdOf(seg[|seg| - 1]) case Some(v) => {v} case None => {})
  }

  ghost function CountOf(text: string, parseF: string -> Option<F64>): int
  {
    match HeaderInfo(text, parseF) case Some(i) => i.0 case None => I32Min
  }

  ghost function PercentOf(text: string, parseF: string -> Option<F64>): F64
  {
    match HeaderInfo(text, parseF) case Some(i) => i.1 case None => NaN
  }

  /** The sets closed by the headers: header `j + 1` closes the set of the
      ids after header `j`, which carries header `j`'s count and
      percentage; the ids before the first header join the first set. */
  ghost function Closed(heads: seq<string>, segs: seq<seq<string>>, parseF: string -> Option<F64>): (r: seq<SetInfo>)
    requires |segs| == |heads| + 1
    ensures |r| == if |heads| == 0 then 0 else |heads| - 1
  {
    var n := if |heads| == 0 then 0 else |heads| - 1;
    seq(n, j requires 0 <= j < n =>
      SetInfo(Ids(segs[j + 1]) + (if j == 0 then Ids(segs[0]) else {}),
              CountOf(heads[j], parseF), PercentOf(heads[j], parseF)))
  }

  /** The ids still open at the end: those after the last header (and those
      before the first one while at most one header was seen). */
  ghost function Open(heads: seq<string>, segs: seq<seq<string>>): set<int>
    requires |segs| == |heads| + 1
  {
    Ids(segs[|heads|]) + (if |heads| <= 1 then Ids(segs[0]) else {})
  }

  /** The count and percentage the open set would carry: those of the last
      header, or `i32::MIN` and NaN before any header. */
  ghost function OpenCount(heads: seq<string>, parseF: string -> Option<F64>): int
  {
    if heads == [] then I32Min else CountOf(heads[|heads| - 1], parseF)
  }

  ghost function OpenPercent(heads: seq<string>, parseF: string -> Option<F64>): F64
  {
    if heads == [] then NaN else PercentOf(heads[|heads| - 1], parseF)
  }

  /** What `read_set_infos` returns for lines that all read: the closed
      sets, then the open set unless it is empty. */
  ghost function SetInfos(lines: seq<string>, parseF: string -> Option<F64>): seq<SetInfo>
  {
    var h := Heads(lines);
    var s := Segs(lines);
    Closed(h, s, parseF) + (if Open(h, s) == {} then [] else [SetInfo(Open(h, s), OpenCount(h, parseF), OpenPercent(h, parseF))])
  }

  /** The variables of the loop of `read_set_infos`. */
  datatype ReadVars = ReadVars(res: seq<SetInfo>, next: set<int>, cCount: int, percent: F64, valid: bool)

  /** The loop state of `read_set_infos` after a prefix of the lines. */
  ghost predicate ReadState(pre: seq<string>, st: ReadVars, parseF: string -> Option<F64>)
  {
    var h := Heads(pre);
    var s := Segs(pre);
    st.res == Closed(h, s, parseF) && st.next == Open(h, s) && st.valid == (h != []) &&
    st.cCount == OpenCount(h, parseF) && st.percent == OpenPercent(h, parseF)
  }

  /** One line of `read_set_infos`. */
  method ReadLine(ghost pre: seq<string>, line: string, st: ReadVars, parseF: string -> Option<F64>) returns (r: Result<ReadVars>)
    requires ReadState(pre, st, parseF)
    ensures r.Abort? <==> !LineOk(line, parseF)
    ensures r.Ok? ==> ReadState(pre + [line], r.value, parseF)
  {
    if IsHeader(line) {
      var info := HeaderInfo(line[1..], parseF);
      if info.None? {
        return Abort("called `unwrap()` on an invalid header");
      }
      HeaderStep(pre, line, st, parseF);
      var res, next := st.res, st.next;
      if st.valid {
        res := res + [SetInfo(next, st.cCount, st.percent)];
        next := {};
      }
      r := Ok(ReadVars(res, next, info.value.0, info.value.1, true));
    } else {
      var parsed := IdOf(line);
      if parsed.None? {
        return Abort("panic on a line that is not an id");
      }
      IdStep(pre, line, st, parseF);
      r := Ok(st.(next := st.next + {parsed.value}));
    }
  }

  /** `read_set_infos`: a header closes the open set when an earlier header
      was seen and opens the next; an id line adds its id to the open set;
      at the end the open set is kept unless it is empty. A header whose
      count or percentage is missing or does not parse, or an id line that
      is not an `i16`, stops the run. */
  method ReadSetInfos(lines: seq<string>, parseF: string -> Option<F64>) returns (r: Result<seq<SetInfo>>)
    ensures r.Abort? <==> exists k :: 0 <= k < |lines| && !LineOk(lines[k], parseF)
    ensures r.Ok? ==> r.value == SetInfos(lines, parseF)
  {
    var st := ReadVars([], {}, I32Min, NaN, false);
    ghost var pre: seq<string> := [];
    ghost var ok := (line: string) => LineOk(line, parseF);
    ReadStart(parseF);
    for k := 0 to |lines|
      invariant pre == lines[..k]
      invariant AllHold(pre, ok)
      invariant ReadState(pre, st, parseF)
    {
      var next := ReadLine(pre, lines[k], st, parseF);
      if next.Abort? {
        assert !ok(lines[k]);
        AllHoldEach(lines[..k + 1], ok);
        assert lines[..k + 1][k] == lines[k];
        return Abort(next.reason);
      }
      st := next.value;
      pre := pre + [lines[k]];
      assert pre == lines[..k + 1];
    }
    assert pre == lines;
    AllHoldEach(lines, ok);
    ReadEnd(pre, st, parseF);
    var res := st.res;
    if st.next != {} {
      res := res + [SetInfo(st.next, st.cCount, st.percent)];
    }
    r := Ok(res);
  }

  lemma {:induction false} ReadStart(parseF: string -> Option<F64>)
    ensures ReadState([], ReadVars([], {}, I32Min, NaN, false), parseF)
  {
    assert Ids([]) == {};
  }

  lemma {:induction false} ReadEnd(lines: seq<string>, st: ReadVars, parseF: string -> Option<F64>)
    requires ReadState(lines, st, parseF)
    ensures SetInfos(lines, parseF) == st.res + (if st.next != {} then [SetInfo(st.next, st.cCount, st.percent)] else [])
  {
  }

  lemma {:induction false} HeaderStep(pre: seq<string>, line: string, st: ReadVars, parseF: string -> Option<F64>)
    requires IsHeader(line) && HeaderInfo(line[1..], parseF).Some?
    requires ReadState(pre, st, parseF)
    ensures ReadState(pre + [line],
                      ReadVars(if st.valid then st.res + [SetInfo(st.next, st.cCount, st.percent)] else st.res,
                               if st.valid then {} else st.next,
                               HeaderInfo(line[1..], parseF).value.0, HeaderInfo(line[1..], parseF).value.1, true),
                      parseF)
  {
    var post := pre + [line];
    assert post[..|post| - 1] == pre;
    var h := Heads(pre);
    var s := Segs(pre);
    var h' := Heads(post);
    var s' := Segs(post);
    assert h' == h + [line[1..]] && s' == s + [[]];
    assert Ids([]) == {};
    if st.valid {
      ClosedSnoc(h', s', parseF);
      assert h'[..|h'| - 1] == h && s'[..|h'|] == s;
    }
  }

  lemma {:induction false} IdStep(pre: seq<string>, line: string, st: ReadVars, parseF: string -> Option<F64>)
    requires !IsHeader(line) && IdOf(line).Some?
    requires ReadState(pre, st, parseF)
    ensures ReadState(pre + [line], st.(next := st.next + {IdOf(line).value}), parseF)
  {
    var post := pre + [line];
    assert post[..|post| - 1] == pre;
    var h := Heads(pre);
    var s := Segs(pre);
    var s' := Segs(post);
    assert Heads(post) == h;
    var n := |s| - 1;
    assert s' == s[..n] + [s[n] + [line]];
    IdsSnoc(s[n], line);
    ClosedFrame(h, s, s', parseF);
  }

  lemma {:induction false} IdsSnoc(seg: seq<string>, line: string)
    requires IdOf(line).Some?
    ensures Ids(seg + [line]) == Ids(seg) + {IdOf(line).value}
  {
    assert (seg + [line])[..|seg|] == seg;
  }

  /** The closed sets do not depend on the ids after the last header. */
  lemma {:induction false} ClosedFrame(h: seq<string>, s: seq<seq<string>>, s': seq<seq<string>>, parseF: string -> Option<F64>)
    requires |s| == |s'| == |h| + 1
    requires forall j :: 0 <= j < |h| ==> s[j] == s'[j]
    ensures Closed(h, s, parseF) == Closed(h, s', parseF)
  {
    var c := Closed(h, s, parseF);
    var c' := Closed(h, s', parseF);
    forall j | 0 <= j < |c'|
      ensures c'[j] == c[j]
    {
      assert s'[j + 1] == s[j + 1] && s'[0] == s[0];
    }
  }

  /** With lines that all read, the sets hold all the ids and nothing else:
      only an empty open set at the end is dropped. */
  lemma {:induction false} SetInfosHoldAllIds(heads: seq<string>, segs: seq<seq<string>>, parseF: string -> Option<F64>)
    requires |segs| == |heads| + 1
    ensures Union(MembersOf(Closed(heads, segs, parseF))) + Open(heads, segs) == Union(SegIds(segs))
    decreases |heads|
  {
    var n := |heads|;
    if n == 0 {
      assert SegIds(segs) == [Ids(segs[0])];
      assert SegIds(segs)[..0] == [];
    } else if n == 1 {
      assert SegIds(segs) == SegIds(segs[..1]) + [Ids(segs[1])];
      assert SegIds(segs[..1]) == [Ids(segs[0])];
      assert SegIds(segs[..1])[..0] == [];
      assert MembersOf(Closed(heads, segs, parseF)) == [];
    } else {
      var h := heads[..n - 1];
      var s := segs[..n];
      SetInfosHoldAllIds(h, s, parseF);
      var c := Closed(h, s, parseF);
      var last := SetInfo(Open(h, s), CountOf(heads[n - 2], parseF), PercentOf(heads[n - 2], parseF));
      ClosedSnoc(heads, segs, parseF);
      MembersSnoc(c, last);
      UnionAppend(MembersOf(c), [Open(h, s)]);
      SegIdsSnoc(segs);
      UnionAppend(SegIds(s), [Ids(segs[n])]);
    }
  }

  /** The last header closes the set opened by the header before it. */
  lemma {:induction false} ClosedSnoc(heads: seq<string>, segs: seq<seq<string>>, parseF: string -> Option<F64>)
    requires |segs| == |heads| + 1 && |heads| >= 2
    ensures var n := |heads|;
            Closed(heads, segs, parseF) ==
            Closed(heads[..n - 1], segs[..n], parseF) +
            [SetInfo(Open(heads[..n - 1], segs[..n]), CountOf(heads[n - 2], parseF), PercentOf(heads[n - 2], parseF))]
  {
    var n := |heads|;
    var h := heads[..n - 1];
    var s := segs[..n];
    var c := Closed(h, s, parseF);
    var c' := Closed(heads, segs, parseF);
    var t := c + [SetInfo(Open(h, s), CountOf(heads[n - 2], parseF), PercentOf(heads[n - 2], parseF))];
    forall j | 0 <= j < |c'|
      ensures c'[j] == t[j]
    {
      assert s[j + 1] == segs[j + 1] && h[j] == heads[j] && s[0] == segs[0];
    }
  }

  lemma {:induction false} MembersSnoc(c: seq<SetInfo>, x: SetInfo)
    ensures MembersOf(c + [x]) == MembersOf(c) + [x.members]
  {
    assert (c + [x])[..|c|] == c;
  }

  lemma {:induction false} SegIdsSnoc(segs: seq<seq<string>>)
    requires segs != []
    ensures SegIds(segs) == SegIds(segs[..|segs| - 1]) + [Ids(segs[|segs| - 1])]
  {
  }

  function MembersOf(infos: seq<SetInfo>): (r: seq<set<int>>)
    ensures |r| == |infos| && forall k :: 0 <= k < |infos| ==> r[k] == infos[k].members
  {
    if infos == [] then [] else MembersOf(infos[..|infos| - 1]) + [infos[|infos| - 1].members]
  }

  ghost function SegIds(segs: seq<seq<string>>): (r: seq<set<int>>)
    ensures |r| == |segs| && forall k :: 0 <= k < |segs| ==> r[k] == Ids(segs[k])
  {
    if segs == [] then [] else SegIds(segs[..|segs| - 1]) + [Ids(segs[|segs| - 1])]
  }

  /** The sets `read_set_infos` returns hold exactly the ids of the id
      lines. */
  lemma {:induction false} SetInfosIds(lines: seq<string>, parseF: string -> Option<F64>)
    ensures Union(MembersOf(SetInfos(lines, parseF))) == Union(SegIds(Segs(lines)))
  {
    var h := Heads(lines);
    var s := Segs(lines);
    SetInfosHoldAllIds(h, s, parseF);
    var c := Closed(h, s, parseF);
    if Open(h, s) != {} {
      var o := SetInfo(Open(h, s), OpenCount(h, parseF), OpenPercent(h, parseF));
      assert MembersOf(c + [o]) == MembersOf(c) + [o.members];
      UnionAppend(MembersOf(c), [o.members]);
    } else {
      assert c + [] == c;
    }
  }

  // ---------------------------------------------------------------------
  // compare_th_exec

  datatype X = Percent | Count

  /** The value a set contributes to the x column. */
  datatype XValue = PercentValue(p: F64) | CountValue(c: int)

  function XOf(x: X, info: SetInfo): XValue
  {
    match x case Percent => PercentValue(info.percent) case Count => CountValue(info.cCount)
  }

  datatype ThRow = ThRow(a: XValue, b: XValue, overlap: nat, total: nat)

  /** `compare_th_exec`: both files must hold as many sets; then one row per
      level with the two x values, the size of the intersection and that of
      the union. */
  method CompareTh(a: seq<SetInfo>, b: seq<SetInfo>, x: X) returns (r: Result<seq<ThRow>>)
    ensures r.Abort? <==> |a| != |b|
    ensures r.Ok? ==> |r.value| == |a|
    ensures r.Ok? ==> forall k :: 0 <= k < |a| ==>
              r.value[k].overlap == |a[k].members * b[k].members| &&
              r.value[k].total == |a[k].members + b[k].members| &&
              r.value[k].overlap <= r.value[k].total &&
              r.value[k].a == XOf(x, a[k]) && r.value[k].b == XOf(x, b[k])
  {
    if |a| != |b| {
      return Abort("Size error! Amount of sets in the files does not match!");
    }
    var rows: seq<ThRow> := [];
    for k := 0 to |a|
      invariant |rows| == k
      invariant forall j :: 0 <= j < k ==>
                  rows[j].overlap == |a[j].members * b[j].members| &&
                  rows[j].total == |a[j].members + b[j].members| &&
                  rows[j].overlap <= rows[j].total &&
                  rows[j].a == XOf(x, a[j]) && rows[j].b == XOf(x, b[j])
    {
      var overlap := |a[k].members * b[k].members|;
      var total := |a[k].members + b[k].members|;
      SubsetCard(a[k].members * b[k].members, a[k].members + b[k].members);
      rows := rows + [ThRow(XOf(x, a[k]), XOf(x, b[k]), overlap, total)];
    }
    r := Ok(rows);
  }

  // ---------------------------------------------------------------------
  // compare_multiple

  /** In how many of the sets `v` occurs. */
  function Hits(sets: seq<set<int>>, v: int): (r: nat)
    ensures r <= |sets|
    ensures r >= 1 <==> v in Union(sets)
  {
    if sets == [] then 0 else Hits(sets[..|sets| - 1], v) + (if v in sets[|sets| - 1] then 1 else 0)
  }

  /** The ids that occur in exactly `k` of the sets. */
  ghost function WithHits(sets: seq<set<int>>, k: nat): set<int>
  {
    set v | v in Union(sets) && Hits(sets, v) == k
  }

  /** The counting of one disruption level of `compare_multiple`: every id
      is counted in a map once per set it occurs in, and then slot `k - 1`
      of the result counts the ids with `k` hits. There is one slot per
      set, and the slots add up to the number of distinct ids. */
  method CountHits(sets: seq<set<int>>) returns (counts: seq<nat>)
    ensures |counts| == |sets|
    ensures forall k :: 0 <= k < |sets| ==> counts[k] == |WithHits(sets, k + 1)|
    ensures SeqSum(counts) == |Union(sets)|
  {
    var m := HitMap(sets);
    counts := TallyCounts(m, |sets|);
    forall k | 0 <= k < |sets|
      ensures counts[k] == |WithHits(sets, k + 1)|
    {
      TallyIsWithHits(sets, m, k + 1);
    }
  }

  /** The loop over the map's values: slot `c - 1` counts the keys whose
      value is `c`. */
  method TallyCounts(m: map<int, nat>, n: nat) returns (counts: seq<nat>)
    requires forall v :: v in m ==> 1 <= m[v] <= n
    ensures CountState(m, m.Keys, counts, n)
  {
    counts := seq(n, k => 0);
    var todo := m.Keys;
    ghost var done: set<int> := {};
    CountStart(m, n);
    while todo != {}
      invariant done + todo == m.Keys && done * todo == {}
      invariant CountState(m, done, counts, n)
      decreases |todo|
    {
      var v := Pick(todo);
      CountStep(m, done, counts, n, v);
      counts := counts[m[v] - 1 := counts[m[v] - 1] + 1];
      done := done + {v};
      todo := todo - {v};
    }
    assert done == m.Keys;
  }

  /** The keys counted so far whose value is `c`. */
  ghost function Tally(m: map<int, nat>, done: set<int>, c: nat): set<int>
    requires done <= m.Keys
  {
    set v | v in done && m[v] == c
  }

  /** The counts of `compare_multiple` after the values of the keys `done`. */
  ghost predicate CountState(m: map<int, nat>, done: set<int>, counts: seq<nat>, n: nat)
  {
    done <= m.Keys && |counts| == n &&
    (forall k :: 0 <= k < n ==> counts[k] == |Tally(m, done, k + 1)|) &&
    SeqSum(counts) == |done|
  }

  lemma {:induction false} TallyIsWithHits(sets: seq<set<int>>, m: map<int, nat>, c: nat)
    requires m.Keys == Union(sets)
    requires forall v :: v in m ==> m[v] == Hits(sets, v)
    ensures Tally(m, m.Keys, c) == WithHits(sets, c)
  {
  }

  lemma {:induction false} CountStart(m: map<int, nat>, n: nat)
    ensures CountState(m, {}, seq(n, k => 0), n)
  {
    SeqSumZeros(n);
    forall c | 1 <= c <= n
      ensures Tally(m, {}, c) == {}
    {
    }
  }

  lemma {:induction false} CountStep(m: map<int, nat>, done: set<int>, counts: seq<nat>, n: nat, v: int)
    requires CountState(m, done, counts, n)
    requires v in m && v !in done && 1 <= m[v] <= n
    ensures CountState(m, done + {v}, counts[m[v] - 1 := counts[m[v] - 1] + 1], n)
  {
    var c := m[v];
    var counts' := counts[c - 1 := counts[c - 1] + 1];
    CountSlot(counts, c - 1);
    forall k | 0 <= k < n
      ensures counts'[k] == |Tally(m, done + {v}, k + 1)|
    {
      TallyAdd(m, done, v, k + 1);
    }
  }

  /** Counting one more key changes only the tally of its value. */
  lemma {:induction false} TallyAdd(m: map<int, nat>, done: set<int>, v: int, c: nat)
    requires done <= m.Keys && v in m && v !in done
    ensures |Tally(m, done + {v}, c)| == |Tally(m, done, c)| + (if m[v] == c then 1 else 0)
  {
    if m[v] == c {
      assert Tally(m, done + {v}, c) == Tally(m, done, c) + {v};
    } else {
      assert Tally(m, done + {v}, c) == Tally(m, done, c);
    }
  }

  lemma {:induction false} SeqSumZeros(n: nat)
    ensures SeqSum(seq(n, k => 0)) == 0
  {
    if n > 0 {
      assert seq(n, k => 0)[..n - 1] == seq(n - 1, k => 0);
      SeqSumZeros(n - 1);
    }
  }

  /** Adding one to a slot adds one to the sum. */
  lemma {:induction false} CountSlot(s: seq<nat>, i: nat)
    requires i < |s|
    ensures SeqSum(s[i := s[i] + 1]) == SeqSum(s) + 1
  {
    var t := s[i := s[i] + 1];
    if i == |s| - 1 {
      assert t[..|t| - 1] == s[..|s| - 1];
    } else {
      assert t[..|t| - 1] == s[..|s| - 1][i := s[i] + 1];
      CountSlot(s[..|s| - 1], i);
    }
  }

  /** The `BTreeMap` of `compare_multiple`: for every id of some set, the
      number of sets it occurs in. */
  method HitMap(sets: seq<set<int>>) returns (m: map<int, nat>)
    ensures m.Keys == Union(sets)
    ensures forall v :: v in m ==> m[v] == Hits(sets, v) && 1 <= m[v] <= |sets|
  {
    m := map[];
    for y := 0 to |sets|
      invariant m.Keys == Union(sets[..y])
      invariant forall v :: v in m ==> m[v] == Hits(sets[..y], v)
    {
      ghost var m0 := m;
      m := AddSet(m, sets[y]);
      assert sets[..y + 1][..y] == sets[..y];
      forall v | v in m
        ensures m[v] == Hits(sets[..y + 1], v)
      {
      }
    }
    assert sets[..|sets|] == sets;
  }

  /** The inner loop of `compare_multiple`: every id of the set gets one
      more in the map, a new id starts at one. */
  method AddSet(m: map<int, nat>, s: set<int>) returns (m': map<int, nat>)
    ensures Added(m, s, m')
  {
    m' := m;
    var todo := s;
    ghost var done: set<int> := {};
    while todo != {}
      invariant AddState(m, s, todo, done, m')
      decreases |todo|
    {
      var v := Pick(todo);
      AddStep(m, s, todo, done, m', v);
      m' := Bump(m', v);
      done := done + {v};
      todo := todo - {v};
    }
  }

  /** `entry(v).and_modify(|count| *count += 1).or_insert(1)`. */
  function Bump(m: map<int, nat>, v: int): (r: map<int, nat>)
    ensures r.Keys == m.Keys + {v}
    ensures r[v] == (if v in m then m[v] + 1 else 1)
    ensures forall u :: u in m && u != v ==> r[u] == m[u]
  {
    m[v := if v in m then m[v] + 1 else 1]
  }

  /** `m'` is `m` with one more for every id of `s`. */
  ghost predicate Added(m: map<int, nat>, s: set<int>, m': map<int, nat>)
  {
    m'.Keys == m.Keys + s &&
    forall v :: v in m' ==> m'[v] == (if v in m then m[v] else 0) + (if v in s then 1 else 0)
  }

  /** The state of the inner loop: the ids `done` of `s` are added. */
  ghost predicate AddState(m: map<int, nat>, s: set<int>, todo: set<int>, done: set<int>, m': map<int, nat>)
  {
    done + todo == s && done !! todo && Added(m, done, m')
  }

  lemma {:induction false} AddStep(m: map<int, nat>, s: set<int>, todo: set<int>, done: set<int>, m': map<int, nat>, v: int)
    requires AddState(m, s, todo, done, m') && v in todo
    ensures AddState(m, s, todo - {v}, done + {v}, Bump(m', v))
  {
  }

  /** The ids of one disruption level, across all years. */
  function Level(setInfos: seq<seq<SetInfo>>, i: nat): (r: seq<set<int>>)
    requires forall y :: 0 <= y < |setInfos| ==> i < |setInfos[y]|
    ensures |r| == |setInfos| && forall y :: 0 <= y < |setInfos| ==> r[y] == setInfos[y][i].members
  {
    seq(|setInfos|, y requires 0 <= y < |setInfos| => setInfos[y][i].members)
  }

  datatype MultiRow = MultiRow(x: XValue, counts: seq<nat>)

  /** `compare_multiple` on the set infos of the years: all years must have
      as many levels, and there must be a year; then one row per level with
      the first year's x value and the hit counts. */
  method CompareMultiple(setInfos: seq<seq<SetInfo>>, x: X) returns (r: Result<seq<MultiRow>>)
    ensures r.Abort? <==> setInfos == [] || !AdjacentSame(setInfos, |setInfos|)
    ensures r.Ok? ==> |r.value| == |setInfos[0]| && forall y :: 0 <= y < |setInfos| ==> |setInfos[y]| == |setInfos[0]|
    ensures r.Ok? ==> forall i :: 0 <= i < |r.value| ==> RowOk(setInfos, x, i, r.value[i])
  {
    var y := 1;
    while y < |setInfos|
      invariant 1 <= y && (setInfos != [] ==> y <= |setInfos|)
      invariant AdjacentSame(setInfos, y)
    {
      if |setInfos[y - 1]| != |setInfos[y]| {
        return Abort("You are trying to compare vectors of sets - but the vectors are of different lengths");
      }
      y := y + 1;
    }
    if setInfos == [] {
      return Abort("index out of bounds");
    }
    SameLengths(setInfos);
    var rows := MultiRows(setInfos, x);
    r := Ok(rows);
  }

  /** The first `n` years have as many levels each as the year before
      (the `tuple_windows` check of `compare_multiple`). */
  ghost predicate AdjacentSame(setInfos: seq<seq<SetInfo>>, n: nat)
  {
    forall y :: 1 <= y < n && y < |setInfos| ==> |setInfos[y - 1]| == |setInfos[y]|
  }

  /** Row `i` of `compare_multiple`: the first year's x value and, in slot
      `k`, the number of ids found in `k + 1` of the years at level `i`; the
      slots add up to the number of distinct ids of the level. */
  ghost predicate RowOk(setInfos: seq<seq<SetInfo>>, x: X, i: nat, row: MultiRow)
  {
    setInfos != [] && (forall y :: 0 <= y < |setInfos| ==> i < |setInfos[y]|) &&
    row.x == XOf(x, setInfos[0][i]) &&
    |row.counts| == |setInfos| &&
    (forall k :: 0 <= k < |setInfos| ==> row.counts[k] == |WithHits(Level(setInfos, i), k + 1)|) &&
    SeqSum(row.counts) == |Union(Level(setInfos, i))|
  }

  /** The loop over the disruption levels of `compare_multiple`. */
  method MultiRows(setInfos: seq<seq<SetInfo>>, x: X) returns (rows: seq<MultiRow>)
    requires setInfos != []
    requires forall y :: 0 <= y < |setInfos| ==> |setInfos[y]| == |setInfos[0]|
    ensures |rows| == |setInfos[0]|
    ensures forall i :: 0 <= i < |rows| ==> RowOk(setInfos, x, i, rows[i])
  {
    rows := [];
    for i := 0 to |setInfos[0]|
      invariant |rows| == i
      invariant forall j :: 0 <= j < i ==> RowOk(setInfos, x, j, rows[j])
    {
      var counts := CountHits(Level(setInfos, i));
      rows := rows + [MultiRow(XOf(x, setInfos[0][i]), counts)];
    }
  }

  lemma {:induction false} SameLengths(setInfos: seq<seq<SetInfo>>)
    requires setInfos != []
    requires AdjacentSame(setInfos, |setInfos|)
    ensures forall y :: 0 <= y < |setInfos| ==> |setInfos[y]| == |setInfos[0]|
  {
    if |setInfos| > 1 {
      var p := setInfos[..|setInfos| - 1];
      assert AdjacentSame(p, |p|) by {
        forall y | 1 <= y < |p|
          ensures |p[y - 1]| == |p[y]|
        {
          assert p[y - 1] == setInfos[y - 1] && p[y] == setInfos[y];
        }
      }
      SameLengths(p);
      assert |setInfos[|setInfos| - 1]| == |setInfos[|setInfos| - 2]|;
    }
  }
}
