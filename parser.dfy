/** `src/parser.rs`: the quote-aware field splitter, the country-code map and
    the per-line rules of the trade-matrix parser. Files are given as their
    sequences of lines. */
module Parser {
  import opened Common
  import opened Text

  // ---------------------------------------------------------------------
  // line_to_vec

  /** The state of the field splitter after a prefix of the line: the
      finished fields, the field being collected and whether the scan is
      inside double quotes. */
  datatype ScanState = ScanState(done: seq<string>, word: string, inside: bool)

  /** One character: a quote flips `inside` and is dropped, a comma outside
      quotes ends the field, anything else is collected. */
  function ScanStep(st: ScanState, c: char): ScanState
  {
    if c == '"' then st.(inside := !st.inside)
    else if !st.inside && c == ',' then ScanState(st.done + [st.word], "", st.inside)
    else st.(word := st.word + [c])
  }

  function Scan(s: string): ScanState
  {
    if s == [] then ScanState([], "", false) else ScanStep(Scan(s[..|s| - 1]), s[|s| - 1])
  }

  /** The fields `line_to_vec` returns: the finished ones and the last. */
  function Fields(line: string): (r: seq<string>)
    ensures |r| >= 1 && r[|r| - 1] == Scan(line).word
  {
    Scan(line).done + [Scan(line).word]
  }

  /** The commas of `s` that stand outside double quotes, that is, after an
      even number of quotes. */
  function SeparatorCount(s: string): nat
  {
    if s == [] then 0
    else
      var init := s[..|s| - 1];
      SeparatorCount(init) + (if s[|s| - 1] == ',' && Occurrences(init, '"') % 2 == 0 then 1 else 0)
  }

  /** `s` without its quotes and without its separating commas. */
  function Unquoted(s: string): string
  {
    if s == [] then ""
    else
      var init := s[..|s| - 1];
      var c := s[|s| - 1];
      Unquoted(init) + (if c == '"' || (c == ',' && Occurrences(init, '"') % 2 == 0) then "" else [c])
  }

  lemma {:induction false} JoinExtendLast(p: seq<string>, x: string, c: char, sep: char)
    ensures Join(p + [x + [c]], sep) == Join(p + [x], sep) + [c]
  {
    if p == [] {
    } else {
      JoinSnoc(p, x + [c], sep);
      JoinSnoc(p, x, sep);
    }
  }

  /** After any prefix the scan is inside quotes exactly when the prefix
      holds an odd number of them. */
  lemma {:induction false} ScanInside(s: string)
    ensures Scan(s).inside <==> Occurrences(s, '"') % 2 == 1
  {
    if s != [] {
      var init := s[..|s| - 1];
      assert s == init + [s[|s| - 1]];
      ScanInside(init);
      OccurrencesSnoc(init, s[|s| - 1], '"');
    }
  }

  /** What the scan has built after any prefix, in terms of the prefix. */
  lemma {:induction false} ScanFacts(s: string)
    ensures |Scan(s).done| == SeparatorCount(s)
    ensures forall k :: 0 <= k < |Scan(s).done| ==> '"' !in Scan(s).done[k]
    ensures '"' !in Scan(s).word
    ensures Concat(Scan(s).done) + Scan(s).word == Unquoted(s)
  {
    if s != [] {
      var init := s[..|s| - 1];
      var c := s[|s| - 1];
      ScanFacts(init);
      ScanInside(init);
      var st := Scan(init);
      if c != '"' && !st.inside && c == ',' {
        assert Concat(st.done + [st.word]) == Concat(st.done) + st.word;
      }
    }
  }

  /** Without quotes the fields join back to the line and hold no comma. */
  lemma {:induction false} ScanPlain(s: string)
    requires '"' !in s
    ensures Join(Fields(s), ',') == s
    ensures forall k :: 0 <= k < |Fields(s)| ==> ',' !in Fields(s)[k]
  {
    if s != [] {
      var init := s[..|s| - 1];
      var c := s[|s| - 1];
      assert s == init + [c];
      assert '"' !in init;
      ScanPlain(init);
      ScanInside(init);
      OccurrencesZero(init, '"');
      var st := Scan(init);
      if c == ',' {
        JoinSnoc(st.done + [st.word], "", ',');
        assert Fields(s) == st.done + [st.word] + [""];
      } else {
        JoinExtendLast(st.done, st.word, c, ',');
        assert Fields(s) == st.done + [st.word + [c]];
        assert Fields(init) == st.done + [st.word];
        assert forall k :: 0 <= k < |st.done| ==> Fields(s)[k] == Fields(init)[k];
      }
    }
  }

  /** `line_to_vec` holds at least one field; there is one more field than
      commas outside quotes; no field holds a quote; and the fields together
      are the line without its quotes and separating commas, so a comma
      inside quotes stays in its field. */
  lemma {:induction false} FieldsShape(line: string)
    ensures |Fields(line)| == SeparatorCount(line) + 1
    ensures forall k :: 0 <= k < |Fields(line)| ==> '"' !in Fields(line)[k]
    ensures Concat(Fields(line)) == Unquoted(line)
  {
    ScanFacts(line);
    var st := Scan(line);
    assert Fields(line)[..|st.done|] == st.done;
    assert forall k :: 0 <= k < |st.done| ==> Fields(line)[k] == st.done[k];
  }

  /** On a line without quotes `line_to_vec` is splitting at every comma. */
  lemma {:induction false} FieldsOfPlainLine(line: string)
    requires '"' !in line
    ensures Fields(line) == Split(line, ',')
  {
    ScanPlain(line);
    SplitUnique(Fields(line), line, ',');
  }

  /** `line_to_vec`: one pass over the characters with the `inside` flag,
      the field buffer and the list of fields. */
  method LineToVec(line: string) returns (all: seq<string>)
    ensures all == Fields(line)
    ensures |all| >= 1 && |all| == SeparatorCount(line) + 1
  {
    var w := "";
    all := [];
    var inside := false;
    for k := 0 to |line|
      invariant ScanState(all, w, inside) == Scan(line[..k])
    {
      assert line[..k + 1][..k] == line[..k];
      var c := line[k];
      if c == '"' {
        inside := !inside;
      } else if !inside && c == ',' {
        all := all + [w];
        w := "";
      } else {
        w := w + [c];
      }
    }
    assert line[..|line|] == line;
    all := all + [w];
    FieldsShape(line);
  }

  // ---------------------------------------------------------------------
  // country_map

  /** The first comma-separated piece of a line. */
  function CodeOf(line: string): string
  {
    Split(line, ',')[0]
  }

  /** The map after the lines before `i`: every one had a third piece, the
      codes are those of the lines, and a code's value comes from its last
      line. */
  ghost predicate MapSoFar(lines: seq<string>, i: nat, m: map<string, string>)
    requires i <= |lines| || i == 1
  {
    (forall j :: 1 <= j < i && j < |lines| ==> |Split(lines[j], ',')| >= 3) &&
    (forall c :: c in m <==> exists j :: 1 <= j < i && j < |lines| && CodeOf(lines[j]) == c) &&
    (forall j :: 1 <= j < i && j < |lines| && (forall l :: j < l < i && l < |lines| ==> CodeOf(lines[l]) != CodeOf(lines[j])) ==>
       CodeOf(lines[j]) in m && m[CodeOf(lines[j])] == Split(lines[j], ',')[2])
  }

  lemma {:induction false} MapStep(lines: seq<string>, i: nat, m: map<string, string>)
    requires 1 <= i < |lines| && MapSoFar(lines, i, m) && |Split(lines[i], ',')| >= 3
    ensures MapSoFar(lines, i + 1, m[CodeOf(lines[i]) := Split(lines[i], ',')[2]])
  {
  }

  /** `country_map`: after the header line, every line maps its first
      comma-separated piece to its third; a later line with the same code
      overwrites an earlier one, and a line with fewer than three pieces
      stops the run. */
  method CountryMap(lines: seq<string>) returns (r: Result<map<string, string>>)
    ensures r.Abort? <==> exists i :: 1 <= i < |lines| && |Split(lines[i], ',')| < 3
    ensures r.Ok? ==> forall c :: c in r.value <==> exists i :: 1 <= i < |lines| && CodeOf(lines[i]) == c
    ensures r.Ok? ==> forall i :: 1 <= i < |lines| && (forall j :: i < j < |lines| ==> CodeOf(lines[j]) != CodeOf(lines[i])) ==>
                        r.value[CodeOf(lines[i])] == Split(lines[i], ',')[2]
  {
    var m := map[];
    var i := 1;
    while i < |lines|
      invariant 1 <= i <= |lines| || (|lines| == 0 && i == 1)
      invariant MapSoFar(lines, i, m)
    {
      var pieces := Split(lines[i], ',');
      if |pieces| < 3 {
        return Abort("country map: line without a third column");
      }
      MapStep(lines, i, m);
      m := m[pieces[0] := pieces[2]];
      i := i + 1;
    }
    r := Ok(m);
  }
}
