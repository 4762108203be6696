/** `to_three_sets` of `src/network/main_execs/execs.rs`: a file of lines
    "<plot index> <delta> <country id>" sorted into three maps from country
    id to delta, by where the delta lies with respect to two borders. */
module ThreeSets {
  import opened Common
  import opened Text
  import opened Float

  /** `ThreeSets`: the three `BTreeMap<u32, f64>`. */
  datatype Sets = Sets(low: map<nat, F64>, middle: map<nat, F64>, high: map<nat, F64>)

  datatype Category = Low | Middle | High

  function Part(s: Sets, cat: Category): map<nat, F64>
  {
    match cat
    case Low => s.low
    case Middle => s.middle
    case High => s.high
  }

  const Empty := Sets(map[], map[], map[])

  /** IEEE 754 `a >= b`: false whenever NaN takes part. */
  predicate AtLeast(a: F64, b: F64)
  {
    Less(b, a) || Equal(a, b)
  }

  /** The choice of the map for a finite delta (lines 1441-1447). */
  function Classify(delta: F64, low: F64, high: F64): Category
  {
    if AtLeast(delta, high) then High
    else if Less(low, delta) then Middle
    else Low
  }

  /** With finite borders: at least the high border is high, strictly
      between the borders is middle, and anything up to the low border
      that is below the high one is low. */
  lemma {:induction false} ClassifyFinite(d: real, l: real, h: real)
    ensures Classify(Finite(d), Finite(l), Finite(h)) == High <==> d >= h
    ensures Classify(Finite(d), Finite(l), Finite(h)) == Middle <==> l < d < h
    ensures Classify(Finite(d), Finite(l), Finite(h)) == Low <==> d < h && d <= l
  {
  }

  /** A NaN border is never passed: with a NaN high border nothing is high,
      and with both borders NaN every delta is low. */
  lemma {:induction false} ClassifyNaNBorders(d: F64, l: F64)
    ensures Classify(d, l, NaN) != High
    ensures Classify(d, NaN, NaN) == Low
  {
  }

  /** What a data line contributes: its delta and its country id. */
  datatype Entry = Entry(delta: F64, country: nat)

  const UnwrapNone := "called `Option::unwrap()` on a `None` value"
  const UnwrapErr := "called `Result::unwrap()` on an `Err` value"
  const IndexMismatch := "assertion `left == right` failed"

  /** The body of the loop up to the insertion (lines 1432-1437): the data
      line at position `idx` is cut at its first two spaces; the first
      column must be a `usize` equal to `idx`, the second a float and the
      rest a `u32`. */
  function ParseLine(line: string, idx: nat, parseF: string -> Option<F64>): (r: Result<Entry>)
    ensures r.Ok? ==> r.value.country <= U32Max
  {
    match SplitOnce(line, ' ')
    case None => Abort(UnwrapNone)
    case Some((first, rest)) =>
      match SplitOnce(rest, ' ')
      case None => Abort(UnwrapNone)
      case Some((delta, countryId)) =>
        match ParseInt(first, false, 0, USizeMax)
        case None => Abort(UnwrapErr)
        case Some(p) =>
          if p != idx then Abort(IndexMismatch)
          else match parseF(delta)
            case None => Abort(UnwrapErr)
            case Some(d) =>
              match ParseInt(countryId, false, 0, U32Max)
              case None => Abort(UnwrapErr)
              case Some(c) => Ok(Entry(d, c as nat))
  }

  /** A line written as "<p> <d> <c>" reads back as its delta and country
      exactly when `p` is its position. */
  lemma {:induction false} ParseLineOfFields(p: nat, d: string, c: nat, idx: nat, parseF: string -> Option<F64>)
    requires p <= USizeMax && c <= U32Max && ' ' !in d && parseF(d).Some?
    ensures ParseLine(NatToString(p) + " " + d + " " + NatToString(c), idx, parseF) ==
      if p == idx then Ok(Entry(parseF(d).value, c)) else Abort(IndexMismatch)
  {
    var tail := d + " " + NatToString(c);
    assert ' ' !in NatToString(p);
    SplitOnceOf(NatToString(p), tail, ' ');
    assert NatToString(p) + " " + d + " " + NatToString(c) == NatToString(p) + [' '] + tail;
    SplitOnceOf(d, NatToString(c), ' ');
    assert tail == d + [' '] + NatToString(c);
    ParseIntOfNatToString(p, false, 0, USizeMax);
    ParseIntOfNatToString(c, false, 0, U32Max);
  }

  /** A reader of one data line at its position. */
  type LineReader = (string, nat) -> Result<Entry>

  /** The reader of the source: `ParseLine` with the float parser. */
  function Reading(parseF: string -> Option<F64>): (read: LineReader)
    ensures forall line, idx :: read(line, idx) == ParseLine(line, idx, parseF)
  {
    (line: string, idx: nat) => ParseLine(line, idx, parseF)
  }

  /** `set.insert(c_id, delta)` into the map the delta's category selects;
      a delta that is not finite is dropped. */
  function Insert(s: Sets, e: Entry, low: F64, high: F64): Sets
  {
    if !IsFinite(e.delta) then s
    else match Classify(e.delta, low, high)
      case High => s.(high := s.high[e.country := e.delta])
      case Middle => s.(middle := s.middle[e.country := e.delta])
      case Low => s.(low := s.low[e.country := e.delta])
  }

  /** The sets after the data lines `data`, or the failure of the first line
      that does not read. */
  function SetsOf(data: seq<string>, low: F64, high: F64, read: LineReader): Result<Sets>
  {
    if data == [] then Ok(Empty)
    else
      match SetsOf(data[..|data| - 1], low, high, read)
      case Abort(m) => Abort(m)
      case Ok(s) =>
        match read(data[|data| - 1], |data| - 1)
        case Abort(m) => Abort(m)
        case Ok(e) => Ok(Insert(s, e, low, high))
  }

  /** `to_three_sets` over the lines of the file. */
  method ToThreeSets(lines: seq<string>, low: F64, high: F64, parseF: string -> Option<F64>) returns (r: Result<Sets>)
    ensures r == SetsOf(DataLines(lines), low, high, Reading(parseF))
  {
    var read := Reading(parseF);
    var sets := Empty;
    var plotIdx := 0;
    for i := 0 to |lines|
      invariant plotIdx == |DataLines(lines[..i])|
      invariant SetsOf(DataLines(lines[..i]), low, high, read) == Ok(sets)
    {
      DataLinesStep(lines, i);
      if !IsComment(lines[i]) {
        var e := read(lines[i], plotIdx);
        SetsSnoc(DataLines(lines[..i]), lines[i], low, high, read);
        if e.Abort? {
          AbortStays(lines, i + 1, low, high, read);
          return Abort(e.reason);
        }
        sets := Insert(sets, e.value, low, high);
        plotIdx := plotIdx + 1;
      }
    }
    assert lines[..|lines|] == lines;
    r := Ok(sets);
  }

  /** One more data line: it fails, or its entry goes into the sets. */
  lemma {:induction false} SetsSnoc(d: seq<string>, x: string, low: F64, high: F64, read: LineReader)
    requires SetsOf(d, low, high, read).Ok?
    ensures read(x, |d|).Abort? ==> SetsOf(d + [x], low, high, read) == Abort(read(x, |d|).reason)
    ensures read(x, |d|).Ok? ==> SetsOf(d + [x], low, high, read) == Ok(Insert(SetsOf(d, low, high, read).value, read(x, |d|).value, low, high))
  {
    assert (d + [x])[..|d|] == d;
  }

  /** A failure on the first `i` lines is the failure of the whole file. */
  lemma {:induction false} AbortStays(lines: seq<string>, i: nat, low: F64, high: F64, read: LineReader)
    requires i <= |lines| && SetsOf(DataLines(lines[..i]), low, high, read).Abort?
    ensures SetsOf(DataLines(lines), low, high, read) == SetsOf(DataLines(lines[..i]), low, high, read)
  {
    assert lines == lines[..i] + lines[i..];
    DataLinesAppend(lines[..i], lines[i..]);
    AbortPrefix(DataLines(lines[..i]), DataLines(lines[i..]), low, high, read);
  }

  lemma {:induction false} AbortPrefix(d: seq<string>, e: seq<string>, low: F64, high: F64, read: LineReader)
    requires SetsOf(d, low, high, read).Abort?
    ensures SetsOf(d + e, low, high, read) == SetsOf(d, low, high, read)
    decreases |e|
  {
    if e == [] {
      assert d + e == d;
    } else {
      var e' := e[..|e| - 1];
      assert (d + e)[..|d + e| - 1] == d + e';
      AbortPrefix(d, e', low, high, read);
    }
  }

  /** The file fails exactly when some data line does not read at its
      position. */
  lemma {:induction false} SetsOfAbort(d: seq<string>, low: F64, high: F64, read: LineReader)
    ensures SetsOf(d, low, high, read).Abort? <==> exists k :: 0 <= k < |d| && read(d[k], k).Abort?
  {
    if d != [] {
      var d' := d[..|d| - 1];
      SetsOfAbort(d', low, high, read);
      assert forall k :: 0 <= k < |d'| ==> d'[k] == d[k];
    }
  }

  /** Data line `k` reads, and its finite delta for country `c` falls into
      category `cat`. */
  ghost predicate Hit(d: seq<string>, k: nat, c: nat, cat: Category, low: F64, high: F64, read: LineReader)
    requires k < |d|
  {
    var e := read(d[k], k);
    e.Ok? && e.value.country == c && IsFinite(e.value.delta) && Classify(e.value.delta, low, high) == cat
  }

  /** What one insertion does to the map of category `cat`. */
  lemma {:induction false} InsertPart(s: Sets, e: Entry, low: F64, high: F64, cat: Category)
    ensures var hit := IsFinite(e.delta) && Classify(e.delta, low, high) == cat;
      Part(Insert(s, e, low, high), cat) == if hit then Part(s, cat)[e.country := e.delta] else Part(s, cat)
  {
  }

  /** A country is in a map exactly when some line puts it there. */
  lemma {:induction false} SetsOfMember(d: seq<string>, low: F64, high: F64, read: LineReader, c: nat, cat: Category)
    requires SetsOf(d, low, high, read).Ok?
    ensures c in Part(SetsOf(d, low, high, read).value, cat) <==> exists k :: 0 <= k < |d| && Hit(d, k, c, cat, low, high, read)
  {
    if d != [] {
      var d' := d[..|d| - 1];
      MemberStep(d, low, high, read, c, cat);
      SetsOfMember(d', low, high, read, c, cat);
      HitPrefix(d, c, cat, low, high, read);
      if c in Part(SetsOf(d', low, high, read).value, cat) {
        var k :| 0 <= k < |d'| && Hit(d', k, c, cat, low, high, read);
        assert Hit(d, k, c, cat, low, high, read);
      }
      forall k | 0 <= k < |d'| && Hit(d, k, c, cat, low, high, read)
        ensures c in Part(SetsOf(d', low, high, read).value, cat)
      {
        assert Hit(d', k, c, cat, low, high, read);
      }
    }
  }

  /** The last data line adds its country to the map of its category and
      touches no other. */
  lemma {:induction false} MemberStep(d: seq<string>, low: F64, high: F64, read: LineReader, c: nat, cat: Category)
    requires d != [] && SetsOf(d, low, high, read).Ok?
    ensures SetsOf(d[..|d| - 1], low, high, read).Ok?
    ensures c in Part(SetsOf(d, low, high, read).value, cat) <==>
      (c in Part(SetsOf(d[..|d| - 1], low, high, read).value, cat) || Hit(d, |d| - 1, c, cat, low, high, read))
    ensures Hit(d, |d| - 1, c, cat, low, high, read) ==>
      Part(SetsOf(d, low, high, read).value, cat)[c] == read(d[|d| - 1], |d| - 1).value.delta
    ensures !Hit(d, |d| - 1, c, cat, low, high, read) && c in Part(SetsOf(d[..|d| - 1], low, high, read).value, cat) ==>
      Part(SetsOf(d, low, high, read).value, cat)[c] == Part(SetsOf(d[..|d| - 1], low, high, read).value, cat)[c]
  {
    var d' := d[..|d| - 1];
    var last := |d| - 1;
    assert d' + [d[last]] == d;
    SetsSnoc(d', d[last], low, high, read);
    InsertPart(SetsOf(d', low, high, read).value, read(d[last], last).value, low, high, cat);
  }

  /** `Hit` on the data lines but the last is `Hit` on all of them. */
  lemma {:induction false} HitPrefix(d: seq<string>, c: nat, cat: Category, low: F64, high: F64, read: LineReader)
    requires d != []
    ensures forall k :: 0 <= k < |d| - 1 ==> (Hit(d[..|d| - 1], k, c, cat, low, high, read) <==> Hit(d, k, c, cat, low, high, read))
  {
    assert forall k :: 0 <= k < |d| - 1 ==> d[..|d| - 1][k] == d[k];
  }

  /** A country in a map holds the delta of the last line that put it
      there. */
  lemma {:induction false} SetsOfLatest(d: seq<string>, low: F64, high: F64, read: LineReader, c: nat, cat: Category)
    requires SetsOf(d, low, high, read).Ok?
    requires c in Part(SetsOf(d, low, high, read).value, cat)
    ensures exists k :: (0 <= k < |d| && Hit(d, k, c, cat, low, high, read) &&
      Part(SetsOf(d, low, high, read).value, cat)[c] == read(d[k], k).value.delta &&
      forall j :: k < j < |d| ==> !Hit(d, j, c, cat, low, high, read))
  {
    var d' := d[..|d| - 1];
    MemberStep(d, low, high, read, c, cat);
    HitPrefix(d, c, cat, low, high, read);
    if !Hit(d, |d| - 1, c, cat, low, high, read) {
      SetsOfLatest(d', low, high, read, c, cat);
      var k :| 0 <= k < |d'| && Hit(d', k, c, cat, low, high, read) &&
        Part(SetsOf(d', low, high, read).value, cat)[c] == read(d'[k], k).value.delta &&
        forall j :: k < j < |d'| ==> !Hit(d', j, c, cat, low, high, read);
      assert Hit(d, k, c, cat, low, high, read);
    }
  }

  /** Every delta kept is finite and lies in its map's category. */
  lemma {:induction false} SetsOfClassified(d: seq<string>, low: F64, high: F64, read: LineReader, c: nat, cat: Category)
    requires SetsOf(d, low, high, read).Ok?
    requires c in Part(SetsOf(d, low, high, read).value, cat)
    ensures IsFinite(Part(SetsOf(d, low, high, read).value, cat)[c])
    ensures Classify(Part(SetsOf(d, low, high, read).value, cat)[c], low, high) == cat
  {
    SetsOfLatest(d, low, high, read, c, cat);
  }
}
