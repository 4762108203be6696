/** Text handling of the Rust standard library that the program relies on:
    `str::split(char)`, `split_whitespace`/`split_ascii_whitespace`,
    `split_once`, `starts_with`, integer `FromStr` and decimal formatting. */
module Text {
  import opened Common

  predicate StartsWith(s: string, prefix: string)
  {
    |prefix| <= |s| && s[..|prefix|] == prefix
  }

  /** `s.split(sep)`: the pieces between occurrences of `sep`; there is
      always at least one piece, and empty pieces are kept. */
  function Split(s: string, sep: char): (r: seq<string>)
    ensures |r| >= 1
    ensures forall k :: 0 <= k < |r| ==> sep !in r[k]
    decreases |s|
  {
    if s == [] then [""]
    else
      var rest := Split(s[1..], sep);
      if s[0] == sep then [""] + rest
      else [[s[0]] + rest[0]] + rest[1..]
  }

  /** The pieces joined again with the separator. */
  function Join(pieces: seq<string>, sep: char): string
  {
    if pieces == [] then ""
    else if |pieces| == 1 then pieces[0]
    else pieces[0] + [sep] + Join(pieces[1..], sep)
  }

  /** The strings one after the other. */
  function Concat(ps: seq<string>): string
  {
    if ps == [] then "" else Concat(ps[..|ps| - 1]) + ps[|ps| - 1]
  }

  function Occurrences(s: string, c: char): nat
  {
    if s == [] then 0 else (if s[0] == c then 1 else 0) + Occurrences(s[1..], c)
  }

  /** Splitting and joining again gives back the text, and there is one more
      piece than there are separators. */
  lemma {:induction false} SplitJoin(s: string, sep: char)
    ensures Join(Split(s, sep), sep) == s
    ensures |Split(s, sep)| == Occurrences(s, sep) + 1
  {
    if s != [] {
      SplitJoin(s[1..], sep);
      var rest := Split(s[1..], sep);
      if s[0] != sep {
        var r := Split(s, sep);
        if |rest| == 1 {
          assert r == [[s[0]] + rest[0]];
        } else {
          assert r[1..] == rest[1..];
          assert Join(r, sep) == [s[0]] + rest[0] + [sep] + Join(rest[1..], sep);
        }
      } else {
        assert Split(s, sep)[1..] == rest;
      }
    }
  }

  lemma {:induction false} OccurrencesZero(s: string, c: char)
    ensures Occurrences(s, c) == 0 <==> c !in s
  {
    if s != [] {
      OccurrencesZero(s[1..], c);
      assert s == [s[0]] + s[1..];
    }
  }

  lemma {:induction false} OccurrencesSnoc(s: string, c: char, x: char)
    ensures Occurrences(s + [c], x) == Occurrences(s, x) + (if c == x then 1 else 0)
  {
    if s != [] {
      OccurrencesSnoc(s[1..], c, x);
      assert (s + [c])[1..] == s[1..] + [c];
    }
  }

  lemma {:induction false} JoinSnoc(p: seq<string>, x: string, sep: char)
    requires p != []
    ensures Join(p + [x], sep) == Join(p, sep) + [sep] + x
  {
    if |p| == 1 {
      assert (p + [x])[1..] == [x];
    } else {
      JoinSnoc(p[1..], x, sep);
      assert (p + [x])[1..] == p[1..] + [x];
    }
  }

  /** `Split` is the only way to cut a text into at least one piece, none of
      which holds the separator, that joins back to the text. */
  lemma {:induction false} SplitUnique(p: seq<string>, s: string, sep: char)
    requires |p| >= 1 && Join(p, sep) == s
    requires forall k :: 0 <= k < |p| ==> sep !in p[k]
    ensures Split(s, sep) == p
    decreases |s|
  {
    if |p| > 1 {
      assert Join(p, sep) == p[0] + [sep] + Join(p[1..], sep);
    }
    if s == [] {
      assert |p| == 1 && p == [""];
    } else if p[0] == "" {
      var rest := p[1..];
      assert |p| > 1;
      assert s == [sep] + Join(rest, sep);
      assert s[1..] == Join(rest, sep);
      SplitUnique(rest, s[1..], sep);
      assert p == [""] + rest;
    } else {
      var q := [p[0][1..]] + p[1..];
      assert q[1..] == p[1..];
      if |p| > 1 {
        assert Join(q, sep) == p[0][1..] + [sep] + Join(p[1..], sep);
      }
      assert s[0] == p[0][0] && s[1..] == Join(q, sep);
      assert forall k :: 0 <= k < |q| ==> sep !in q[k];
      SplitUnique(q, s[1..], sep);
      assert [s[0]] + q[0] == p[0];
      assert p == [p[0]] + p[1..];
    }
  }

  /** The whitespace of Rust's `char::is_ascii_whitespace`. */
  predicate IsAsciiWhitespace(c: char)
  {
    c == ' ' || c == '\t' || c == '\n' || c == '\U{000C}' || c == '\r'
  }

  /** The Unicode `White_Space` property of Rust's `char::is_whitespace`. */
  predicate IsWhitespace(c: char)
  {
    ('\t' <= c <= '\r') || c == ' ' || c == '\U{0085}' || c == '\U{00A0}'
    || c == '\U{1680}' || ('\U{2000}' <= c <= '\U{200A}') || c == '\U{2028}'
    || c == '\U{2029}' || c == '\U{202F}' || c == '\U{205F}' || c == '\U{3000}'
  }

  /** The tokens of `s` between runs of characters satisfying `ws`, as
      Rust's `split_whitespace` (with `IsWhitespace`) and
      `split_ascii_whitespace` (with `IsAsciiWhitespace`) yield them. */
  function Words(s: string, ws: char -> bool): (r: seq<string>)
    ensures s != [] && !ws(s[0]) ==> |r| > 0 && r[0] != [] && r[0][0] == s[0]
    ensures forall k :: 0 <= k < |r| ==> r[k] != [] && forall c :: c in r[k] ==> !ws(c)
    decreases |s|
  {
    if s == [] then []
    else
      var rest := Words(s[1..], ws);
      if ws(s[0]) then rest
      else if |s| > 1 && !ws(s[1]) then [[s[0]] + rest[0]] + rest[1..]
      else [[s[0]]] + rest
  }

  /** Tokens separated by single spaces are the tokens again, for either
      notion of whitespace. */
  lemma {:induction false} WordsOfJoin(tokens: seq<string>, ws: char -> bool)
    requires ws(' ')
    requires forall k :: 0 <= k < |tokens| ==> tokens[k] != [] && forall c :: c in tokens[k] ==> !ws(c)
    ensures Words(Join(tokens, ' '), ws) == tokens
  {
    if |tokens| == 1 {
      WordsOfToken(tokens[0], [], ws);
      assert tokens[0] + [] == tokens[0];
    } else if |tokens| > 1 {
      WordsOfJoin(tokens[1..], ws);
      assert Join(tokens, ' ') == tokens[0] + ([' '] + Join(tokens[1..], ' '));
      WordsOfToken(tokens[0], [' '] + Join(tokens[1..], ' '), ws);
      assert Words([' '] + Join(tokens[1..], ' '), ws) == tokens[1..];
    }
  }

  /** A whitespace-free token followed by text that is empty or starts with
      whitespace contributes exactly that token. */
  lemma {:induction false} WordsOfToken(t: string, tail: string, ws: char -> bool)
    requires t != [] && forall c :: c in t ==> !ws(c)
    requires tail == [] || ws(tail[0])
    ensures Words(t + tail, ws) == [t] + Words(tail, ws)
    decreases |t|
  {
    var s := t + tail;
    assert s[1..] == t[1..] + tail;
    if |t| > 1 {
      WordsOfToken(t[1..], tail, ws);
      assert t == [t[0]] + t[1..];
    } else {
      assert s == [t[0]] + tail;
      assert s[1..] == tail;
      assert tail != [] ==> s[1] == tail[0];
    }
  }

  /** `s.split_once(c)`: the text before and after the first `c`. */
  function SplitOnce(s: string, c: char): (r: Option<(string, string)>)
    ensures r.None? <==> c !in s
    ensures r.Some? ==> r.value.0 + [c] + r.value.1 == s && c !in r.value.0
  {
    if s == [] then None
    else if s[0] == c then Some(([], s[1..]))
    else match SplitOnce(s[1..], c)
      case None => None
      case Some(p) => Some(([s[0]] + p.0, p.1))
  }

  /** `split_once` cuts at the first `c`: text without `c`, then `c`, then
      anything, splits back into those two parts. */
  lemma {:induction false} SplitOnceOf(a: string, b: string, c: char)
    requires c !in a
    ensures SplitOnce(a + [c] + b, c) == Some((a, b))
  {
    if a != [] {
      assert (a + [c] + b)[1..] == a[1..] + [c] + b;
      SplitOnceOf(a[1..], b, c);
      assert [a[0]] + a[1..] == a;
    }
  }

  predicate IsDigit(c: char)
  {
    '0' <= c <= '9'
  }

  function DigitChar(d: nat): (c: char)
    requires d < 10
    ensures IsDigit(c)
  {
    ['0', '1', '2', '3', '4', '5', '6', '7', '8', '9'][d]
  }

  function DigitValue(c: char): (d: nat)
    requires IsDigit(c)
    ensures d < 10
  {
    (c as int - '0' as int) as nat
  }

  predicate AllDigits(s: string)
  {
    forall k :: 0 <= k < |s| ==> IsDigit(s[k])
  }

  /** The value of a sequence of decimal digits, most significant first. */
  function DigitsValue(s: string): nat
    requires forall k :: 0 <= k < |s| ==> IsDigit(s[k])
  {
    if s == [] then 0 else 10 * DigitsValue(s[..|s| - 1]) + DigitValue(s[|s| - 1])
  }

  /** Decimal formatting of a non-negative integer (Rust's `Display`). */
  function NatToString(n: nat): (r: string)
    ensures |r| >= 1 && forall k :: 0 <= k < |r| ==> IsDigit(r[k])
  {
    if n < 10 then [DigitChar(n)] else NatToString(n / 10) + [DigitChar(n % 10)]
  }

  /** Formatting does not emit leading zeros and reads back as the same
      number. */
  lemma {:induction false} NatToStringValue(n: nat)
    ensures DigitsValue(NatToString(n)) == n
    ensures NatToString(n)[0] == '0' ==> n == 0
  {
    if n >= 10 {
      NatToStringValue(n / 10);
      var s := NatToString(n);
      assert s[..|s| - 1] == NatToString(n / 10);
    }
  }

  /** Rust's `FromStr` for an integer type whose values are `lo ..= hi`:
      an optional `+`, or a `-` when the type is signed, then one or more
      decimal digits whose value must fit the type. */
  function ParseInt(s: string, signed: bool, lo: int, hi: int): (r: Option<int>)
    ensures r.Some? ==> lo <= r.value <= hi
    ensures r.Some? ==> s != [] && (IsDigit(s[0]) || s[0] == '+' || (signed && s[0] == '-'))
  {
    if s == [] then None
    else if (s[0] == '+' || s[0] == '-') && |s| == 1 then None
    else
      var negative := signed && s[0] == '-';
      var digits := if s[0] == '+' || negative then s[1..] else s;
      if !AllDigits(digits) then None
      else
        var m: int := DigitsValue(digits);
        var v := if negative then -m else m;
        if lo <= v <= hi then Some(v) else None
  }

  const I32Min: int := -0x8000_0000
  const I32Max: int := 0x7FFF_FFFF
  const I16Min: int := -0x8000
  const I16Max: int := 0x7FFF
  const U16Max: int := 0xFFFF
  const U32Max: int := 0xFFFF_FFFF
  const USizeMax: int := 0xFFFF_FFFF_FFFF_FFFF

  /** A number formatted by `NatToString` parses back, for every integer type
      it fits in. */
  lemma {:induction false} ParseIntOfNatToString(n: nat, signed: bool, lo: int, hi: int)
    requires lo <= n <= hi
    ensures ParseInt(NatToString(n), signed, lo, hi) == Some(n)
  {
    NatToStringValue(n);
  }

  /** A text without a digit never parses as an integer. */
  lemma {:induction false} ParseIntNeedsDigit(s: string, signed: bool, lo: int, hi: int)
    requires forall k :: 0 <= k < |s| ==> !IsDigit(s[k])
    ensures ParseInt(s, signed, lo, hi) == None
  {
    if |s| >= 2 {
      var negative := signed && s[0] == '-';
      var digits := if s[0] == '+' || negative then s[1..] else s;
      assert !IsDigit(digits[0]);
    } else if |s| == 1 {
      assert !IsDigit(s[0]);
    }
  }

  /** The order of Rust's `String`: lexicographic by character (byte order of
      UTF-8 agrees with the order of code points). */
  predicate StrLess(a: string, b: string)
  {
    if a == [] then b != []
    else if b == [] then false
    else if a[0] != b[0] then a[0] < b[0]
    else StrLess(a[1..], b[1..])
  }

  lemma {:induction false} StrLessIrreflexive(a: string)
    ensures !StrLess(a, a)
  {
    if a != [] {
      StrLessIrreflexive(a[1..]);
    }
  }

  lemma {:induction false} StrLessTransitive(a: string, b: string, c: string)
    requires StrLess(a, b) && StrLess(b, c)
    ensures StrLess(a, c)
  {
    if a != [] && b != [] && c != [] && a[0] == b[0] && b[0] == c[0] {
      StrLessTransitive(a[1..], b[1..], c[1..]);
    }
  }

  lemma {:induction false} StrLessTotal(a: string, b: string)
    requires a != b
    ensures StrLess(a, b) || StrLess(b, a)
  {
    if a != [] && b != [] && a[0] == b[0] {
      assert a == [a[0]] + a[1..] && b == [b[0]] + b[1..];
      StrLessTotal(a[1..], b[1..]);
    }
  }

  /** Every element is below every later one. */
  ghost predicate StrSorted(s: seq<string>)
  {
    forall i, j :: 0 <= i < j < |s| ==> StrLess(s[i], s[j])
  }

  /** `BTreeSet::insert` on the ascending sequence of a set's elements. */
  function InsertSorted(s: seq<string>, x: string): (r: seq<string>)
    requires StrSorted(s)
    ensures StrSorted(r) && Elems(r) == Elems(s) + {x}
    ensures |r| == if x in s then |s| else |s| + 1
  {
    if s == [] then [x]
    else if x == s[0] then
      assert s[0] in s;
      s
    else if StrLess(x, s[0]) then
      InsertFront(s, x);
      [x] + s
    else
      StrLessTotal(x, s[0]);
      var rest := InsertSorted(s[1..], x);
      InsertBehind(s, x, rest);
      [s[0]] + rest
  }

  lemma {:induction false} InsertFront(s: seq<string>, x: string)
    requires StrSorted(s) && s != [] && StrLess(x, s[0])
    ensures StrSorted([x] + s) && Elems([x] + s) == Elems(s) + {x} && x !in s
  {
    forall j | 0 <= j < |s|
      ensures StrLess(x, s[j])
    {
      if j > 0 {
        StrLessTransitive(x, s[0], s[j]);
      }
    }
    StrLessIrreflexive(x);
    var r := [x] + s;
    forall i, j | 0 <= i < j < |r|
      ensures StrLess(r[i], r[j])
    {
      if i > 0 {
        assert r[i] == s[i - 1] && r[j] == s[j - 1];
      }
    }
  }

  lemma {:induction false} InsertBehind(s: seq<string>, x: string, rest: seq<string>)
    requires StrSorted(s) && s != [] && StrLess(s[0], x)
    requires StrSorted(rest) && Elems(rest) == Elems(s[1..]) + {x}
    requires |rest| == if x in s[1..] then |s| - 1 else |s|
    ensures StrSorted([s[0]] + rest) && Elems([s[0]] + rest) == Elems(s) + {x}
    ensures |[s[0]] + rest| == if x in s then |s| else |s| + 1
  {
    assert s == [s[0]] + s[1..];
    assert Elems(s) == {s[0]} + Elems(s[1..]);
    StrLessIrreflexive(x);
    assert x in s <==> x in s[1..];
    forall j | 0 <= j < |rest|
      ensures StrLess(s[0], rest[j])
    {
      assert rest[j] in Elems(rest);
      if rest[j] != x {
        var k :| 1 <= k < |s| && s[k] == rest[j];
      }
    }
    var r := [s[0]] + rest;
    forall i, j | 0 <= i < j < |r|
      ensures StrLess(r[i], r[j])
    {
      if i > 0 {
        assert r[i] == rest[i - 1] && r[j] == rest[j - 1];
      }
    }
    assert Elems(r) == {s[0]} + Elems(rest);
  }

  /** `l.starts_with('#')`: a comment line, which the readers drop. */
  predicate IsComment(line: string)
  {
    |line| > 0 && line[0] == '#'
  }

  /** The lines that are not comments, in order. */
  function DataLines(lines: seq<string>): (r: seq<string>)
    ensures forall k :: 0 <= k < |r| ==> !IsComment(r[k])
    ensures |r| <= |lines|
  {
    if lines == [] then []
    else
      var last := lines[|lines| - 1];
      DataLines(lines[..|lines| - 1]) + (if IsComment(last) then [] else [last])
  }

  lemma {:induction false} DataLinesAppend(a: seq<string>, b: seq<string>)
    ensures DataLines(a + b) == DataLines(a) + DataLines(b)
    decreases |b|
  {
    if b != [] {
      var b' := b[..|b| - 1];
      assert (a + b)[..|a + b| - 1] == a + b';
      DataLinesAppend(a, b');
    } else {
      assert a + b == a;
    }
  }

  lemma {:induction false} DataLinesStep(lines: seq<string>, i: nat)
    requires i < |lines|
    ensures IsComment(lines[i]) ==> DataLines(lines[..i + 1]) == DataLines(lines[..i])
    ensures !IsComment(lines[i]) ==> DataLines(lines[..i + 1]) == DataLines(lines[..i]) + [lines[i]]
  {
    assert lines[..i + 1][..i] == lines[..i];
    assert DataLines(lines[..i]) + [] == DataLines(lines[..i]);
  }

  /** The comment lines, in order. */
  function CommentLines(lines: seq<string>): (r: seq<string>)
    ensures forall k :: 0 <= k < |r| ==> IsComment(r[k])
  {
    if lines == [] then []
    else
      var last := lines[|lines| - 1];
      CommentLines(lines[..|lines| - 1]) + (if IsComment(last) then [last] else [])
  }

  lemma {:induction false} CommentLinesStep(lines: seq<string>, i: nat)
    requires i < |lines|
    ensures IsComment(lines[i]) ==> CommentLines(lines[..i + 1]) == CommentLines(lines[..i]) + [lines[i]]
    ensures !IsComment(lines[i]) ==> CommentLines(lines[..i + 1]) == CommentLines(lines[..i])
  {
    assert lines[..i + 1][..i] == lines[..i];
    assert CommentLines(lines[..i]) + [] == CommentLines(lines[..i]);
  }
}
