/** The bookkeeping of `worst_integral_sorting` in `src/other_exec.rs`: the
    first file numbers its ids by line, later files number the ids it has
    not seen yet, and each later file is rewritten so that the line of
    order `o` is data row `o`. */
module IntegralParts {
  import opened Common
  import opened Text

  /** `split_whitespace().next()`: `None` for a blank line. */
  function FirstWord(line: string): Option<string>
  {
    var w := Words(line, IsWhitespace);
    if w == [] then None else Some(w[0])
  }

  /** Every line has a first word, so no `unwrap` fails. */
  predicate AllWorded(data: seq<string>)
  {
    forall k :: 0 <= k < |data| ==> FirstWord(data[k]).Some?
  }

  /** The first words of the lines. */
  function Ids(data: seq<string>): (r: seq<string>)
    requires AllWorded(data)
    ensures |r| == |data| && forall k :: 0 <= k < |data| ==> r[k] == FirstWord(data[k]).value
  {
    seq(|data|, k requires 0 <= k < |data| => FirstWord(data[k]).value)
  }

  lemma {:induction false} IdsSnoc(data: seq<string>, x: string)
    requires AllWorded(data) && FirstWord(x).Some?
    ensures AllWorded(data + [x]) && Ids(data + [x]) == Ids(data) + [FirstWord(x).value]
  {
  }

  /** `sorting` after the first file: `insert` gives every id the counter of
      its line, a later line of the same id overwriting an earlier one. */
  function FirstMap(ids: seq<string>): map<string, nat>
  {
    if ids == [] then map[] else FirstMap(ids[..|ids| - 1])[ids[|ids| - 1] := |ids| - 1]
  }

  /** Each id of the first file gets the position of its last line. */
  lemma {:induction false} FirstMapLast(ids: seq<string>, x: string)
    ensures x in FirstMap(ids) <==> x in ids
    ensures x in FirstMap(ids) ==> FirstMap(ids)[x] < |ids| && ids[FirstMap(ids)[x]] == x
    ensures x in FirstMap(ids) ==> forall k :: FirstMap(ids)[x] < k < |ids| ==> ids[k] != x
  {
    if ids != [] {
      var t := ids[..|ids| - 1];
      FirstMapLast(t, x);
      assert ids == t + [ids[|ids| - 1]];
    }
  }

  /** With distinct ids the first file's ids get the orders 0, 1, 2, … in
      line order. */
  lemma {:induction false} FirstMapDistinct(ids: seq<string>, k: nat)
    requires Distinct(ids) && k < |ids|
    ensures ids[k] in FirstMap(ids) && FirstMap(ids)[ids[k]] == k
  {
    FirstMapLast(ids, ids[k]);
  }

  /** A numbering: different ids have different orders, all below the
      counter. */
  ghost predicate Valid(m: map<string, nat>, counter: nat)
  {
    (forall x :: x in m ==> m[x] < counter) &&
    (forall x, y :: x in m && y in m && x != y ==> m[x] != m[y])
  }

  lemma {:induction false} FirstMapValid(ids: seq<string>)
    ensures Valid(FirstMap(ids), |ids|)
  {
    forall x | x in FirstMap(ids)
      ensures FirstMap(ids)[x] < |ids| && ids[FirstMap(ids)[x]] == x
    {
      FirstMapLast(ids, x);
    }
  }

  /** A later file: an id without an order gets `order_counter`, which then
      moves on; known ids keep theirs. */
  function Assigned(ids: seq<string>, m: map<string, nat>, counter: nat): (r: (map<string, nat>, nat))
  {
    if ids == [] then (m, counter)
    else
      var p := Assigned(ids[..|ids| - 1], m, counter);
      var x := ids[|ids| - 1];
      if x in p.0 then p else (p.0[x := p.1], p.1 + 1)
  }

  /** The numbering after a later file: known ids keep their orders, the
      file's new ids take exactly the orders from the old counter up to the
      new one, and it stays a numbering. */
  ghost predicate Extends(m: map<string, nat>, counter: nat, ids: seq<string>, m': map<string, nat>, counter': nat)
  {
    counter <= counter' &&
    (forall x :: x in m ==> x in m' && m'[x] == m[x]) &&
    (forall x :: x in m' <==> x in m || x in ids) &&
    (forall x :: x in m' && x !in m ==> counter <= m'[x]) &&
    (forall o :: counter <= o < counter' ==> Used(m, m', o))
  }

  /** Order `o` went to an id that had none. */
  ghost predicate Used(m: map<string, nat>, m': map<string, nat>, o: nat)
  {
    exists x :: x in m' && x !in m && m'[x] == o
  }

  lemma {:induction false} AssignedFresh(ids: seq<string>, m: map<string, nat>, counter: nat)
    requires Valid(m, counter)
    ensures Valid(Assigned(ids, m, counter).0, Assigned(ids, m, counter).1)
    ensures Extends(m, counter, ids, Assigned(ids, m, counter).0, Assigned(ids, m, counter).1)
  {
    if ids != [] {
      var t := ids[..|ids| - 1];
      var x := ids[|ids| - 1];
      AssignedFresh(t, m, counter);
      assert ids == t + [x];
      var p := Assigned(t, m, counter);
      if x !in p.0 {
        var m' := p.0[x := p.1];
        forall o | counter <= o < p.1 + 1
          ensures Used(m, m', o)
        {
          if o < p.1 {
            assert Used(m, p.0, o);
            var y :| y in p.0 && y !in m && p.0[y] == o;
            assert y != x;
            assert m'[y] == o;
          } else {
            assert m'[x] == o;
          }
        }
      }
    }
  }

  /** New ids are numbered in the order in which they first appear. */
  lemma {:induction false} AssignedFirstSeen(ids: seq<string>, m: map<string, nat>, counter: nat, i: nat, j: nat)
    requires Valid(m, counter)
    requires i < j < |ids| && ids[i] !in m && ids[j] !in m && ids[j] !in ids[..j]
    ensures ids[i] in Assigned(ids, m, counter).0 && ids[j] in Assigned(ids, m, counter).0
    ensures Assigned(ids, m, counter).0[ids[i]] < Assigned(ids, m, counter).0[ids[j]]
    decreases |ids|
  {
    var t := ids[..|ids| - 1];
    var x := ids[|ids| - 1];
    assert ids == t + [x];
    AssignedFresh(t, m, counter);
    AssignedFresh(ids, m, counter);
    var p := Assigned(t, m, counter);
    assert ids[i] in t;
    if j < |ids| - 1 {
      assert t[..j] == ids[..j];
      AssignedFirstSeen(t, m, counter, i, j);
    } else {
      assert x !in t;
      assert x !in p.0;
      assert p.0[ids[i]] < p.1;
    }
  }

  /** A line of a later file with its order. */
  datatype Keyed = Keyed(order: nat, line: string)

  /** The entries sorted by order. */
  predicate InOrder(es: seq<Keyed>)
  {
    forall i, j :: 0 <= i < j < |es| ==> es[i].order <= es[j].order
  }

  function OrderKey(e: Keyed): int
  {
    e.order
  }

  /** The `for_sorting` entries of the data lines under the numbering `m`. */
  function Entries(data: seq<string>, m: map<string, nat>): (r: seq<Keyed>)
    requires AllWorded(data) && forall k :: 0 <= k < |data| ==> Ids(data)[k] in m
    ensures |r| == |data| && forall k :: 0 <= k < |data| ==> r[k] == Keyed(m[Ids(data)[k]], data[k])
  {
    seq(|data|, k requires 0 <= k < |data| => Keyed(m[Ids(data)[k]], data[k]))
  }

  const Placeholder := "NaN NaN NaN NaN NaN"

  /** The rows written for the entries: row `o` holds the line of order `o`,
      every other row up to the largest order is a placeholder. */
  ghost predicate Rows(es: seq<Keyed>, out: seq<string>)
  {
    (forall e :: e in es ==> e.order < |out| && out[e.order] == e.line) &&
    (forall p :: 0 <= p < |out| && (forall e :: e in es ==> e.order != p) ==> out[p] == Placeholder) &&
    (es == [] <==> out == []) &&
    (es != [] ==> exists e :: e in es && e.order == |out| - 1)
  }

  /** The write loop after `i` entries: their orders strictly increase,
      the rows hold them and end at the last one. */
  ghost predicate Writing(sorted: seq<Keyed>, i: nat, out: seq<string>)
  {
    i <= |sorted| &&
    (i == 0 ==> out == []) &&
    (i > 0 ==> |out| == sorted[i - 1].order + 1) &&
    (forall a, b :: 0 <= a < b < i ==> sorted[a].order < sorted[b].order) &&
    Rows(sorted[..i], out)
  }

  /** The rows are determined by the entries. */
  lemma {:induction false} RowsUnique(es: seq<Keyed>, out: seq<string>, out': seq<string>)
    requires Rows(es, out) && Rows(es, out')
    ensures out == out'
  {
    if es != [] {
      var e :| e in es && e.order == |out| - 1;
      var e' :| e' in es && e'.order == |out'| - 1;
      assert |out| == |out'|;
      forall p | 0 <= p < |out|
        ensures out[p] == out'[p]
      {
        if exists e :: e in es && e.order == p {
          var d :| d in es && d.order == p;
        }
      }
    }
  }

  /** The rows do not depend on the order of the entries, so the unstable
      sort leaves nothing open. */
  lemma {:induction false} RowsPermuted(es: seq<Keyed>, es': seq<Keyed>, out: seq<string>)
    requires multiset(es) == multiset(es') && Rows(es, out)
    ensures Rows(es', out)
  {
    assert forall e :: e in es <==> e in multiset(es);
    assert forall e :: e in es' <==> e in multiset(es');
    if es' == [] {
      assert |es| == |multiset(es)| == 0;
    }
  }
}
