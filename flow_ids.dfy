/** Values and list facts of the shock-job bookkeeping in
    `src/network/main_execs/flow_helper.rs`: the exporter items, the
    reference definition of the unrestricted ids, the partition the job
    keeps, and the list operations its methods use. */
module FlowIds {
  import opened Common
  import opened Sorting

  /** `ExportShockItem`. */
  datatype ExportShockItem = ExportShockItem(exportId: nat, exportFrac: real)

  function IdKey(e: ExportShockItem): int
  {
    e.exportId
  }

  function NatKey(x: nat): int
  {
    x
  }

  /** An export fraction reduced by `factor` (`*=` on `f64`, taken as a
      product of reals). */
  function Scale(frac: real, factor: real): real
  {
    frac * factor
  }

  /** The exporter ids, in list order. */
  function Ids(ex: seq<ExportShockItem>): (r: seq<nat>)
    ensures |r| == |ex| && forall k :: 0 <= k < |ex| ==> r[k] == ex[k].exportId
  {
    seq(|ex|, k requires 0 <= k < |ex| => ex[k].exportId)
  }

  /** Reference definition: the ascending list of the ids below `n` that are
      not in `ids`. */
  function Complement(n: nat, ids: seq<nat>): (r: seq<nat>)
    ensures StrictlyIncreasing(r)
    ensures forall x: nat :: x in r <==> x < n && x !in ids
  {
    if n == 0 then []
    else
      var prev := Complement(n - 1, ids);
      var r := prev + (if n - 1 in ids then [] else [n - 1]);
      forall k | 0 <= k < |prev|
        ensures prev[k] < n - 1
      {
        assert prev[k] in prev;
      }
      r
  }

  /** The invariant of a job over a network of `n` nodes: both lists are
      strictly ascending, and the unrestricted ids are exactly the ids below
      `n` that are not exporters (so the two are disjoint and together cover
      `0..n`). */
  ghost predicate Partitioned(ex: seq<ExportShockItem>, un: seq<nat>, n: nat)
  {
    StrictlyIncreasing(Ids(ex)) && StrictlyIncreasing(un) &&
    forall x: nat :: x in un <==> x < n && x !in Ids(ex)
  }

  /** The cursor `p` of the filter before it looks at `id`: everything in
      front of it is smaller than `id`, and it rests on an element not smaller
      than `id` unless it is the last one. */
  ghost predicate Cursor(sorted: seq<nat>, p: nat, id: nat)
  {
    p < |sorted| &&
    (forall q :: 0 <= q < p ==> sorted[q] < id) &&
    (id <= sorted[p] || p == |sorted| - 1)
  }

  /** On a strictly ascending list the cursor's element decides membership. */
  lemma {:induction false} CursorDecides(sorted: seq<nat>, p: nat, id: nat)
    requires StrictlyIncreasing(sorted) && Cursor(sorted, p, id)
    ensures id in sorted <==> sorted[p] == id
  {
    if id in sorted {
      var q :| 0 <= q < |sorted| && sorted[q] == id;
    }
  }

  /** The state of the filter before it looks at `id`: the kept ids are
      strictly ascending and below `id`, every smaller id not in `sorted` is
      kept, and on a strictly ascending list the kept ids are the reference
      ones. */
  ghost predicate FilterState(sorted: seq<nat>, p: nat, id: nat, free: seq<nat>)
  {
    p < |sorted| && StrictlyIncreasing(free) &&
    (forall x :: x in free ==> x < id) &&
    (forall x: nat :: x < id && x !in sorted ==> x in free) &&
    (StrictlyIncreasing(sorted) ==> Cursor(sorted, p, id) && free == Complement(id, sorted))
  }

  /** The filter drops the id under the cursor and moves the cursor on. */
  lemma {:induction false} FilterDrop(sorted: seq<nat>, p: nat, id: nat, free: seq<nat>)
    requires FilterState(sorted, p, id, free) && sorted[p] == id
    ensures FilterState(sorted, if p + 1 < |sorted| then p + 1 else p, id + 1, free)
  {
    if StrictlyIncreasing(sorted) {
      CursorDecides(sorted, p, id);
    }
  }

  /** The filter keeps any other id. */
  lemma {:induction false} FilterKeep(sorted: seq<nat>, p: nat, id: nat, free: seq<nat>)
    requires FilterState(sorted, p, id, free) && sorted[p] != id
    ensures FilterState(sorted, p, id + 1, free + [id])
  {
    if StrictlyIncreasing(sorted) {
      CursorDecides(sorted, p, id);
    }
    forall k | 0 <= k < |free|
      ensures free[k] < id
    {
      assert free[k] in free;
    }
  }

  /** The ids of the exporters, all with fraction `frac` (lines 134-137). */
  function WithFrac(ids: seq<nat>, frac: real): (r: seq<ExportShockItem>)
    ensures Ids(r) == ids
    ensures forall k :: 0 <= k < |r| ==> r[k].exportFrac == frac
  {
    var r := seq(|ids|, k requires 0 <= k < |ids| => ExportShockItem(ids[k], frac));
    assert Ids(r) == ids;
    r
  }

  /** `Vec::remove`. */
  function RemoveAt(s: seq<nat>, p: nat): (r: seq<nat>)
    requires p < |s|
    ensures |r| == |s| - 1
  {
    s[..p] + s[p + 1..]
  }

  /** The unrestricted ids after `add_exporter` took `x` out of them. */
  function Without(s: seq<nat>, x: nat): (r: seq<nat>)
    requires x in s
  {
    RemoveAt(s, Position(s, x).value)
  }

  /** `sort_unstable_by_key(|e| e.export_id)` after pushing `e`: an
      ascending rearrangement of the list with `e` added. Of the possible
      results this takes `e` inserted in place when the list already is
      ascending, the only one when the ids are distinct. */
  function Resorted(ex: seq<ExportShockItem>, e: ExportShockItem): (r: seq<ExportShockItem>)
    ensures SortedBy(r, IdKey)
    ensures multiset(r) == multiset(ex) + multiset{e}
    ensures |r| == |ex| + 1
  {
    if SortedBy(ex, IdKey) then Insert(e, ex, IdKey)
    else
      var r := SortByKey(ex + [e], IdKey);
      assert multiset(ex + [e]) == multiset(ex) + multiset{e};
      r
  }

  /** A sorted rearrangement of a list without two equal keys has strictly
      ascending keys. */
  lemma {:induction false} SortedKeysStrict<T>(s: seq<T>, r: seq<T>, key: T -> int)
    requires SortedBy(r, key) && multiset(r) == multiset(s)
    requires forall i, j :: 0 <= i < j < |s| ==> key(s[i]) != key(s[j])
    ensures forall i, j :: 0 <= i < j < |r| ==> key(r[i]) < key(r[j])
  {
    forall i, j | 0 <= i < j < |r|
      ensures key(r[i]) < key(r[j])
    {
      if r[i] == r[j] {
        TwiceInMultiset(r, i, j);
        AtMostOnce(s, key, r[i]);
        assert false;
      } else {
        assert r[i] in multiset(s) && r[j] in multiset(s);
        DistinctItems(s, key, r[i], r[j]);
      }
    }
  }

  /** Two different elements of a list without two equal keys have
      different keys. */
  lemma {:induction false} DistinctItems<T>(s: seq<T>, key: T -> int, x: T, y: T)
    requires forall i, j :: 0 <= i < j < |s| ==> key(s[i]) != key(s[j])
    requires x in s && y in s && x != y
    ensures key(x) != key(y)
  {
    var a :| 0 <= a < |s| && s[a] == x;
    var b :| 0 <= b < |s| && s[b] == y;
    if a > b {
      assert key(s[b]) != key(s[a]);
    }
  }

  /** Without two equal keys no element is counted twice. */
  lemma {:induction false} AtMostOnce<T>(s: seq<T>, key: T -> int, x: T)
    requires forall i, j :: 0 <= i < j < |s| ==> key(s[i]) != key(s[j])
    ensures multiset(s)[x] <= 1
  {
    if s != [] {
      var init := s[..|s| - 1];
      AtMostOnce(init, key, x);
      assert s == init + [s[|s| - 1]];
    }
  }

  /** The exporters with `e` inserted in place: the ids stay strictly
      ascending and gain `e`'s. */
  lemma {:induction false} InsertedIds(ex: seq<ExportShockItem>, e: ExportShockItem)
    requires StrictlyIncreasing(Ids(ex)) && e.exportId !in Ids(ex)
    ensures SortedBy(ex, IdKey)
    ensures StrictlyIncreasing(Ids(Insert(e, ex, IdKey)))
    ensures forall x :: x in Ids(Insert(e, ex, IdKey)) <==> x in Ids(ex) || x == e.exportId
  {
    SortedFromIds(ex);
    var p := IdsOfInsert(ex, e);
    StrictInsert(Ids(ex), p, e.exportId);
  }

  lemma {:induction false} SortedFromIds(ex: seq<ExportShockItem>)
    requires StrictlyIncreasing(Ids(ex))
    ensures SortedBy(ex, IdKey)
  {
    assert forall i, j :: 0 <= i < j < |ex| ==> Ids(ex)[i] < Ids(ex)[j];
  }

  /** The ids after inserting `e` at its place `p`. */
  lemma {:induction false} IdsOfInsert(ex: seq<ExportShockItem>, e: ExportShockItem) returns (p: nat)
    requires SortedBy(ex, IdKey)
    ensures p <= |ex|
    ensures Ids(Insert(e, ex, IdKey)) == Ids(ex)[..p] + [e.exportId] + Ids(ex)[p..]
    ensures forall i :: 0 <= i < p ==> Ids(ex)[i] < e.exportId
    ensures p < |ex| ==> e.exportId <= Ids(ex)[p]
  {
    p := InsertPos(e, ex, IdKey);
    var r := ex[..p] + [e] + ex[p..];
    assert Insert(e, ex, IdKey) == r;
    var a := Ids(ex);
    var b := a[..p] + [e.exportId] + a[p..];
    forall k | 0 <= k < |r|
      ensures Ids(r)[k] == b[k]
    {
      if k < p {
        assert r[k] == ex[k] && b[k] == a[k];
      } else if k > p {
        assert r[k] == ex[k - 1] && b[k] == a[k - 1];
      }
    }
  }

  /** A value between its neighbours keeps a strictly ascending list so,
      and adds just itself to its elements. */
  lemma {:induction false} StrictInsert(a: seq<nat>, p: nat, x: nat)
    requires StrictlyIncreasing(a) && p <= |a| && x !in a
    requires forall i :: 0 <= i < p ==> a[i] < x
    requires p < |a| ==> x <= a[p]
    ensures StrictlyIncreasing(a[..p] + [x] + a[p..])
    ensures forall y :: y in a[..p] + [x] + a[p..] <==> y in a || y == x
  {
    if p < |a| {
      assert a[p] in a;
    }
    var r := a[..p] + [x] + a[p..];
    assert forall k :: 0 <= k < p ==> r[k] == a[k];
    assert forall k :: p < k < |r| ==> r[k] == a[k - 1];
    StrictFromPointwise(a, r, p, x);
    InsertMembers(a, p, x);
  }

  lemma {:induction false} StrictFromPointwise(a: seq<nat>, r: seq<nat>, p: nat, x: nat)
    requires StrictlyIncreasing(a) && p <= |a|
    requires forall i :: 0 <= i < p ==> a[i] < x
    requires p < |a| ==> x < a[p]
    requires |r| == |a| + 1
    requires r[p] == x
    requires forall k :: 0 <= k < p ==> r[k] == a[k]
    requires forall k :: p < k < |r| ==> r[k] == a[k - 1]
    ensures StrictlyIncreasing(r)
  {
    forall i, j | 0 <= i < j < |r|
      ensures r[i] < r[j]
    {
      if j < p {
        assert r[i] == a[i] && r[j] == a[j];
      } else if j == p {
        assert r[i] == a[i];
      } else if i < p {
        assert r[i] == a[i] && r[j] == a[j - 1];
      } else if i == p {
        assert r[j] == a[j - 1];
      } else {
        assert r[i] == a[i - 1] && r[j] == a[j - 1];
      }
    }
  }

  lemma {:induction false} InsertMembers(a: seq<nat>, p: nat, x: nat)
    requires p <= |a|
    ensures forall y :: y in a[..p] + [x] + a[p..] <==> y in a || y == x
  {
    assert a == a[..p] + a[p..];
  }

  /** Removing one position of a strictly ascending list keeps it strictly
      ascending and loses exactly that element. */
  lemma {:induction false} RemovedIds(s: seq<nat>, q: nat)
    requires StrictlyIncreasing(s) && q < |s|
    ensures StrictlyIncreasing(RemoveAt(s, q))
    ensures forall x :: x in RemoveAt(s, q) <==> x in s && x != s[q]
  {
    var r := RemoveAt(s, q);
    assert forall k :: 0 <= k < |r| ==> r[k] == if k < q then s[k] else s[k + 1];
    forall x | x in s && x != s[q]
      ensures x in r
    {
      var k :| 0 <= k < |s| && s[k] == x;
      if k < q {
        assert r[k] == x;
      } else {
        assert r[k - 1] == x;
      }
    }
  }
}
