/** The rank map of `spearman_correlation_coefficent` (`src/correlation_coef.rs`,
    and the same closure in `src/other_exec.rs`): the values are sorted, and
    walking them in order a counter starting at -1 moves on at every value
    that differs from the one before, each position receiving the counter. */
module Ranks {
  import opened Common
  import opened Float

  const NegInf := Infinite(true)
  const UnwrapNone := "called `Option::unwrap()` on a `None` value"

  /** A value with its position, as `enumerate` pairs them. */
  datatype Tagged = Tagged(val: F64, idx: nat)

  function Enumerated(vals: seq<F64>): (r: seq<Tagged>)
    ensures |r| == |vals| && forall i :: 0 <= i < |vals| ==> r[i] == Tagged(vals[i], i)
  {
    seq(|vals|, i requires 0 <= i < |vals| => Tagged(vals[i], i))
  }

  predicate SortedByVal(s: seq<Tagged>)
  {
    forall i, j :: 0 <= i < j < |s| ==> OrdLe(s[i].val, s[j].val)
  }

  function InsertTagged(x: Tagged, s: seq<Tagged>): seq<Tagged>
  {
    if s == [] then [x]
    else if OrdLe(x.val, s[0].val) then [x] + s
    else [s[0]] + InsertTagged(x, s[1..])
  }

  lemma {:induction false} InsertTaggedMultiset(x: Tagged, s: seq<Tagged>)
    ensures multiset(InsertTagged(x, s)) == multiset(s) + multiset{x}
  {
    if s != [] && !OrdLe(x.val, s[0].val) {
      InsertTaggedMultiset(x, s[1..]);
      assert s == [s[0]] + s[1..];
    }
  }

  /** Everything after the head of a sorted sequence is at least the head. */
  lemma {:induction false} HeadBelow(h: Tagged, s: seq<Tagged>, y: Tagged)
    requires SortedByVal([h] + s) && y in s
    ensures OrdLe(h.val, y.val)
  {
    var k :| 0 <= k < |s| && s[k] == y;
    var c := [h] + s;
    assert c[0] == h && c[k + 1] == y;
    assert OrdLe(c[0].val, c[k + 1].val);
  }

  /** A head below everything of a sorted sequence keeps it sorted. */
  lemma {:induction false} ConsTagged(h: Tagged, r: seq<Tagged>)
    requires SortedByVal(r) && forall y :: y in r ==> OrdLe(h.val, y.val)
    ensures SortedByVal([h] + r)
  {
    var c := [h] + r;
    forall i, j | 0 <= i < j < |c|
      ensures OrdLe(c[i].val, c[j].val)
    {
      if i == 0 {
        assert c[j] == r[j - 1];
      } else {
        assert c[i] == r[i - 1] && c[j] == r[j - 1];
      }
    }
  }

  lemma {:induction false} InsertTaggedSorted(x: Tagged, s: seq<Tagged>)
    requires SortedByVal(s)
    ensures SortedByVal(InsertTagged(x, s))
  {
    if s == [] {
    } else if OrdLe(x.val, s[0].val) {
      forall y | y in s
        ensures OrdLe(x.val, y.val)
      {
        if y != s[0] {
          assert s == [s[0]] + s[1..];
          HeadBelow(s[0], s[1..], y);
          OrdTrans(x.val, s[0].val, y.val);
        }
      }
      ConsTagged(x, s);
    } else {
      var rest := InsertTagged(x, s[1..]);
      InsertTaggedSorted(x, s[1..]);
      InsertTaggedMultiset(x, s[1..]);
      OrdTotal(x.val, s[0].val);
      assert s == [s[0]] + s[1..];
      forall y | y in rest
        ensures OrdLe(s[0].val, y.val)
      {
        assert y in multiset(rest);
        if y != x {
          assert y in multiset(s[1..]);
          HeadBelow(s[0], s[1..], y);
        }
      }
      ConsTagged(s[0], rest);
    }
  }

  /** `sort_unstable_by` on the values: one sorted arrangement of the input. */
  function SortTagged(s: seq<Tagged>): (r: seq<Tagged>)
    ensures SortedByVal(r) && multiset(r) == multiset(s)
  {
    if s == [] then []
    else
      var init := SortTagged(s[..|s| - 1]);
      SortTaggedStep(s, init);
      InsertTagged(s[|s| - 1], init)
  }

  lemma {:induction false} SortTaggedStep(s: seq<Tagged>, init: seq<Tagged>)
    requires s != [] && SortedByVal(init) && multiset(init) == multiset(s[..|s| - 1])
    ensures SortedByVal(InsertTagged(s[|s| - 1], init))
    ensures multiset(InsertTagged(s[|s| - 1], init)) == multiset(s)
  {
    InsertTaggedSorted(s[|s| - 1], init);
    InsertTaggedMultiset(s[|s| - 1], init);
    assert s == s[..|s| - 1] + [s[|s| - 1]];
  }

  /** The distinct values below `x`, negative infinity not counted. */
  ghost function Below(vals: seq<F64>, x: F64): set<F64>
  {
    set v | v in vals && v != NegInf && Less(v, x)
  }

  /** The rank the map gives a value of `vals`: the number of distinct
      values below it, except that negative infinity, which the counter has
      not passed when it starts, keeps the initial -1. */
  ghost function Rank(vals: seq<F64>, x: F64): int
  {
    if x == NegInf then -1 else |Below(vals, x)|
  }

  /** The map's condition for keeping `always_unique`. */
  ghost predicate Unrepeated(vals: seq<F64>)
  {
    Distinct(vals) && NegInf !in vals
  }

  /** What the counter has counted after `k` sorted entries. */
  ghost function Seen(s: seq<Tagged>, k: nat): set<F64>
    requires k <= |s|
  {
    set j | 0 <= j < k && s[j].val != NegInf :: s[j].val
  }

  /** Entry `k` of the walk repeats: equal to the value before it, the
      first one compared with the initial negative infinity. */
  predicate Repeat(s: seq<Tagged>, k: nat)
    requires k < |s|
  {
    if k == 0 then Equal(NegInf, s[0].val) else Equal(s[k - 1].val, s[k].val)
  }

  /** The conditions under which the walk runs: `s` is a sorted arrangement
      of the enumerated values, with no NaN once there are two. */
  ghost predicate Arranged(vals: seq<F64>, s: seq<Tagged>)
  {
    SortedByVal(s) && multiset(s) == multiset(Enumerated(vals)) &&
    (|vals| >= 2 ==> NaN !in vals)
  }

  lemma {:induction false} InEnumerated(vals: seq<F64>, s: seq<Tagged>, p: nat)
    requires multiset(s) == multiset(Enumerated(vals)) && p < |s|
    ensures s[p].idx < |vals| && vals[s[p].idx] == s[p].val
  {
    assert s[p] in multiset(Enumerated(vals));
  }

  lemma {:induction false} Located(vals: seq<F64>, s: seq<Tagged>, i: nat) returns (p: nat)
    requires multiset(s) == multiset(Enumerated(vals)) && i < |vals|
    ensures p < |s| && s[p] == Tagged(vals[i], i)
  {
    assert Enumerated(vals)[i] in multiset(s);
    p :| 0 <= p < |s| && s[p] == Tagged(vals[i], i);
  }

  /** Every position of the input appears once in the arrangement. */
  lemma {:induction false} IndicesDistinct(vals: seq<F64>, s: seq<Tagged>, j: nat, k: nat)
    requires multiset(s) == multiset(Enumerated(vals)) && j < k < |s|
    ensures s[j].idx != s[k].idx
  {
    InEnumerated(vals, s, j);
    InEnumerated(vals, s, k);
    if s[j].idx == s[k].idx {
      TwiceInMultiset(s, j, k);
      assert Distinct(Enumerated(vals));
      DistinctOnce(Enumerated(vals), s[j]);
    }
  }

  lemma {:induction false} NoNaN(vals: seq<F64>, s: seq<Tagged>, p: nat)
    requires Arranged(vals, s) && |s| >= 2 && p < |s|
    ensures s[p].val != NaN
  {
    assert |s| == |multiset(s)| == |Enumerated(vals)|;
    InEnumerated(vals, s, p);
  }

  lemma {:induction false} LessOfLe(a: F64, b: F64)
    requires OrdLe(a, b) && a != b && a != NaN && b != NaN
    ensures Less(a, b)
  {
  }

  lemma {:induction false} NotLeOfLess(a: F64, b: F64)
    requires Less(a, b)
    ensures !OrdLe(b, a)
  {
  }

  /** The values counted after entry `k` are the values below it and, unless
      it is negative infinity, itself. */
  lemma {:induction false} SeenAt(vals: seq<F64>, s: seq<Tagged>, k: nat)
    requires Arranged(vals, s) && k < |s|
    ensures Seen(s, k + 1) == Below(vals, s[k].val) + (if s[k].val != NegInf then {s[k].val} else {})
  {
    var x := s[k].val;
    var rhs := Below(vals, x) + (if x != NegInf then {x} else {});
    forall v | v in Seen(s, k + 1)
      ensures v in rhs
    {
      var j :| 0 <= j < k + 1 && s[j].val != NegInf && s[j].val == v;
      if j < k && v != x {
        NoNaN(vals, s, j);
        NoNaN(vals, s, k);
        LessOfLe(v, x);
        InEnumerated(vals, s, j);
      }
    }
    forall v | v in Below(vals, x)
      ensures v in Seen(s, k + 1)
    {
      var i :| 0 <= i < |vals| && vals[i] == v;
      var p := Located(vals, s, i);
      if p > k {
        NotLeOfLess(v, x);
        assert false;
      }
    }
  }

  /** The counter after entry `k`, as the count of the values seen. */
  lemma {:induction false} CounterStep(vals: seq<F64>, s: seq<Tagged>, k: nat)
    requires Arranged(vals, s) && k < |s|
    ensures Repeat(s, k) ==> Seen(s, k + 1) == Seen(s, k)
    ensures !Repeat(s, k) ==> |Seen(s, k + 1)| == |Seen(s, k)| + 1
  {
    var x := s[k].val;
    assert Seen(s, k + 1) == Seen(s, k) + (if x != NegInf then {x} else {});
    if k > 0 && !Repeat(s, k) {
      NoNaN(vals, s, k - 1);
      NoNaN(vals, s, k);
      assert x != NegInf by {
        OrdTotal(s[k - 1].val, x);
      }
      assert x !in Seen(s, k) by {
        OrdTotal(s[k - 1].val, x);
      }
    }
  }

  /** The counter after entry `k` is the rank of its value. */
  lemma {:induction false} RankAt(vals: seq<F64>, s: seq<Tagged>, k: nat)
    requires Arranged(vals, s) && k < |s|
    ensures Rank(vals, s[k].val) == |Seen(s, k + 1)| - 1
  {
    SeenAt(vals, s, k);
    var x := s[k].val;
    assert x !in Below(vals, x);
    if x == NegInf {
      assert Below(vals, x) == {};
    }
  }

  /** A repeat in the sorted walk is a repeated value or negative infinity
      in the input, and back. */
  lemma {:induction false} RepeatIff(vals: seq<F64>, s: seq<Tagged>)
    requires Arranged(vals, s)
    ensures (exists k :: 0 <= k < |s| && Repeat(s, k)) <==> !Unrepeated(vals)
  {
    if exists k :: 0 <= k < |s| && Repeat(s, k) {
      var k :| 0 <= k < |s| && Repeat(s, k);
      InEnumerated(vals, s, k);
      if k > 0 {
        InEnumerated(vals, s, k - 1);
        IndicesDistinct(vals, s, k - 1, k);
        var a, b := s[k - 1].idx, s[k].idx;
        if a < b {
          assert vals[a] == vals[b];
        } else {
          assert vals[b] == vals[a];
        }
      }
    }
    if NegInf in vals {
      var i :| 0 <= i < |vals| && vals[i] == NegInf;
      var p := Located(vals, s, i);
      if p > 0 {
        assert OrdLe(s[0].val, s[p].val);
      }
      assert Repeat(s, 0);
    } else if !Distinct(vals) {
      var i, j :| 0 <= i < j < |vals| && vals[i] == vals[j];
      var p := Located(vals, s, i);
      var q := Located(vals, s, j);
      var a, b := if p < q then p else q, if p < q then q else p;
      NoNaN(vals, s, a);
      assert s[a].val == s[b].val;
      assert OrdLe(s[a].val, s[a + 1].val);
      if a + 1 < b {
        assert OrdLe(s[a + 1].val, s[b].val);
      }
      OrdTotal(s[a].val, s[a + 1].val);
      assert Repeat(s, a + 1);
    }
  }

  /** The distinct values the counter passes over: all but negative
      infinity. */
  ghost function Values(vals: seq<F64>): set<F64>
  {
    set v | v in vals && v != NegInf
  }

  /** The ranks the values receive. */
  ghost function RankSet(vals: seq<F64>): set<int>
  {
    set i | 0 <= i < |vals| :: Rank(vals, vals[i])
  }

  /** The numbers 0 .. n - 1. */
  function Interval(n: nat): (r: set<int>)
    ensures forall x :: x in r <==> 0 <= x < n
  {
    if n == 0 then {} else Interval(n - 1) + {n - 1}
  }

  /** A smaller value has a smaller rank. */
  lemma {:induction false} RankMonotone(vals: seq<F64>, x: F64, y: F64)
    requires x in vals && Less(x, y)
    ensures Rank(vals, x) < Rank(vals, y)
  {
    if x != NegInf {
      assert Below(vals, x) + {x} <= Below(vals, y);
      SubsetCard(Below(vals, x) + {x}, Below(vals, y));
    }
  }

  /** Every rank but that of negative infinity lies below the number of
      distinct values. */
  lemma {:induction false} RankBound(vals: seq<F64>, x: F64)
    requires x in vals && x != NegInf
    ensures 0 <= Rank(vals, x) < |Values(vals)|
  {
    assert x !in Below(vals, x);
    SubsetCard(Below(vals, x) + {x}, Values(vals));
  }

  /** All values other than negative infinity have been counted at the end
      of the walk. */
  lemma {:induction false} SeenAll(vals: seq<F64>, s: seq<Tagged>)
    requires Arranged(vals, s)
    ensures Seen(s, |s|) == Values(vals)
  {
    forall v | v in Values(vals)
      ensures v in Seen(s, |s|)
    {
      var i :| 0 <= i < |vals| && vals[i] == v;
      var p := Located(vals, s, i);
    }
    forall v | v in Seen(s, |s|)
      ensures v in Values(vals)
    {
      var j :| 0 <= j < |s| && s[j].val != NegInf && s[j].val == v;
      InEnumerated(vals, s, j);
    }
  }

  /** Along the walk the rank grows by steps of at most one, so it takes
      every value between the first and entry `k`. */
  lemma {:induction false} WalkCovers(vals: seq<F64>, s: seq<Tagged>, k: nat, r: int) returns (j: nat)
    requires Arranged(vals, s) && k < |s|
    requires Rank(vals, s[0].val) <= r <= Rank(vals, s[k].val)
    ensures j <= k && Rank(vals, s[j].val) == r
  {
    if r == Rank(vals, s[k].val) {
      j := k;
    } else {
      RankAt(vals, s, k - 1);
      RankAt(vals, s, k);
      CounterStep(vals, s, k);
      j := WalkCovers(vals, s, k - 1, r);
    }
  }

  /** The ranks are dense: every number below the count of distinct values
      is the rank of some value. */
  lemma {:induction false} RankDense(vals: seq<F64>, r: nat)
    requires |vals| >= 2 ==> NaN !in vals
    requires r < |Values(vals)|
    ensures exists i :: 0 <= i < |vals| && Rank(vals, vals[i]) == r
  {
    var s := SortTagged(Enumerated(vals));
    assert |s| == |multiset(s)| == |vals|;
    assert Arranged(vals, s);
    var v :| v in Values(vals);
    SeenAll(vals, s);
    RankAt(vals, s, 0);
    RankAt(vals, s, |s| - 1);
    assert Seen(s, 1) <= {s[0].val};
    SubsetCard(Seen(s, 1), {s[0].val});
    var j := WalkCovers(vals, s, |s| - 1, r);
    InEnumerated(vals, s, j);
  }

  /** Without repeats and negative infinity the ranks are a permutation of
      0 .. n - 1, which the rank-difference formula of the coefficient
      relies on. */
  lemma {:induction false} UnrepeatedRanks(vals: seq<F64>)
    requires |vals| >= 2 ==> NaN !in vals
    requires Unrepeated(vals)
    ensures forall i :: 0 <= i < |vals| ==> 0 <= Rank(vals, vals[i]) < |vals|
    ensures RankSet(vals) == Interval(|vals|)
    ensures forall i, j :: 0 <= i < j < |vals| ==> Rank(vals, vals[i]) != Rank(vals, vals[j])
  {
    DistinctCard(vals);
    assert Values(vals) == Elems(vals);
    forall i | 0 <= i < |vals|
      ensures 0 <= Rank(vals, vals[i]) < |vals|
    {
      RankBound(vals, vals[i]);
    }
    forall r | r in Interval(|vals|)
      ensures r in RankSet(vals)
    {
      RankDense(vals, r);
    }
    forall i, j | 0 <= i < j < |vals|
      ensures Rank(vals, vals[i]) != Rank(vals, vals[j])
    {
      OrdTotal(vals[i], vals[j]);
      if OrdLe(vals[i], vals[j]) {
        LessOfLe(vals[i], vals[j]);
        RankMonotone(vals, vals[i], vals[j]);
      } else {
        LessOfLe(vals[j], vals[i]);
        RankMonotone(vals, vals[j], vals[i]);
      }
    }
  }

  /** The walk over a sorted arrangement `s`: `map[old_idx] = counter` into a
      zeroed array of the input's length, and `always_unique` cleared at
      every repeat. Any sorted arrangement gives the same map. */
  method AssignRanks(vals: seq<F64>, s: seq<Tagged>, unique: bool) returns (a: array<int>, unique': bool)
    requires Arranged(vals, s)
    ensures fresh(a) && a.Length == |vals|
    ensures forall i :: 0 <= i < |vals| ==> a[i] == Rank(vals, vals[i])
    ensures unique' == (unique && Unrepeated(vals))
  {
    assert |s| == |multiset(s)| == |Enumerated(vals)|;
    a := new int[|s|](_ => 0);
    var counter := -1;
    var last := NegInf;
    unique' := unique;
    for k := 0 to |s|
      invariant counter == |Seen(s, k)| - 1
      invariant last == if k == 0 then NegInf else s[k - 1].val
      invariant forall j :: 0 <= j < k ==> s[j].idx < a.Length && a[s[j].idx] == Rank(vals, s[j].val)
      invariant unique' == (unique && forall j :: 0 <= j < k ==> !Repeat(s, j))
    {
      var val, oldIdx := s[k].val, s[k].idx;
      CounterStep(vals, s, k);
      RankAt(vals, s, k);
      InEnumerated(vals, s, k);
      if !Equal(last, val) {
        counter := counter + 1;
        last := val;
      } else {
        unique' := false;
      }
      forall j | 0 <= j < k
        ensures s[j].idx != oldIdx
      {
        IndicesDistinct(vals, s, j, k);
      }
      a[oldIdx] := counter;
    }
    forall i | 0 <= i < |vals|
      ensures a[i] == Rank(vals, vals[i])
    {
      var p := Located(vals, s, i);
    }
    RepeatIff(vals, s);
  }

  /** `create_map`: the map of one column; comparing NaN with anything makes
      `partial_cmp(..).unwrap()` fail, and a sort of two or more values
      compares every one of them. */
  method CreateMap(vals: seq<F64>, unique: bool) returns (r: Result<array<int>>, unique': bool)
    ensures r.Abort? <==> |vals| >= 2 && NaN in vals
    ensures r.Ok? ==> fresh(r.value) && r.value.Length == |vals|
    ensures r.Ok? ==> forall i :: 0 <= i < |vals| ==> r.value[i] == Rank(vals, vals[i])
    ensures r.Ok? ==> unique' == (unique && Unrepeated(vals))
  {
    if |vals| >= 2 && NaN in vals {
      return Abort(UnwrapNone), unique;
    }
    var s := SortTagged(Enumerated(vals));
    var a;
    a, unique' := AssignRanks(vals, s, unique);
    r := Ok(a);
  }

  function Firsts(pairs: seq<(F64, F64)>): (r: seq<F64>)
    ensures |r| == |pairs| && forall i :: 0 <= i < |pairs| ==> r[i] == pairs[i].0
  {
    seq(|pairs|, i requires 0 <= i < |pairs| => pairs[i].0)
  }

  function Seconds(pairs: seq<(F64, F64)>): (r: seq<F64>)
    ensures |r| == |pairs| && forall i :: 0 <= i < |pairs| ==> r[i] == pairs[i].1
  {
    seq(|pairs|, i requires 0 <= i < |pairs| => pairs[i].1)
  }

  /** Both rank maps of the pairs, and whether no column had a repeat, which
      decides between the rank-difference formula and Pearson on the ranks. */
  method SpearmanRanks(pairs: seq<(F64, F64)>) returns (r: Result<(array<int>, array<int>, bool)>)
    ensures r.Abort? <==> |pairs| >= 2 && (NaN in Firsts(pairs) || NaN in Seconds(pairs))
    ensures r.Ok? ==> r.value.0.Length == |pairs| && r.value.1.Length == |pairs|
    ensures r.Ok? ==> forall i :: 0 <= i < |pairs| ==>
      r.value.0[i] == Rank(Firsts(pairs), pairs[i].0) && r.value.1[i] == Rank(Seconds(pairs), pairs[i].1)
    ensures r.Ok? ==> r.value.2 == (Unrepeated(Firsts(pairs)) && Unrepeated(Seconds(pairs)))
  {
    var alwaysUnique := true;
    var am;
    am, alwaysUnique := CreateMap(Firsts(pairs), alwaysUnique);
    if am.Abort? {
      return Abort(am.reason);
    }
    var bm;
    bm, alwaysUnique := CreateMap(Seconds(pairs), alwaysUnique);
    if bm.Abort? {
      return Abort(bm.reason);
    }
    r := Ok((am.value, bm.value, alwaysUnique));
  }
}
