/** `src/group_cmp/cmp_two.rs`: two files of groups, each group a block of
    lines, compared group by group. Files are given as their lines. */
module CmpTwo {
  import opened Common
  import opened Text
  import opened Sorting

  // ---------------------------------------------------------------------
  // read_sets

  /** An empty line or a comment line ends a group. */
  predicate IsSeparator(line: string)
  {
    line == [] || StartsWith(line, "#")
  }

  /** The lines cut at every separator: the pieces between separators, the
      separators themselves dropped; empty pieces included. */
  ghost function Pieces(lines: seq<string>): (r: seq<seq<string>>)
    ensures |r| >= 1
  {
    if lines == [] then [[]]
    else
      var p := Pieces(lines[..|lines| - 1]);
      var x := lines[|lines| - 1];
      if IsSeparator(x) then p + [[]] else p[..|p| - 1] + [p[|p| - 1] + [x]]
  }

  /** The pieces that hold at least one line, in order. */
  ghost function NonEmpty(ps: seq<seq<string>>): (r: seq<seq<string>>)
    ensures forall k :: 0 <= k < |r| ==> r[k] != []
  {
    if ps == [] then []
    else NonEmpty(ps[..|ps| - 1]) + (if ps[|ps| - 1] == [] then [] else [ps[|ps| - 1]])
  }

  /** The set of the lines of each piece. */
  ghost function SetsOf(ps: seq<seq<string>>): (r: seq<set<string>>)
    ensures |r| == |ps| && forall k :: 0 <= k < |ps| ==> r[k] == Elems(ps[k])
  {
    if ps == [] then [] else SetsOf(ps[..|ps| - 1]) + [Elems(ps[|ps| - 1])]
  }

  /** One line of `read_sets`: a separator closes the open set if it is
      not empty, any other line joins it. */
  method ReadOne(setVec: seq<set<string>>, lines: seq<string>, k: nat) returns (r: seq<set<string>>)
    requires k < |lines| && ReadState(setVec, Pieces(lines[..k])) && Covers(setVec, lines, k)
    ensures ReadState(r, Pieces(lines[..k + 1])) && Covers(r, lines, k + 1)
  {
    assert lines[..k + 1][..k] == lines[..k];
    var line := lines[k];
    ghost var p := Pieces(lines[..k]);
    var n := |setVec|;
    r := setVec;
    if IsSeparator(line) {
      ReadSeparator(setVec, p);
      CoversSeparator(setVec, lines, k);
      if setVec[n - 1] != {} {
        r := setVec + [{}];
      }
    } else {
      ReadLine(setVec, p, line);
      CoversLine(setVec, lines, k);
      r := setVec[..n - 1] + [setVec[n - 1] + {line}];
    }
  }

  /** `read_sets`: every maximal block of consecutive lines that are not
      separators becomes one set, in file order; a run of separators opens
      no extra set and the trailing empty set is dropped. */
  method ReadSets(lines: seq<string>) returns (sets: seq<set<string>>)
    ensures sets == SetsOf(NonEmpty(Pieces(lines)))
    ensures forall k :: 0 <= k < |sets| ==> sets[k] != {}
    ensures forall x :: x in Union(sets) <==> exists k :: 0 <= k < |lines| && !IsSeparator(lines[k]) && lines[k] == x
  {
    var setVec: seq<set<string>> := [{}];
    assert Elems<string>([]) == {};
    assert lines[..0] == [];
    for k := 0 to |lines|
      invariant ReadState(setVec, Pieces(lines[..k]))
      invariant Covers(setVec, lines, k)
    {
      setVec := ReadOne(setVec, lines, k);
    }
    assert lines[..|lines|] == lines;
    FinishState(setVec, Pieces(lines));
    if setVec[|setVec| - 1] == {} {
      setVec := setVec[..|setVec| - 1];
    }
    sets := setVec;
    SetsOfNonEmpty(NonEmpty(Pieces(lines)));
  }

  /** Dropping the open group when it stayed empty gives the groups of the
      pieces, and does not change the union. */
  lemma {:induction false} FinishState(setVec: seq<set<string>>, p: seq<seq<string>>)
    requires |p| >= 1 && ReadState(setVec, p)
    ensures var r := if setVec[|setVec| - 1] == {} then setVec[..|setVec| - 1] else setVec;
            r == SetsOf(NonEmpty(p)) && Union(r) == Union(setVec)
  {
    var n := |setVec|;
    var init := p[..|p| - 1];
    var last := p[|p| - 1];
    var done := SetsOf(NonEmpty(init));
    assert setVec[..n - 1] == done;
    assert Union(setVec) == Union(setVec[..n - 1]) + setVec[n - 1];
    ElemsEmpty(last);
    if setVec[n - 1] == {} {
      assert p == init + [[]];
      NonEmptySnocEmpty(init);
    } else {
      assert last != [];
      assert p == init + [last];
      var ne := NonEmpty(init);
      assert NonEmpty(p) == ne + [last];
      assert (ne + [last])[..|ne|] == ne;
      assert SetsOf(ne + [last]) == done + [Elems(last)];
    }
  }

  lemma {:induction false} ElemsEmpty(s: seq<string>)
    ensures Elems(s) == {} <==> s == []
  {
    if s != [] {
      assert s[0] in Elems(s);
    }
  }

  lemma {:induction false} SetsOfNonEmpty(ps: seq<seq<string>>)
    requires forall k :: 0 <= k < |ps| ==> ps[k] != []
    ensures forall k :: 0 <= k < |ps| ==> SetsOf(ps)[k] != {}
  {
    forall k | 0 <= k < |ps|
      ensures SetsOf(ps)[k] != {}
    {
      assert ps[k][0] in Elems(ps[k]);
    }
  }

  /** The union of the sets built so far holds exactly the lines before
      `k` that are not separators. */
  ghost predicate Covers(setVec: seq<set<string>>, lines: seq<string>, k: nat)
    requires k <= |lines|
  {
    forall x :: x in Union(setVec) <==> exists j :: 0 <= j < k && !IsSeparator(lines[j]) && lines[j] == x
  }

  lemma {:induction false} CoversSeparator(setVec: seq<set<string>>, lines: seq<string>, k: nat)
    requires k < |lines| && IsSeparator(lines[k]) && setVec != [] && Covers(setVec, lines, k)
    ensures Covers(setVec + [{}], lines, k + 1) && Covers(setVec, lines, k + 1)
  {
    assert (setVec + [{}])[..|setVec|] == setVec;
  }

  lemma {:induction false} CoversLine(setVec: seq<set<string>>, lines: seq<string>, k: nat)
    requires k < |lines| && !IsSeparator(lines[k]) && setVec != [] && Covers(setVec, lines, k)
    ensures Covers(setVec[..|setVec| - 1] + [setVec[|setVec| - 1] + {lines[k]}], lines, k + 1)
  {
    var n := |setVec|;
    var t := setVec[..n - 1] + [setVec[n - 1] + {lines[k]}];
    assert t[..n - 1] == setVec[..n - 1];
    assert Union(setVec) == Union(setVec[..n - 1]) + setVec[n - 1];
    assert Union(t) == Union(setVec) + {lines[k]};
  }

  /** The loop state of `read_sets`: the finished non-empty groups, then
      the set being filled. */
  ghost predicate ReadState(setVec: seq<set<string>>, p: seq<seq<string>>)
    requires |p| >= 1
  {
    setVec == SetsOf(NonEmpty(p[..|p| - 1])) + [Elems(p[|p| - 1])]
  }

  /** A separator closes a non-empty group and leaves an empty one open. */
  lemma {:induction false} ReadSeparator(setVec: seq<set<string>>, p: seq<seq<string>>)
    requires |p| >= 1 && ReadState(setVec, p)
    ensures ReadState(if setVec[|setVec| - 1] != {} then setVec + [{}] else setVec, p + [[]])
  {
    var q := p + [[]];
    assert q[..|q| - 1] == p;
    assert Elems<string>([]) == {};
    var init := p[..|p| - 1];
    var last := p[|p| - 1];
    assert p == init + [last];
    if last == [] {
      NonEmptySnocEmpty(init);
    } else {
      assert Elems(last) != {} by {
        assert last[0] in Elems(last);
      }
      assert NonEmpty(p) == NonEmpty(init) + [last];
    }
  }

  /** A line that is not a separator joins the open group. */
  lemma {:induction false} ReadLine(setVec: seq<set<string>>, p: seq<seq<string>>, x: string)
    requires |p| >= 1 && ReadState(setVec, p)
    ensures ReadState(setVec[..|setVec| - 1] + [setVec[|setVec| - 1] + {x}], p[..|p| - 1] + [p[|p| - 1] + [x]])
  {
    var q := p[..|p| - 1] + [p[|p| - 1] + [x]];
    assert q[..|q| - 1] == p[..|p| - 1];
    assert Elems(p[|p| - 1] + [x]) == Elems(p[|p| - 1]) + {x};
  }

  lemma {:induction false} NonEmptySnocEmpty(p: seq<seq<string>>)
    ensures NonEmpty(p + [[]]) == NonEmpty(p)
  {
    assert (p + [[]])[..|p|] == p;
  }

  // ---------------------------------------------------------------------
  // compare_sets

  datatype SetComp = SetComp(min: nat, totalElements: nat, inBoth: nat)

  /** `compare_sets`: the smaller size, the size of the union and the size
      of the intersection. */
  function CompareSets(a: set<string>, b: set<string>): (r: SetComp)
    ensures r.inBoth <= r.min <= r.totalElements
    ensures r.min == |a| || r.min == |b|
    ensures r.min <= |a| && r.min <= |b|
    ensures r.totalElements + r.inBoth == |a| + |b|
    ensures r.inBoth == r.totalElements <==> a == b
  {
    UnionInterCard(a, b);
    SetComp(if |a| <= |b| then |a| else |b|, |a + b|, |a * b|)
  }

  lemma {:induction false} UnionInterCard(a: set<string>, b: set<string>)
    ensures |a * b| <= |a| <= |a + b| && |a * b| <= |b| <= |a + b|
    ensures |a * b| == |a + b| <==> a == b
  {
    var u := a + b;
    var i := a * b;
    SubsetCard(i, a);
    SubsetCard(i, b);
    SubsetCard(a, u);
    SubsetCard(b, u);
    if a == b {
      assert i == a && u == a;
    }
    if |i| == |u| {
      SubsetEqual(i, u);
      assert a <= i && b <= i;
    }
  }

  /** A subset as large as its superset is the superset. */
  lemma {:induction false} SubsetEqual(a: set<string>, b: set<string>)
    requires a <= b && |a| == |b|
    ensures a == b
  {
    assert |b - a| == |b| - |a|;
  }

  lemma {:induction false} CompareSetsSymmetric(a: set<string>, b: set<string>)
    ensures CompareSets(a, b) == CompareSets(b, a)
  {
    assert a + b == b + a && a * b == b * a;
  }

  // ---------------------------------------------------------------------
  // compare_groups

  /** `retain` with the sets of `sets` cut down to `common`, then the empty
      ones dropped, keeping the order. */
  function RestrictTo(sets: seq<set<string>>, common: set<string>): (r: seq<set<string>>)
    ensures forall k :: 0 <= k < |r| ==> r[k] != {} && r[k] <= common
    ensures Union(r) == Union(sets) * common
    ensures |r| <= |sets|
  {
    if sets == [] then []
    else
      var init := RestrictTo(sets[..|sets| - 1], common);
      var last := sets[|sets| - 1] * common;
      var r := init + (if last == {} then [] else [last]);
      RestrictStep(sets, common, init, last, r);
      r
  }

  /** The last set, cut down and kept when not empty, extends the result
      for the sets before it. */
  lemma {:induction false} RestrictStep(sets: seq<set<string>>, common: set<string>, init: seq<set<string>>,
                                        last: set<string>, r: seq<set<string>>)
    requires sets != [] && last == sets[|sets| - 1] * common
    requires r == init + (if last == {} then [] else [last])
    requires forall k :: 0 <= k < |init| ==> init[k] != {} && init[k] <= common
    requires Union(init) == Union(sets[..|sets| - 1]) * common && |init| <= |sets| - 1
    ensures forall k :: 0 <= k < |r| ==> r[k] != {} && r[k] <= common
    ensures Union(r) == Union(sets) * common && |r| <= |sets|
  {
    UnionAppend(init, if last == {} then [] else [last]);
    if last != {} {
      assert Union([last]) == Union([last][..0]) + last;
    }
  }

  /** The `common_only` step: both sides cut down to the elements that
      occur on both sides. */
  method CommonOnly(aSets: seq<set<string>>, bSets: seq<set<string>>) returns (a: seq<set<string>>, b: seq<set<string>>)
    ensures forall k :: 0 <= k < |a| ==> a[k] != {} && a[k] <= Union(aSets) * Union(bSets)
    ensures forall k :: 0 <= k < |b| ==> b[k] != {} && b[k] <= Union(aSets) * Union(bSets)
    ensures Union(a) == Union(aSets) * Union(bSets) && Union(b) == Union(aSets) * Union(bSets)
    ensures a == RestrictTo(aSets, Union(aSets) * Union(bSets)) && b == RestrictTo(bSets, Union(aSets) * Union(bSets))
  {
    var inBoth := Union(aSets) * Union(bSets);
    a := RestrictTo(aSets, inBoth);
    b := RestrictTo(bSets, inBoth);
    assert Union(aSets) * inBoth == inBoth;
    assert Union(bSets) * inBoth == inBoth;
  }

  /** `retain(|list| list.len() >= threshold)`. */
  function AtLeast(sets: seq<set<string>>, threshold: nat): (r: seq<set<string>>)
    ensures forall k :: 0 <= k < |r| ==> |r[k]| >= threshold
    ensures forall s :: s in r <==> s in sets && |s| >= threshold
    ensures multiset(r) <= multiset(sets)
  {
    if sets == [] then []
    else
      var init := sets[..|sets| - 1];
      var last := sets[|sets| - 1];
      assert sets == init + [last];
      AtLeast(init, threshold) + (if |last| >= threshold then [last] else [])
  }

  function Size(s: set<string>): int
  {
    |s|
  }

  datatype Overlap = Overlap(maxInBoth: nat, sizeSelf: nat)

  /** The loop of `output_group_size` for one set `a`: the largest
      intersection of `a` with a set of the other side. */
  method MaxOverlap(a: set<string>, bSets: seq<set<string>>) returns (o: Overlap)
    ensures o.sizeSelf == |a|
    ensures o.maxInBoth <= o.sizeSelf
    ensures forall k :: 0 <= k < |bSets| ==> |a * bSets[k]| <= o.maxInBoth
    ensures o.maxInBoth == 0 || exists k :: 0 <= k < |bSets| && |a * bSets[k]| == o.maxInBoth
  {
    var max := 0;
    for k := 0 to |bSets|
      invariant max <= |a|
      invariant forall j :: 0 <= j < k ==> |a * bSets[j]| <= max
      invariant max == 0 || exists j :: 0 <= j < k && |a * bSets[j]| == max
    {
      var count := |a * bSets[k]|;
      SubsetCard(a * bSets[k], a);
      if count > max {
        max := count;
      }
    }
    o := Overlap(max, |a|);
  }

  /** The sets of one side that `compare_groups` keeps: cut down to
      `common` under `common_only`, then those below the threshold dropped. */
  ghost function FilteredSide(sets: seq<set<string>>, common: set<string>, commonOnly: bool,
                              removeSmaller: Option<nat>): seq<set<string>>
  {
    var c := if commonOnly then RestrictTo(sets, common) else sets;
    if removeSmaller.Some? then AtLeast(c, removeSmaller.value) else c
  }

  /** The filtering steps of `compare_groups`: optionally cut both sides
      down to the common elements, then optionally drop the sets below the
      threshold. */
  method FilterGroups(aSets: seq<set<string>>, bSets: seq<set<string>>, commonOnly: bool, removeSmaller: Option<nat>)
    returns (a: seq<set<string>>, b: seq<set<string>>)
    ensures a == FilteredSide(aSets, Union(aSets) * Union(bSets), commonOnly, removeSmaller)
    ensures b == FilteredSide(bSets, Union(aSets) * Union(bSets), commonOnly, removeSmaller)
    ensures commonOnly ==> forall s :: s in a + b ==> s != {} && s <= Union(aSets) * Union(bSets)
    ensures removeSmaller.Some? ==> forall s :: s in a + b ==> |s| >= removeSmaller.value
    ensures !commonOnly && removeSmaller.None? ==> a == aSets && b == bSets
    ensures !commonOnly ==> multiset(a) <= multiset(aSets) && multiset(b) <= multiset(bSets)
  {
    a, b := aSets, bSets;
    if commonOnly {
      a, b := CommonOnly(a, b);
    }
    if removeSmaller.Some? {
      a := AtLeast(a, removeSmaller.value);
      b := AtLeast(b, removeSmaller.value);
    }
  }

  /** The `output_group_size` loop: the best overlap of every set of the
      first side. */
  method BestOverlaps(a: seq<set<string>>, b: seq<set<string>>) returns (overlaps: seq<Overlap>)
    ensures |overlaps| == |a|
    ensures forall k :: 0 <= k < |a| ==> overlaps[k].sizeSelf == |a[k]| && overlaps[k].maxInBoth <= overlaps[k].sizeSelf
    ensures forall k, j :: 0 <= k < |a| && 0 <= j < |b| ==> |a[k] * b[j]| <= overlaps[k].maxInBoth
    ensures forall k :: 0 <= k < |a| ==> IsOverlapOf(a[k], b, overlaps[k].maxInBoth)
  {
    overlaps := [];
    for k := 0 to |a|
      invariant |overlaps| == k
      invariant forall i :: 0 <= i < k ==> overlaps[i].sizeSelf == |a[i]| && overlaps[i].maxInBoth <= overlaps[i].sizeSelf
      invariant forall i, j :: 0 <= i < k && 0 <= j < |b| ==> |a[i] * b[j]| <= overlaps[i].maxInBoth
      invariant forall i :: 0 <= i < k ==> IsOverlapOf(a[i], b, overlaps[i].maxInBoth)
    {
      var o := MaxOverlap(a[k], b);
      if |b| > 0 && o.maxInBoth == 0 {
        assert |a[k] * b[0]| == o.maxInBoth;
      }
      overlaps := overlaps + [o];
    }
  }

  /** `m` is the size of the intersection of `x` with some set of `b`, or
      0 when `b` has no sets. */
  ghost predicate IsOverlapOf(x: set<string>, b: seq<set<string>>, m: nat)
  {
    (|b| == 0 && m == 0) || exists j :: 0 <= j < |b| && m == |x * b[j]|
  }

  /** The set logic of `compare_groups`: filter, compare the unions, sort
      both sides by ascending size (stably) and find for every set of the
      first side its best overlap. */
  method CompareGroups(aSets: seq<set<string>>, bSets: seq<set<string>>, commonOnly: bool, removeSmaller: Option<nat>)
    returns (a: seq<set<string>>, b: seq<set<string>>, comp: SetComp, overlaps: seq<Overlap>)
    ensures commonOnly ==> forall s :: s in a + b ==> s != {} && s <= Union(aSets) * Union(bSets)
    ensures removeSmaller.Some? ==> forall s :: s in a + b ==> |s| >= removeSmaller.value
    ensures !commonOnly && removeSmaller.None? ==> multiset(a) == multiset(aSets) && multiset(b) == multiset(bSets)
    ensures SortedBy(a, Size) && SortedBy(b, Size)
    ensures comp == CompareSets(Union(a), Union(b))
    ensures |overlaps| == |a|
    ensures forall k :: 0 <= k < |a| ==> overlaps[k].sizeSelf == |a[k]| && overlaps[k].maxInBoth <= overlaps[k].sizeSelf
    ensures forall k, j :: 0 <= k < |a| && 0 <= j < |b| ==> |a[k] * b[j]| <= overlaps[k].maxInBoth
    ensures forall k :: 0 <= k < |a| ==> IsOverlapOf(a[k], b, overlaps[k].maxInBoth)
    ensures multiset(a) == multiset(FilteredSide(aSets, Union(aSets) * Union(bSets), commonOnly, removeSmaller))
    ensures multiset(b) == multiset(FilteredSide(bSets, Union(aSets) * Union(bSets), commonOnly, removeSmaller))
  {
    var a0, b0 := FilterGroups(aSets, bSets, commonOnly, removeSmaller);
    comp := CompareSets(Union(a0), Union(b0));
    a := SortByKey(a0, Size);
    b := SortByKey(b0, Size);
    MultisetUnion(a0, a);
    MultisetUnion(b0, b);
    SameMembers(a0, b0, a, b);
    overlaps := BestOverlaps(a, b);
  }

  lemma {:induction false} SameMembers(a0: seq<set<string>>, b0: seq<set<string>>, a: seq<set<string>>, b: seq<set<string>>)
    requires multiset(a0) == multiset(a) && multiset(b0) == multiset(b)
    ensures forall s :: s in a + b <==> s in a0 + b0
  {
    forall s
      ensures s in a + b <==> s in a0 + b0
    {
      assert s in a <==> s in multiset(a);
      assert s in b <==> s in multiset(b);
      assert s in a0 <==> s in multiset(a0);
      assert s in b0 <==> s in multiset(b0);
    }
  }

  /** The union of a sequence of sets depends only on its multiset. */
  lemma {:induction false} MultisetUnion(s: seq<set<string>>, t: seq<set<string>>)
    requires multiset(s) == multiset(t)
    ensures Union(s) == Union(t)
  {
    forall x | x in Union(s) ensures x in Union(t) {
      var k := UnionMember(s, x);
      assert s[k] in multiset(t);
      var j :| 0 <= j < |t| && t[j] == s[k];
      UnionHas(t, j, x);
    }
    forall x | x in Union(t) ensures x in Union(s) {
      var k := UnionMember(t, x);
      assert t[k] in multiset(s);
      var j :| 0 <= j < |s| && s[j] == t[k];
      UnionHas(s, j, x);
    }
  }
}
