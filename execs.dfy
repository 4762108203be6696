/** Smaller pieces of `src/network/main_execs/execs.rs`: the direction check
    before writing, the degree bins of `degree_dists_helper` and the
    intersection matrix of `out_comparison`. */
module Execs {
  import opened Common
  import opened Graph
  import opened DirectedNetwork
  import opened HelperStructs
  import opened Reachability

  /** The `Debug` text of a direction. */
  function DirectionName(d: Direction): string
  {
    match d
    case ExportTo => "ExportTo"
    case ImportFrom => "ImportFrom"
  }

  /** Neighbouring networks share their direction: what `windows(2).all`
      checks. */
  predicate NeighboursAgree(ns: seq<Network>)
  {
    forall k :: 0 <= k < |ns| - 1 ==> ns[k].direction == ns[k + 1].direction
  }

  /** Agreeing neighbours make one shared direction. */
  lemma {:induction false} NeighboursAll(ns: seq<Network>)
    requires NeighboursAgree(ns) && ns != []
    ensures forall k :: 0 <= k < |ns| ==> ns[k].direction == ns[0].direction
  {
    if |ns| > 1 {
      var t := ns[..|ns| - 1];
      assert NeighboursAgree(t) by {
        forall k | 0 <= k < |t| - 1
          ensures t[k].direction == t[k + 1].direction
        {
          assert t[k] == ns[k] && t[k + 1] == ns[k + 1];
        }
      }
      NeighboursAll(t);
      assert ns[|ns| - 2] == t[|t| - 1];
      assert forall k :: 0 <= k < |t| ==> ns[k] == t[k];
    }
  }

  /** `assert_same_direction_write_direction`: the line it writes. The
      `assert!` fails when two networks differ in direction, and indexing
      the first network fails on an empty slice. */
  function DirectionLine(ns: seq<Network>): (r: Result<string>)
    ensures r.Ok? <==> ns != [] && forall k :: 0 <= k < |ns| ==> ns[k].direction == ns[0].direction
    ensures r.Ok? ==> r.value == "#Direction " + DirectionName(ns[0].direction)
  {
    if !NeighboursAgree(ns) then
      Abort("assertion failed: networks.windows(2).all(|slice| slice[0].direction == slice[1].direction)")
    else if ns == [] then
      Abort("index out of bounds: the len is 0 but the index is 0")
    else
      NeighboursAll(ns);
      Ok("#Direction " + DirectionName(ns[0].direction))
  }

  /** The degrees of every node of every network, network by network. */
  function Degrees(ns: seq<Network>): (r: seq<nat>)
    ensures r == [] <==> forall k :: 0 <= k < |ns| ==> ns[k].nodes == []
    ensures forall k, i :: 0 <= k < |ns| && 0 <= i < |ns[k].nodes| ==> |ns[k].nodes[i].adj| in r
    ensures forall d :: d in r ==> exists k, i :: 0 <= k < |ns| && 0 <= i < |ns[k].nodes| && d == |ns[k].nodes[i].adj|
  {
    if ns == [] then []
    else
      var last := ns[|ns| - 1].nodes;
      var ds := seq(|last|, i requires 0 <= i < |last| => |last[i].adj|);
      assert forall i :: 0 <= i < |last| ==> ds[i] == |last[i].adj|;
      assert forall k :: 0 <= k < |ns| - 1 ==> ns[..|ns| - 1][k] == ns[k];
      Degrees(ns[..|ns| - 1]) + ds
  }

  /** `iter().max()`: `None` for no element, otherwise the largest one. */
  function Max(s: seq<nat>): (r: Option<nat>)
    ensures r.None? <==> s == []
    ensures r.Some? ==> r.value in s && forall x :: x in s ==> x <= r.value
  {
    if s == [] then None
    else match Max(s[..|s| - 1])
      case None => Some(s[|s| - 1])
      case Some(m) =>
        assert s == s[..|s| - 1] + [s[|s| - 1]];
        Some(if s[|s| - 1] > m then s[|s| - 1] else m)
  }

  /** `max_degree`: the largest degree of any node of any network; `unwrap`
      fails when there is no node at all. */
  function MaxDegree(ns: seq<Network>): (r: Result<nat>)
    ensures r.Abort? <==> forall k :: 0 <= k < |ns| ==> ns[k].nodes == []
    ensures r.Ok? ==> forall k, i :: 0 <= k < |ns| && 0 <= i < |ns[k].nodes| ==> |ns[k].nodes[i].adj| <= r.value
    ensures r.Ok? ==> exists k, i :: 0 <= k < |ns| && 0 <= i < |ns[k].nodes| && |ns[k].nodes[i].adj| == r.value
  {
    var ds := Degrees(ns);
    match Max(ds)
    case None =>
      Abort("called `Option::unwrap()` on a `None` value")
    case Some(m) =>
      assert m in ds;
      Ok(m)
  }

  /** `usize::next_multiple_of(2)`, without overflow. */
  function NextMultipleOf2(x: nat): (r: nat)
    ensures r % 2 == 0 && x <= r <= x + 1
  {
    if x % 2 == 0 then x else x + 1
  }

  /** `mul` and the bin count of the degree histogram of
      `degree_dists_helper`. */
  function DegreeBins(maxDegree: nat): (r: (nat, nat))
    ensures r.0 % 2 == 1
    ensures maxDegree <= r.0 <= maxDegree + 1
    ensures 2 * r.1 == r.0 + 1
  {
    var mul := NextMultipleOf2(maxDegree + 1) - 1;
    (mul, (mul + 1) / 2)
  }

  /** Every degree `d` up to `mul` falls in bin `d / 2` of the histogram of
      `0 ..= mul` with `(mul + 1) / 2` bins of width two, and the largest
      degree falls in the last bin. */
  lemma {:induction false} DegreeBinIndex(maxDegree: nat, d: nat)
    requires d <= maxDegree
    ensures d <= DegreeBins(maxDegree).0 && d / 2 < DegreeBins(maxDegree).1
    ensures maxDegree / 2 == DegreeBins(maxDegree).1 - 1
  {
  }

  /** The search of `out_comparison` for the network of `year`; `expect`
      fails when there is none. */
  method FindYear(ns: seq<Network>, year: int) returns (r: Result<Network>)
    ensures r.Abort? <==> forall k :: 0 <= k < |ns| ==> ns[k].year != year
    ensures r.Ok? ==> exists k :: 0 <= k < |ns| && ns[k] == r.value && forall j :: 0 <= j < k ==> ns[j].year != year
    ensures r.Ok? ==> r.value.year == year
  {
    for k := 0 to |ns|
      invariant forall j :: 0 <= j < k ==> ns[j].year != year
    {
      if ns[k].year == year {
        return Ok(ns[k]);
      }
    }
    r := Abort("could not find specified year");
  }

  /** The out-components, self included, of the first `top` nodes of
      `ordering`; slicing fails when `top` exceeds the ordering. */
  method OutSets(net: Network, ordering: seq<nat>, top: nat) returns (r: Result<seq<set<nat>>>)
    requires ValidNodes(net.nodes)
    requires forall k :: 0 <= k < |ordering| ==> ordering[k] < |net.nodes|
    ensures r.Abort? <==> top > |ordering|
    ensures r.Ok? ==> |r.value| == top
    ensures r.Ok? ==> forall k, v :: 0 <= k < top && v in r.value[k] ==> v < |net.nodes| && Reachable(net.nodes, ordering[k], v)
    ensures r.Ok? ==> forall k, v: nat :: 0 <= k < top && v < |net.nodes| && Reachable(net.nodes, ordering[k], v) ==> v in r.value[k]
  {
    if top > |ordering| {
      return Abort("range end index out of range for slice");
    }
    var sets := [];
    for k := 0 to top
      invariant |sets| == k
      invariant forall j, v :: 0 <= j < k && v in sets[j] ==> v < |net.nodes| && Reachable(net.nodes, ordering[j], v)
      invariant forall j, v: nat :: 0 <= j < k && v < |net.nodes| && Reachable(net.nodes, ordering[j], v) ==> v in sets[j]
    {
      var comp := OutComponent(net, ordering[k], IncludingSelf);
      var members := set v | v in comp;
      sets := sets + [members];
    }
    r := Ok(sets);
  }

  /** `matrix`: entry `(i, j)` counts the nodes both sets hold. */
  function IntersectionMatrix(sets: seq<set<nat>>): (m: seq<seq<nat>>)
    ensures |m| == |sets| && forall i :: 0 <= i < |m| ==> |m[i]| == |sets|
    ensures forall i, j :: 0 <= i < |sets| && 0 <= j < |sets| ==> m[i][j] == |sets[i] * sets[j]|
    ensures forall i, j :: 0 <= i < |sets| && 0 <= j < |sets| ==> m[i][j] == m[j][i]
    ensures forall i :: 0 <= i < |sets| ==> m[i][i] == |sets[i]|
    ensures forall i, j :: 0 <= i < |sets| && 0 <= j < |sets| ==> m[i][j] <= |sets[i]| && m[i][j] <= |sets[j]|
  {
    var m := seq(|sets|, i requires 0 <= i < |sets| =>
      seq(|sets|, j requires 0 <= j < |sets| => |sets[i] * sets[j]|));
    forall i, j | 0 <= i < |sets| && 0 <= j < |sets|
      ensures m[i][j] <= |sets[i]| && m[i][j] <= |sets[j]|
    {
      SubsetCard(sets[i] * sets[j], sets[i]);
      SubsetCard(sets[i] * sets[j], sets[j]);
    }
    assert forall i :: 0 <= i < |sets| ==> sets[i] * sets[i] == sets[i];
    assert forall i, j :: 0 <= i < |sets| && 0 <= j < |sets| ==> sets[i] * sets[j] == sets[j] * sets[i];
    m
  }
}
