/** The vocabulary of the conversion in `src/network/enriched_digraph.rs`:
    extra entries, the node and network shapes before and after, and what a
    header, an aligned node and a converted network are. */
module EnrichedColumns {
  import opened Common
  import opened Graph

  /** `Extra`. */
  datatype Extra = Extra(unit: string, amount: real)

  /** `EnrichedNodeHelper`, holding the contents of its `ExtraInfo`. */
  datatype NodeHelper = NodeHelper(identifier: string, extra: map<nat, Extra>, adj: seq<Edge>)

  /** `EnrichedNode`. */
  datatype EnrichedNode = EnrichedNode(identifier: string, extra: seq<real>, adj: seq<Edge>)

  /** `EnrichedDigraph`. */
  datatype Digraph = Digraph(units: seq<string>, extraHeader: seq<nat>, nodes: seq<EnrichedNode>)

  /** The header of the conversion: the entry ids of `m` ascending, the way
      a `BTreeMap` iterates, with their units. */
  ghost predicate IsHeader(m: map<nat, Extra>, header: seq<nat>, units: seq<string>)
  {
    StrictlyIncreasing(header) && (forall x :: x in header <==> x in m) &&
    |units| == |header| && forall k :: 0 <= k < |header| ==> header[k] in m && units[k] == m[header[k]].unit
  }

  /** The loop state of collecting the header: the ids taken so far are
      ascending and below every one still to take. */
  ghost predicate HeaderState(m: map<nat, Extra>, rest: set<nat>, header: seq<nat>, units: seq<string>)
  {
    rest <= m.Keys &&
    (forall x :: x in m <==> x in header || x in rest) &&
    StrictlyIncreasing(header) &&
    (forall k, y :: 0 <= k < |header| && y in rest ==> header[k] < y) &&
    |units| == |header| && forall k :: 0 <= k < |header| ==> header[k] in m && units[k] == m[header[k]].unit
  }

  /** Taking the smallest remaining id keeps the loop state. */
  lemma {:induction false} HeaderStep(m: map<nat, Extra>, rest: set<nat>, header: seq<nat>, units: seq<string>, x: nat)
    requires HeaderState(m, rest, header, units)
    requires x in rest && forall y :: y in rest ==> x <= y
    ensures HeaderState(m, rest - {x}, header + [x], units + [m[x].unit])
  {
    var header' := header + [x];
    forall i, j | 0 <= i < j < |header'|
      ensures header'[i] < header'[j]
    {
      if j == |header| {
        assert header'[i] == header[i];
      }
    }
    forall k, y | 0 <= k < |header'| && y in rest - {x}
      ensures header'[k] < y
    {
      if k == |header| {
        assert x <= y;
      }
    }
  }

  /** The converted node: identifier and edges kept, amounts in header
      order. */
  ghost predicate NodeConverted(n: NodeHelper, e: EnrichedNode, header: seq<nat>)
  {
    e.identifier == n.identifier && e.adj == n.adj && |e.extra| == |header| &&
    forall k :: 0 <= k < |header| ==> header[k] in n.extra && e.extra[k] == n.extra[header[k]].amount
  }

  /** The result of the conversion: the header lists the first node's entry
      ids ascending with their units, and every node is converted against
      it. */
  ghost predicate Converted(nodes: seq<NodeHelper>, d: Digraph)
  {
    nodes != [] && IsHeader(nodes[0].extra, d.extraHeader, d.units) &&
    |d.nodes| == |nodes| &&
    forall i :: 0 <= i < |nodes| ==> NodeConverted(nodes[i], d.nodes[i], d.extraHeader)
  }

  /** A node's table has the entry ids of the first node's table, with the
      same units. */
  ghost predicate SameColumns(first: map<nat, Extra>, other: map<nat, Extra>)
  {
    |other| == |first| && forall id :: id in first ==> id in other && other[id].unit == first[id].unit
  }

  /** What the `assert_eq!`s and the `expect` of the conversion demand of one
      node against the header. */
  ghost predicate Aligned(n: NodeHelper, header: seq<nat>, units: seq<string>)
  {
    |n.extra| == |units| &&
    forall k :: 0 <= k < |header| ==> header[k] in n.extra && k < |units| && n.extra[header[k]].unit == units[k]
  }

  /** A header listing the first table's ids in ascending order demands of
      a node exactly the first table's ids and units. */
  lemma {:induction false} AlignedIff(first: map<nat, Extra>, n: NodeHelper, header: seq<nat>, units: seq<string>)
    requires IsHeader(first, header, units)
    ensures Aligned(n, header, units) <==> SameColumns(first, n.extra)
  {
    assert Distinct(header);
    DistinctCard(header);
    assert Elems(header) == first.Keys;
    if SameColumns(first, n.extra) {
      forall k | 0 <= k < |header|
        ensures header[k] in n.extra && n.extra[header[k]].unit == units[k]
      {
        assert header[k] in first;
      }
    }
    if Aligned(n, header, units) {
      forall id | id in first
        ensures id in n.extra && n.extra[id].unit == first[id].unit
      {
        var k :| 0 <= k < |header| && header[k] == id;
      }
    }
  }

  /** Every node of a converted network has the entry ids of the first
      node. */
  lemma {:induction false} SameColumnsKeys(first: map<nat, Extra>, other: map<nat, Extra>)
    requires SameColumns(first, other)
    ensures other.Keys == first.Keys
  {
    var diff := other.Keys - first.Keys;
    assert other.Keys == first.Keys + diff;
    assert first.Keys * diff == {};
    assert |diff| == 0;
  }
}
