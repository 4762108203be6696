/** `src/network/directed_network.rs`: a trade network of one year whose
    edges point either from exporter to importer or the other way round. */
module DirectedNetwork {
  import opened Common
  import opened Graph

  datatype Direction = ExportTo | ImportFrom

  /** `Direction::invert`: the other direction. Applying it twice gives the
      direction back. */
  function InvertDirection(d: Direction): (r: Direction)
    ensures r != d
  {
    match d
    case ExportTo => ImportFrom
    case ImportFrom => ExportTo
  }

  lemma {:induction false} InvertDirectionInvolution(d: Direction)
    ensures InvertDirection(InvertDirection(d)) == d
  {
  }

  datatype Network = Network(direction: Direction, nodes: seq<Node>, year: int)

  function NodeCount(net: Network): nat
  {
    |net.nodes|
  }

  /** `invert`: every edge turned round, the direction flipped, the year
      kept. */
  method Invert(net: Network) returns (r: Network)
    requires ValidNodes(net.nodes)
    ensures r == Network(InvertDirection(net.direction), InvertedNodes(net.nodes), net.year)
    ensures NodeCount(r) == NodeCount(net) && EdgeCount(r.nodes) == EdgeCount(net.nodes)
    ensures ValidNodes(r.nodes)
  {
    var all := InvertNodes(net.nodes);
    InvertedValid(net.nodes);
    r := Network(InvertDirection(net.direction), all, net.year);
  }

  /** `force_direction`: the network itself when it already has the wanted
      direction, otherwise its inversion. */
  method ForceDirection(net: Network, direction: Direction) returns (r: Network)
    requires ValidNodes(net.nodes)
    ensures r.direction == direction && r.year == net.year
    ensures r == if net.direction == direction then net
                 else Network(direction, InvertedNodes(net.nodes), net.year)
    ensures EdgeCount(r.nodes) == EdgeCount(net.nodes) && ValidNodes(r.nodes)
  {
    r := net;
    if net.direction != direction {
      r := Invert(net);
    }
  }

  /** Node `k` is the target of some edge. */
  ghost predicate IsTarget(nodes: seq<Node>, k: nat)
  {
    exists i, m :: 0 <= i < |nodes| && 0 <= m < |nodes[i].adj| && nodes[i].adj[m].index == k
  }

  /** Node `k` takes part in trade: it has an outgoing edge or is the target
      of one. */
  ghost predicate IsTrading(nodes: seq<Node>, k: nat)
  {
    (k < |nodes| && nodes[k].adj != []) || IsTarget(nodes, k)
  }

  /** Node `i` flags node `k` in `list_of_trading_nodes`. */
  ghost predicate Flags(nodes: seq<Node>, i: nat, k: nat)
    requires i < |nodes|
  {
    nodes[i].adj != [] && (k == i || exists m :: 0 <= m < |nodes[i].adj| && nodes[i].adj[m].index == k)
  }

  /** `list_of_trading_nodes`: the indices, in increasing order, of the nodes
      that have an outgoing edge or are the target of an edge. */
  method ListOfTradingNodes(net: Network) returns (r: seq<nat>)
    requires ValidNodes(net.nodes)
    ensures StrictlyIncreasing(r)
    ensures forall k: nat :: k in r <==> k < |net.nodes| && IsTrading(net.nodes, k)
  {
    var n := |net.nodes|;
    var connected := MarkTrading(net.nodes);
    var all := true;
    var k := 0;
    while k < n
      invariant 0 <= k <= n
      invariant all <==> forall j :: 0 <= j < k ==> connected[j]
    {
      all := all && connected[k];
      k := k + 1;
    }
    r := [];
    k := 0;
    while k < n
      invariant 0 <= k <= n
      invariant StrictlyIncreasing(r)
      invariant forall i :: 0 <= i < |r| ==> r[i] < k
      invariant forall x: nat :: x in r <==> x < k && (all || connected[x])
    {
      if all || connected[k] {
        r := r + [k];
        assert forall i, j :: 0 <= i < j < |r| ==> r[i] < r[j] by {
          forall i, j | 0 <= i < j < |r| ensures r[i] < r[j] {
            if j == |r| - 1 {
              assert r[i] < k;
            }
          }
        }
      }
      k := k + 1;
    }
  }

  /** The `connected` flags of `list_of_trading_nodes`: set exactly for the
      trading nodes. */
  method MarkTrading(nodes: seq<Node>) returns (connected: array<bool>)
    requires ValidNodes(nodes)
    ensures fresh(connected) && connected.Length == |nodes|
    ensures forall k :: 0 <= k < |nodes| ==> (connected[k] <==> IsTrading(nodes, k))
  {
    var n := |nodes|;
    connected := new bool[n](_ => false);
    for index := 0 to n
      invariant forall k :: 0 <= k < n ==> (connected[k] <==> exists i :: 0 <= i < index && Flags(nodes, i, k))
    {
      MarkNode(nodes, index, connected);
    }
    forall k | 0 <= k < n
      ensures connected[k] <==> IsTrading(nodes, k)
    {
      if IsTarget(nodes, k) {
        var i, m :| 0 <= i < |nodes| && 0 <= m < |nodes[i].adj| && nodes[i].adj[m].index == k;
        assert Flags(nodes, i, k);
      }
      if nodes[k].adj != [] {
        assert Flags(nodes, k, k);
      }
      if connected[k] {
        var i :| 0 <= i < n && Flags(nodes, i, k);
        if k != i {
          var m :| 0 <= m < |nodes[i].adj| && nodes[i].adj[m].index == k;
          assert IsTarget(nodes, k);
        }
      }
    }
  }

  /** One node of the loop of `list_of_trading_nodes`: a node with edges flags
      itself and all its targets. */
  method MarkNode(nodes: seq<Node>, index: nat, connected: array<bool>)
    requires ValidNodes(nodes) && index < |nodes| && connected.Length == |nodes|
    requires forall k :: 0 <= k < |nodes| ==> (connected[k] <==> exists i :: 0 <= i < index && Flags(nodes, i, k))
    modifies connected
    ensures forall k :: 0 <= k < |nodes| ==> (connected[k] <==> exists i :: 0 <= i < index + 1 && Flags(nodes, i, k))
  {
    var n := |nodes|;
    var adj := nodes[index].adj;
    if adj != [] {
      connected[index] := true;
      for m := 0 to |adj|
        invariant forall k :: 0 <= k < n ==>
          (connected[k] <==> (exists i :: 0 <= i < index && Flags(nodes, i, k))
                             || k == index || exists m' :: 0 <= m' < m && adj[m'].index == k)
      {
        connected[adj[m].index] := true;
      }
    }
    forall k | 0 <= k < n
      ensures connected[k] <==> exists i :: 0 <= i < index + 1 && Flags(nodes, i, k)
    {
      if connected[k] && !(exists i :: 0 <= i < index && Flags(nodes, i, k)) {
        assert Flags(nodes, index, k);
      }
      if exists i :: 0 <= i < index + 1 && Flags(nodes, i, k) {
        var i :| 0 <= i < index + 1 && Flags(nodes, i, k);
        if i == index {
          if k != index {
            var m :| 0 <= m < |adj| && adj[m].index == k;
            assert adj[m].index == k;
          }
        }
      }
    }
  }

  /** Identifiers (country codes) are pairwise different. */
  ghost predicate UniqueIdentifiers(nodes: seq<Node>)
  {
    forall i, j :: 0 <= i < j < |nodes| ==> nodes[i].identifier != nodes[j].identifier
  }

  /** `new_map` of `filtered_network` after the first `upto` indices: the
      identifier of node `indices[p]` mapped to `p`, a later position
      overwriting an earlier one. */
  function IndexMap(nodes: seq<Node>, indices: seq<nat>, upto: nat): (m: map<string, nat>)
    requires upto <= |indices|
    requires forall p :: 0 <= p < |indices| ==> indices[p] < |nodes|
    ensures forall id :: id in m ==> m[id] < upto
    ensures forall p :: 0 <= p < upto ==> nodes[indices[p]].identifier in m
  {
    if upto == 0 then map[]
    else IndexMap(nodes, indices, upto - 1)[nodes[indices[upto - 1]].identifier := upto - 1]
  }

  /** The edges of `adj` whose target's identifier is kept, retargeted to the
      target's new position. */
  function Remap(nodes: seq<Node>, m: map<string, nat>, adj: seq<Edge>): seq<Edge>
    requires forall k :: 0 <= k < |adj| ==> adj[k].index < |nodes|
  {
    if adj == [] then []
    else
      var e := adj[|adj| - 1];
      var id := nodes[e.index].identifier;
      Remap(nodes, m, adj[..|adj| - 1]) + (if id in m then [Edge(m[id], e.amount)] else [])
  }

  /** The adjacency that new node `j` has collected from old nodes
      `0 .. upto-1`: the remapped edges of every old node whose identifier is
      mapped to `j`. */
  function CollectedAdj(nodes: seq<Node>, m: map<string, nat>, j: nat, upto: nat): seq<Edge>
    requires upto <= |nodes| && ValidNodes(nodes)
  {
    if upto == 0 then []
    else
      var prev := nodes[upto - 1];
      CollectedAdj(nodes, m, j, upto - 1)
      + (if prev.identifier in m && m[prev.identifier] == j then Remap(nodes, m, prev.adj) else [])
  }

  function FilteredNodes(nodes: seq<Node>, indices: seq<nat>): seq<Node>
    requires ValidNodes(nodes)
    requires forall p :: 0 <= p < |indices| ==> indices[p] < |nodes|
  {
    var m := IndexMap(nodes, indices, |indices|);
    seq(|indices|, j requires 0 <= j < |indices| =>
      Node(nodes[indices[j]].identifier, CollectedAdj(nodes, m, j, |nodes|)))
  }

  lemma {:induction false} RemapBounded(nodes: seq<Node>, m: map<string, nat>, adj: seq<Edge>, bound: nat)
    requires forall k :: 0 <= k < |adj| ==> adj[k].index < |nodes|
    requires forall id :: id in m ==> m[id] < bound
    ensures forall e :: e in Remap(nodes, m, adj) ==> e.index < bound
  {
    if adj != [] {
      RemapBounded(nodes, m, adj[..|adj| - 1], bound);
    }
  }

  lemma {:induction false} CollectedBounded(nodes: seq<Node>, m: map<string, nat>, j: nat, upto: nat, bound: nat)
    requires upto <= |nodes| && ValidNodes(nodes)
    requires forall id :: id in m ==> m[id] < bound
    ensures forall e :: e in CollectedAdj(nodes, m, j, upto) ==> e.index < bound
  {
    if upto > 0 {
      CollectedBounded(nodes, m, j, upto - 1, bound);
      RemapBounded(nodes, m, nodes[upto - 1].adj, bound);
    }
  }

  lemma {:induction false} FilteredValid(nodes: seq<Node>, indices: seq<nat>)
    requires ValidNodes(nodes)
    requires forall p :: 0 <= p < |indices| ==> indices[p] < |nodes|
    ensures ValidNodes(FilteredNodes(nodes, indices))
  {
    var m := IndexMap(nodes, indices, |indices|);
    forall j | 0 <= j < |indices|
      ensures forall e :: e in CollectedAdj(nodes, m, j, |nodes|) ==> e.index < |indices|
    {
      CollectedBounded(nodes, m, j, |nodes|, |indices|);
    }
  }

  /** The inner loop of `filtered_network` for one kept old node: its edges
      to kept nodes, retargeted, appended to the adjacency `adj`. */
  method AppendRemapped(nodes: seq<Node>, m: map<string, nat>, oldAdj: seq<Edge>, adj: seq<Edge>)
    returns (r: seq<Edge>)
    requires forall k :: 0 <= k < |oldAdj| ==> oldAdj[k].index < |nodes|
    ensures r == adj + Remap(nodes, m, oldAdj)
  {
    r := adj;
    var k := 0;
    while k < |oldAdj|
      invariant 0 <= k <= |oldAdj|
      invariant r == adj + Remap(nodes, m, oldAdj[..k])
    {
      var edge := oldAdj[k];
      assert oldAdj[..k + 1][..k] == oldAdj[..k];
      var id := nodes[edge.index].identifier;
      if id in m {
        r := r + [Edge(m[id], edge.amount)];
      }
      k := k + 1;
    }
    assert oldAdj[..k] == oldAdj;
  }

  /** `filtered_network`: the sub-network of the nodes at `indices`, in that
      order, keeping the edges between kept nodes with their targets moved to
      the new positions. An index past the last node panics in the first
      loop, before anything is returned. */
  method FilteredNetwork(net: Network, indices: seq<nat>) returns (r: Result<Network>)
    requires ValidNodes(net.nodes)
    ensures r.Abort? <==> exists p :: 0 <= p < |indices| && indices[p] >= |net.nodes|
    ensures r.Ok? ==> forall p :: 0 <= p < |indices| ==> indices[p] < |net.nodes|
    ensures r.Ok? ==> r.value == Network(net.direction, FilteredNodes(net.nodes, indices), net.year)
    ensures r.Ok? ==> |r.value.nodes| == |indices| && ValidNodes(r.value.nodes)
    ensures r.Ok? ==> forall p :: 0 <= p < |indices| ==> r.value.nodes[p].identifier == net.nodes[indices[p]].identifier
  {
    if exists p :: 0 <= p < |indices| && indices[p] >= |net.nodes| {
      return Abort("index out of bounds");
    }
    var nodes, newMap := BlankNodes(net.nodes, indices);
    for i := 0 to |net.nodes|
      invariant Collecting(net.nodes, indices, newMap, i, nodes)
    {
      nodes := CollectNode(net.nodes, indices, newMap, i, nodes);
    }
    FilteredValid(net.nodes, indices);
    CollectingDone(net.nodes, indices, newMap, nodes);
    r := Ok(Network(net.direction, nodes, net.year));
  }

  /** One old node in the second loop of `filtered_network`: when its
      identifier is kept, its remapped edges are appended to its new node. */
  method CollectNode(nodes: seq<Node>, indices: seq<nat>, m: map<string, nat>, i: nat, cur: seq<Node>)
    returns (next: seq<Node>)
    requires ValidNodes(nodes) && i < |nodes|
    requires forall p :: 0 <= p < |indices| ==> indices[p] < |nodes|
    requires m == IndexMap(nodes, indices, |indices|)
    requires Collecting(nodes, indices, m, i, cur)
    ensures Collecting(nodes, indices, m, i + 1, next)
  {
    var oldNode := nodes[i];
    CollectStep(nodes, indices, m, i, cur);
    next := cur;
    if oldNode.identifier in m {
      var thisIdx := m[oldNode.identifier];
      var adj := AppendRemapped(nodes, m, oldNode.adj, cur[thisIdx].adj);
      next := cur[thisIdx := Node(cur[thisIdx].identifier, adj)];
    }
  }

  /** The first loop of `filtered_network`: one node without edges per
      index, and `new_map` from identifiers to new positions. */
  method BlankNodes(nodes: seq<Node>, indices: seq<nat>) returns (blank: seq<Node>, newMap: map<string, nat>)
    requires ValidNodes(nodes)
    requires forall p :: 0 <= p < |indices| ==> indices[p] < |nodes|
    ensures newMap == IndexMap(nodes, indices, |indices|)
    ensures Collecting(nodes, indices, newMap, 0, blank)
  {
    blank := [];
    newMap := map[];
    var newIndex := 0;
    while newIndex < |indices|
      invariant 0 <= newIndex <= |indices|
      invariant |blank| == newIndex
      invariant forall p :: 0 <= p < newIndex ==> blank[p] == Node(nodes[indices[p]].identifier, [])
      invariant newMap == IndexMap(nodes, indices, newIndex)
    {
      var id := nodes[indices[newIndex]].identifier;
      newMap := newMap[id := newIndex];
      blank := blank + [Node(id, [])];
      newIndex := newIndex + 1;
    }
  }

  /** The nodes of `filtered_network` after the old nodes `0 .. i-1`. */
  ghost predicate Collecting(nodes: seq<Node>, indices: seq<nat>, m: map<string, nat>, i: nat, cur: seq<Node>)
    requires ValidNodes(nodes) && i <= |nodes|
    requires forall p :: 0 <= p < |indices| ==> indices[p] < |nodes|
  {
    |cur| == |indices| &&
    forall p :: 0 <= p < |indices| ==> cur[p] == Node(nodes[indices[p]].identifier, CollectedAdj(nodes, m, p, i))
  }

  lemma {:induction false} CollectingDone(nodes: seq<Node>, indices: seq<nat>, m: map<string, nat>, cur: seq<Node>)
    requires ValidNodes(nodes)
    requires forall p :: 0 <= p < |indices| ==> indices[p] < |nodes|
    requires m == IndexMap(nodes, indices, |indices|)
    requires Collecting(nodes, indices, m, |nodes|, cur)
    ensures cur == FilteredNodes(nodes, indices)
  {
  }

  lemma {:induction false} CollectStep(nodes: seq<Node>, indices: seq<nat>, m: map<string, nat>, i: nat, cur: seq<Node>)
    requires ValidNodes(nodes) && i < |nodes|
    requires forall p :: 0 <= p < |indices| ==> indices[p] < |nodes|
    requires m == IndexMap(nodes, indices, |indices|)
    requires Collecting(nodes, indices, m, i, cur)
    ensures var id := nodes[i].identifier;
            id in m ==> m[id] < |cur|
    ensures var id := nodes[i].identifier;
            Collecting(nodes, indices, m, i + 1,
                       if id in m then cur[m[id] := Node(cur[m[id]].identifier, cur[m[id]].adj + Remap(nodes, m, nodes[i].adj))]
                       else cur)
  {
  }

  /** With unique identifiers and distinct indices, `new_map` sends the
      identifier of node `indices[p]` to `p` and knows no other identifier. */
  lemma {:induction false} IndexMapPositions(nodes: seq<Node>, indices: seq<nat>, upto: nat)
    requires upto <= |indices|
    requires forall p :: 0 <= p < |indices| ==> indices[p] < |nodes|
    requires UniqueIdentifiers(nodes) && Distinct(indices)
    ensures forall p :: 0 <= p < upto ==> IndexMap(nodes, indices, upto)[nodes[indices[p]].identifier] == p
    ensures forall i :: 0 <= i < |nodes| && nodes[i].identifier in IndexMap(nodes, indices, upto) ==>
      indices[IndexMap(nodes, indices, upto)[nodes[i].identifier]] == i
  {
    var m := IndexMap(nodes, indices, upto);
    if upto > 0 {
      IndexMapPositions(nodes, indices, upto - 1);
      var last := indices[upto - 1];
      forall p | 0 <= p < upto - 1
        ensures nodes[indices[p]].identifier != nodes[last].identifier
      {
        assert indices[p] != last;
      }
    }
    IndexMapTargets(nodes, indices, upto);
  }

  /** Every identifier in the map is the identifier of the node it points at. */
  lemma {:induction false} IndexMapTargets(nodes: seq<Node>, indices: seq<nat>, upto: nat)
    requires upto <= |indices|
    requires forall p :: 0 <= p < |indices| ==> indices[p] < |nodes|
    ensures forall id :: id in IndexMap(nodes, indices, upto) ==>
      nodes[indices[IndexMap(nodes, indices, upto)[id]]].identifier == id
  {
    if upto > 0 {
      IndexMapTargets(nodes, indices, upto - 1);
      var prev := IndexMap(nodes, indices, upto - 1);
      var last := nodes[indices[upto - 1]].identifier;
      var m := IndexMap(nodes, indices, upto);
      assert m == prev[last := upto - 1];
      forall id | id in m
        ensures nodes[indices[m[id]]].identifier == id
      {
        if id != last {
          assert m[id] == prev[id];
        }
      }
    }
  }

  lemma {:induction false} RemapMember(nodes: seq<Node>, indices: seq<nat>, adj: seq<Edge>, q: nat, a: real)
    requires forall k :: 0 <= k < |adj| ==> adj[k].index < |nodes|
    requires forall p :: 0 <= p < |indices| ==> indices[p] < |nodes|
    requires UniqueIdentifiers(nodes) && Distinct(indices) && q < |indices|
    ensures Edge(q, a) in Remap(nodes, IndexMap(nodes, indices, |indices|), adj) <==> Edge(indices[q], a) in adj
  {
    var m := IndexMap(nodes, indices, |indices|);
    if adj != [] {
      var init := adj[..|adj| - 1];
      var e := adj[|adj| - 1];
      RemapMember(nodes, indices, init, q, a);
      assert adj == init + [e];
      IndexMapPositions(nodes, indices, |indices|);
      var id := nodes[e.index].identifier;
      if id in m && m[id] == q {
        assert indices[q] == e.index;
      }
    }
  }

  lemma {:induction false} CollectedSingle(nodes: seq<Node>, indices: seq<nat>, j: nat, upto: nat)
    requires ValidNodes(nodes) && upto <= |nodes|
    requires forall p :: 0 <= p < |indices| ==> indices[p] < |nodes|
    requires UniqueIdentifiers(nodes) && Distinct(indices) && j < |indices|
    ensures CollectedAdj(nodes, IndexMap(nodes, indices, |indices|), j, upto)
         == if indices[j] < upto then Remap(nodes, IndexMap(nodes, indices, |indices|), nodes[indices[j]].adj) else []
  {
    IndexMapPositions(nodes, indices, |indices|);
    CollectedFrom(nodes, indices, IndexMap(nodes, indices, |indices|), j, upto);
  }

  /** Only the old node `indices[j]` contributes to new node `j`. */
  lemma {:induction false} CollectedFrom(nodes: seq<Node>, indices: seq<nat>, m: map<string, nat>, j: nat, upto: nat)
    requires ValidNodes(nodes) && upto <= |nodes|
    requires forall p :: 0 <= p < |indices| ==> indices[p] < |nodes|
    requires j < |indices|
    requires forall p :: 0 <= p < |indices| ==> nodes[indices[p]].identifier in m && m[nodes[indices[p]].identifier] == p
    requires forall i :: 0 <= i < |nodes| && nodes[i].identifier in m ==> m[nodes[i].identifier] < |indices| && indices[m[nodes[i].identifier]] == i
    ensures CollectedAdj(nodes, m, j, upto) == if indices[j] < upto then Remap(nodes, m, nodes[indices[j]].adj) else []
  {
    if upto > 0 {
      CollectedFrom(nodes, indices, m, j, upto - 1);
      SendsTo(nodes, indices, m, j, upto - 1);
    }
  }

  /** Old node `i` is sent to new position `j` exactly when it is
      `indices[j]`. */
  lemma {:induction false} SendsTo(nodes: seq<Node>, indices: seq<nat>, m: map<string, nat>, j: nat, i: nat)
    requires i < |nodes| && j < |indices|
    requires forall p :: 0 <= p < |indices| ==> indices[p] < |nodes|
    requires forall p :: 0 <= p < |indices| ==> nodes[indices[p]].identifier in m && m[nodes[indices[p]].identifier] == p
    requires forall i :: 0 <= i < |nodes| && nodes[i].identifier in m ==> m[nodes[i].identifier] < |indices| && indices[m[nodes[i].identifier]] == i
    ensures (nodes[i].identifier in m && m[nodes[i].identifier] == j) <==> indices[j] == i
  {
  }

  /** Reindexing is correct: when identifiers are unique and the indices
      distinct, the sub-network has an edge from position `p` to position `q`
      of amount `a` exactly when the network has one from `indices[p]` to
      `indices[q]`; the kept node keeps the order of its edges. */
  lemma {:induction false} FilteredEdge(nodes: seq<Node>, indices: seq<nat>, p: nat, q: nat, a: real)
    requires ValidNodes(nodes)
    requires forall k :: 0 <= k < |indices| ==> indices[k] < |nodes|
    requires UniqueIdentifiers(nodes) && Distinct(indices)
    requires p < |indices| && q < |indices|
    ensures |FilteredNodes(nodes, indices)| == |indices|
    ensures Edge(q, a) in FilteredNodes(nodes, indices)[p].adj <==> Edge(indices[q], a) in nodes[indices[p]].adj
  {
    CollectedSingle(nodes, indices, p, |nodes|);
    RemapMember(nodes, indices, nodes[indices[p]].adj, q, a);
  }

  /** The map `(from, to) -> amount` of `effective_trade_only` after the
      edges `adj` of node `i` were inserted into `m`; a later edge with the
      same target overwrites an earlier one. */
  function InsertEdges(m: map<(nat, nat), real>, i: nat, adj: seq<Edge>): map<(nat, nat), real>
  {
    if adj == [] then m
    else
      var e := adj[|adj| - 1];
      InsertEdges(m, i, adj[..|adj| - 1])[(i, e.index) := e.amount]
  }

  function EdgeMap(nodes: seq<Node>, upto: nat): map<(nat, nat), real>
    requires upto <= |nodes|
  {
    if upto == 0 then map[] else InsertEdges(EdgeMap(nodes, upto - 1), upto - 1, nodes[upto - 1].adj)
  }

  /** `a` is the amount of the last edge of `adj` that leads to `t`. */
  ghost predicate LastTo(adj: seq<Edge>, t: nat, a: real)
  {
    exists k :: 0 <= k < |adj| && adj[k] == Edge(t, a) && forall k' :: k < k' < |adj| ==> adj[k'].index != t
  }

  ghost predicate LeadsTo(adj: seq<Edge>, t: nat)
  {
    exists k :: 0 <= k < |adj| && adj[k].index == t
  }

  /** What survives of the edge `from -> to` once it is netted against the
      edge `to -> from`. */
  function NettedEdge(m: map<(nat, nat), real>, from: nat, to: nat): seq<Edge>
  {
    if (from, to) !in m then []
    else if (to, from) in m then
      (if m[(from, to)] > m[(to, from)] then [Edge(to, m[(from, to)] - m[(to, from)])] else [])
    else [Edge(to, m[(from, to)])]
  }

  /** The netted edges of `from` to the targets `0 .. upto-1`, by increasing
      target: the order in which a `BTreeMap` keyed by `(from, to)` yields
      them. */
  function NettedAdj(m: map<(nat, nat), real>, from: nat, upto: nat): seq<Edge>
  {
    if upto == 0 then [] else NettedAdj(m, from, upto - 1) + NettedEdge(m, from, upto - 1)
  }

  function EffectiveNodes(nodes: seq<Node>): seq<Node>
  {
    var m := EdgeMap(nodes, |nodes|);
    seq(|nodes|, f requires 0 <= f < |nodes| => Node(nodes[f].identifier, NettedAdj(m, f, |nodes|)))
  }

  /** `effective_trade_only`: every pair of opposite edges netted, so that
      only the larger side survives, carrying the difference. The map's keys
      are visited in ascending order, which for keys below the node count is
      the order of the two nested loops over `from` and `to`. */
  method EffectiveTradeOnly(net: Network) returns (r: Network)
    requires ValidNodes(net.nodes)
    ensures r == Network(net.direction, EffectiveNodes(net.nodes), net.year)
    ensures |r.nodes| == |net.nodes|
    ensures forall f :: 0 <= f < |net.nodes| ==> r.nodes[f].identifier == net.nodes[f].identifier
  {
    var n := |net.nodes|;
    var edgeMap := BuildEdgeMap(net.nodes);
    var effective: seq<Node> := [];
    var from := 0;
    while from < n
      invariant 0 <= from <= n
      invariant |effective| == from
      invariant forall f :: 0 <= f < from ==>
        effective[f] == Node(net.nodes[f].identifier, NettedAdj(edgeMap, f, n))
    {
      var adj := NetRow(edgeMap, from, n);
      effective := effective + [Node(net.nodes[from].identifier, adj)];
      from := from + 1;
    }
    r := Network(net.direction, effective, net.year);
  }

  /** The first loops of `effective_trade_only`: every edge inserted into
      the map keyed by `(from, to)`. */
  method BuildEdgeMap(nodes: seq<Node>) returns (edgeMap: map<(nat, nat), real>)
    ensures edgeMap == EdgeMap(nodes, |nodes|)
  {
    edgeMap := map[];
    for i := 0 to |nodes|
      invariant edgeMap == EdgeMap(nodes, i)
    {
      var adj := nodes[i].adj;
      for k := 0 to |adj|
        invariant edgeMap == InsertEdges(EdgeMap(nodes, i), i, adj[..k])
      {
        assert adj[..k + 1][..k] == adj[..k];
        edgeMap := edgeMap[(i, adj[k].index) := adj[k].amount];
      }
      assert adj[..|adj|] == adj;
    }
  }

  /** The netted edges of node `from`, by increasing target. */
  method NetRow(edgeMap: map<(nat, nat), real>, from: nat, n: nat) returns (adj: seq<Edge>)
    ensures adj == NettedAdj(edgeMap, from, n)
  {
    adj := [];
    for to := 0 to n
      invariant adj == NettedAdj(edgeMap, from, to)
    {
      if (from, to) in edgeMap {
        var amount := edgeMap[(from, to)];
        if (to, from) in edgeMap {
          var otherAmount := edgeMap[(to, from)];
          if amount > otherAmount {
            adj := adj + [Edge(to, amount - otherAmount)];
          }
        } else {
          adj := adj + [Edge(to, amount)];
        }
      }
    }
  }

  lemma {:induction false} InsertEdgesMember(m: map<(nat, nat), real>, i: nat, adj: seq<Edge>, f: nat, t: nat)
    ensures (f, t) in InsertEdges(m, i, adj) <==> (f, t) in m || (f == i && LeadsTo(adj, t))
    ensures f == i && LeadsTo(adj, t) ==> LastTo(adj, t, InsertEdges(m, i, adj)[(f, t)])
    ensures !(f == i && LeadsTo(adj, t)) && (f, t) in m ==> InsertEdges(m, i, adj)[(f, t)] == m[(f, t)]
  {
    if adj != [] {
      var init := adj[..|adj| - 1];
      var e := adj[|adj| - 1];
      InsertEdgesMember(m, i, init, f, t);
      var r := InsertEdges(m, i, adj);
      if f == i && e.index == t {
        assert adj[|adj| - 1] == Edge(t, r[(f, t)]);
      } else if f == i && LeadsTo(init, t) {
        var a := InsertEdges(m, i, init)[(f, t)];
        var k :| 0 <= k < |init| && init[k] == Edge(t, a) && forall k' :: k < k' < |init| ==> init[k'].index != t;
        assert adj[k] == Edge(t, a);
      }
      if f == i && LeadsTo(adj, t) && e.index != t {
        var k :| 0 <= k < |adj| && adj[k].index == t;
        assert init[k].index == t;
      }
    }
  }

  /** The map of `effective_trade_only` holds `(f, t)` exactly when the
      network has an edge `f -> t`, and then the amount of the last such
      edge. */
  lemma {:induction false} EdgeMapMember(nodes: seq<Node>, upto: nat, f: nat, t: nat)
    requires upto <= |nodes|
    ensures (f, t) in EdgeMap(nodes, upto) <==> f < upto && LeadsTo(nodes[f].adj, t)
    ensures (f, t) in EdgeMap(nodes, upto) ==> LastTo(nodes[f].adj, t, EdgeMap(nodes, upto)[(f, t)])
  {
    if upto > 0 {
      EdgeMapMember(nodes, upto - 1, f, t);
      InsertEdgesMember(EdgeMap(nodes, upto - 1), upto - 1, nodes[upto - 1].adj, f, t);
    }
  }

  lemma {:induction false} NettedAdjMember(m: map<(nat, nat), real>, from: nat, upto: nat, e: Edge)
    ensures e in NettedAdj(m, from, upto) <==> e.index < upto && e in NettedEdge(m, from, e.index)
  {
    if upto > 0 {
      NettedAdjMember(m, from, upto - 1, e);
    }
  }

  /** The amount of the last edge `f -> t` is unique. */
  lemma {:induction false} LastToUnique(adj: seq<Edge>, t: nat, a: real, b: real)
    requires LastTo(adj, t, a) && LastTo(adj, t, b)
    ensures a == b
  {
    var k :| 0 <= k < |adj| && adj[k] == Edge(t, a) && forall k' :: k < k' < |adj| ==> adj[k'].index != t;
    var l :| 0 <= l < |adj| && adj[l] == Edge(t, b) && forall k' :: l < k' < |adj| ==> adj[k'].index != t;
    assert k == l;
  }

  /** The effective network in terms of the network: an edge `f -> t` of
      amount `c` exists exactly when the network has an edge `f -> t` whose
      last amount is `a` and either has no edge `t -> f` and `c == a`, or has
      one with last amount `b < a` and `c == a - b`. */
  lemma {:induction false} EffectiveEdge(nodes: seq<Node>, f: nat, t: nat, c: real)
    requires ValidNodes(nodes) && f < |nodes| && t < |nodes|
    ensures |EffectiveNodes(nodes)| == |nodes|
    ensures Edge(t, c) in EffectiveNodes(nodes)[f].adj <==>
      exists a :: LastTo(nodes[f].adj, t, a) &&
        ((!LeadsTo(nodes[t].adj, f) && c == a) ||
         (exists b :: LastTo(nodes[t].adj, f, b) && b < a && c == a - b))
  {
    var m := EdgeMap(nodes, |nodes|);
    NettedAdjMember(m, f, |nodes|, Edge(t, c));
    EdgeMapMember(nodes, |nodes|, f, t);
    EdgeMapMember(nodes, |nodes|, t, f);
    if exists a :: LastTo(nodes[f].adj, t, a) {
      var a :| LastTo(nodes[f].adj, t, a);
      assert LeadsTo(nodes[f].adj, t);
      LastToUnique(nodes[f].adj, t, a, m[(f, t)]);
      if exists b :: LastTo(nodes[t].adj, f, b) {
        var b :| LastTo(nodes[t].adj, f, b);
        assert LeadsTo(nodes[t].adj, f);
        LastToUnique(nodes[t].adj, f, b, m[(t, f)]);
      }
    }
  }

  /** A one-way edge is copied unchanged. */
  lemma {:induction false} EffectiveOneWay(nodes: seq<Node>, f: nat, t: nat, a: real)
    requires ValidNodes(nodes) && f < |nodes| && t < |nodes|
    requires LastTo(nodes[f].adj, t, a) && !LeadsTo(nodes[t].adj, f)
    ensures |EffectiveNodes(nodes)| == |nodes|
    ensures Edge(t, a) in EffectiveNodes(nodes)[f].adj
  {
    EffectiveEdge(nodes, f, t, a);
  }

  /** Of two opposite edges only the larger survives, carrying the
      difference; with equal amounts both vanish. */
  lemma {:induction false} EffectiveTwoWay(nodes: seq<Node>, f: nat, t: nat, a: real, b: real, c: real)
    requires ValidNodes(nodes) && f < |nodes| && t < |nodes|
    requires LastTo(nodes[f].adj, t, a) && LastTo(nodes[t].adj, f, b)
    ensures |EffectiveNodes(nodes)| == |nodes|
    ensures a > b ==> Edge(t, a - b) in EffectiveNodes(nodes)[f].adj
    ensures Edge(t, c) in EffectiveNodes(nodes)[f].adj ==> a > b && c == a - b
    ensures a == b ==> Edge(t, c) !in EffectiveNodes(nodes)[f].adj && Edge(f, c) !in EffectiveNodes(nodes)[t].adj
  {
    assert LeadsTo(nodes[t].adj, f);
    assert LeadsTo(nodes[f].adj, t);
    EffectiveEdge(nodes, f, t, a - b);
    EffectiveEdge(nodes, f, t, c);
    EffectiveEdge(nodes, t, f, c);
    if Edge(t, c) in EffectiveNodes(nodes)[f].adj {
      var a' :| LastTo(nodes[f].adj, t, a') &&
        ((!LeadsTo(nodes[t].adj, f) && c == a') || (exists b' :: LastTo(nodes[t].adj, f, b') && b' < a' && c == a' - b'));
      LastToUnique(nodes[f].adj, t, a, a');
      var b' :| LastTo(nodes[t].adj, f, b') && b' < a' && c == a' - b';
      LastToUnique(nodes[t].adj, f, b, b');
    }
  }

  /** The effective network never has two opposite edges. */
  lemma {:induction false} EffectiveOneDirection(nodes: seq<Node>, f: nat, t: nat, c: real, d: real)
    requires ValidNodes(nodes) && f < |nodes| && t < |nodes|
    ensures |EffectiveNodes(nodes)| == |nodes|
    ensures !(Edge(t, c) in EffectiveNodes(nodes)[f].adj && Edge(f, d) in EffectiveNodes(nodes)[t].adj)
  {
    var m := EdgeMap(nodes, |nodes|);
    NettedAdjMember(m, f, |nodes|, Edge(t, c));
    NettedAdjMember(m, t, |nodes|, Edge(f, d));
  }
}
