/** The node and edge level of both network types (`src/network.rs` and
    `src/network/directed_network.rs` define the same `Node`, `Edge`,
    `invert`, `normalize`, `edge_count` and a count of nodes with outgoing
    edges). A network is a sequence of nodes; node `i` lists its outgoing
    edges, each naming the index of the node it leads to and a trade amount.
    Amounts are reals: the amounts the program stores are finite. */
module Graph {

  datatype Edge = Edge(index: nat, amount: real)
  datatype Node = Node(identifier: string, adj: seq<Edge>)

  /** Every edge leads to a node of the network. */
  ghost predicate ValidNodes(nodes: seq<Node>)
  {
    forall i, k :: 0 <= i < |nodes| && 0 <= k < |nodes[i].adj| ==> nodes[i].adj[k].index < |nodes|
  }

  /** The number of edges: the sum of the adjacency lengths. Every node's
      edges are among them, and there are none exactly when no node has an
      edge. */
  function EdgeCount(nodes: seq<Node>): (r: nat)
    ensures forall i :: 0 <= i < |nodes| ==> |nodes[i].adj| <= r
    ensures r == 0 <==> forall i :: 0 <= i < |nodes| ==> nodes[i].adj == []
  {
    if nodes == [] then 0
    else
      var init := nodes[..|nodes| - 1];
      assert forall i :: 0 <= i < |init| ==> init[i] == nodes[i];
      EdgeCount(init) + |nodes[|nodes| - 1].adj|
  }

  /** The number of nodes that have at least one outgoing edge. It is zero
      exactly when no node has one, and the node count exactly when every
      node has one. */
  function NodesWithNonEmptyAdj(nodes: seq<Node>): (r: nat)
    ensures r <= |nodes|
    ensures r == 0 <==> forall i :: 0 <= i < |nodes| ==> nodes[i].adj == []
    ensures r == |nodes| <==> forall i :: 0 <= i < |nodes| ==> nodes[i].adj != []
  {
    if nodes == [] then 0
    else
      var init := nodes[..|nodes| - 1];
      assert forall i :: 0 <= i < |init| ==> init[i] == nodes[i];
      NodesWithNonEmptyAdj(init) + (if nodes[|nodes| - 1].adj == [] then 0 else 1)
  }

  /** Every node with outgoing edges contributes at least one edge, so the
      edge count is at least the number of such nodes, and it is zero exactly
      when that number is. */
  lemma {:induction false} NonEmptyAtMostEdges(nodes: seq<Node>)
    ensures NodesWithNonEmptyAdj(nodes) <= EdgeCount(nodes)
    ensures EdgeCount(nodes) == 0 <==> NodesWithNonEmptyAdj(nodes) == 0
  {
    if nodes != [] {
      NonEmptyAtMostEdges(nodes[..|nodes| - 1]);
    }
  }

  /** Replacing one node changes the edge count by the difference of the
      adjacency lengths. */
  lemma {:induction false} EdgeCountUpdate(nodes: seq<Node>, j: nat, n: Node)
    requires j < |nodes|
    ensures EdgeCount(nodes[j := n]) == EdgeCount(nodes) - |nodes[j].adj| + |n.adj|
  {
    var last := |nodes| - 1;
    if j < last {
      EdgeCountUpdate(nodes[..last], j, n);
      assert nodes[j := n][..last] == nodes[..last][j := n];
    } else {
      assert nodes[j := n][..last] == nodes[..last];
    }
  }

  lemma {:induction false} EdgeCountSnoc(nodes: seq<Node>, k: nat)
    requires k < |nodes|
    ensures EdgeCount(nodes[..k + 1]) == EdgeCount(nodes[..k]) + |nodes[k].adj|
  {
    assert nodes[..k + 1][..k] == nodes[..k];
  }

  /** The edges of `adj` (the adjacency of node `i`) that lead to `j`,
      turned round into edges leading to `i`, in their order in `adj`. */
  function IncomingFrom(j: nat, i: nat, adj: seq<Edge>): seq<Edge>
  {
    if adj == [] then []
    else
      var e := adj[|adj| - 1];
      IncomingFrom(j, i, adj[..|adj| - 1]) + (if e.index == j then [Edge(i, e.amount)] else [])
  }

  /** The adjacency of node `j` in the inverted network, built from nodes
      `0 .. upto-1`. */
  function InvertedAdj(nodes: seq<Node>, j: nat, upto: nat): seq<Edge>
    requires upto <= |nodes|
  {
    if upto == 0 then [] else InvertedAdj(nodes, j, upto - 1) + IncomingFrom(j, upto - 1, nodes[upto - 1].adj)
  }

  /** The inverted network: every edge `i -> j` of amount `a` becomes an edge
      `j -> i` of amount `a`; node `j` lists its new edges by increasing `i`,
      and edges from the same `i` in their old order. Identifiers stay. */
  function InvertedNodes(nodes: seq<Node>): seq<Node>
  {
    seq(|nodes|, j requires 0 <= j < |nodes| => Node(nodes[j].identifier, InvertedAdj(nodes, j, |nodes|)))
  }

  lemma {:induction false} IncomingFromSnoc(j: nat, i: nat, adj: seq<Edge>, k: nat)
    requires k < |adj|
    ensures IncomingFrom(j, i, adj[..k + 1])
         == IncomingFrom(j, i, adj[..k]) + (if adj[k].index == j then [Edge(i, adj[k].amount)] else [])
  {
    assert adj[..k + 1][..k] == adj[..k];
  }

  /** The inner loop of `invert`: every edge of node `idx`, in order, pushed
      turned round onto the node it leads to. */
  method PushTurned(nodes: seq<Node>, all: seq<Node>, idx: nat) returns (r: seq<Node>)
    requires ValidNodes(nodes) && idx < |nodes| && |all| == |nodes|
    requires forall j :: 0 <= j < |nodes| ==> all[j] == Node(nodes[j].identifier, InvertedAdj(nodes, j, idx))
    ensures |r| == |nodes|
    ensures forall j :: 0 <= j < |nodes| ==> r[j] == Node(nodes[j].identifier, InvertedAdj(nodes, j, idx + 1))
    ensures EdgeCount(r) == EdgeCount(all) + |nodes[idx].adj|
  {
    var adj := nodes[idx].adj;
    r := all;
    assert adj[..0] == [];
    var k := 0;
    while k < |adj|
      invariant 0 <= k <= |adj|
      invariant TurnState(nodes, all, idx, k, r)
    {
      var e := adj[k];
      var t := e.index;
      var updated := Node(r[t].identifier, r[t].adj + [Edge(idx, e.amount)]);
      TurnStep(nodes, all, idx, k, r);
      r := r[t := updated];
      k := k + 1;
    }
    assert adj[..|adj|] == adj;
  }

  /** The state of the inner loop of `invert` after the first `k` edges of
      node `idx`. */
  ghost predicate TurnState(nodes: seq<Node>, all: seq<Node>, idx: nat, k: nat, r: seq<Node>)
    requires idx < |nodes| && k <= |nodes[idx].adj|
  {
    |r| == |nodes| &&
    (forall j :: 0 <= j < |nodes| ==>
       r[j] == Node(nodes[j].identifier, InvertedAdj(nodes, j, idx) + IncomingFrom(j, idx, nodes[idx].adj[..k]))) &&
    EdgeCount(r) == EdgeCount(all) + k
  }

  lemma {:induction false} TurnStep(nodes: seq<Node>, all: seq<Node>, idx: nat, k: nat, r: seq<Node>)
    requires ValidNodes(nodes) && idx < |nodes| && k < |nodes[idx].adj|
    requires TurnState(nodes, all, idx, k, r)
    ensures var e := nodes[idx].adj[k];
            TurnState(nodes, all, idx, k + 1, r[e.index := Node(r[e.index].identifier, r[e.index].adj + [Edge(idx, e.amount)])])
  {
    var adj := nodes[idx].adj;
    var e := adj[k];
    var t := e.index;
    var updated := Node(r[t].identifier, r[t].adj + [Edge(idx, e.amount)]);
    EdgeCountUpdate(r, t, updated);
    var r' := r[t := updated];
    forall j | 0 <= j < |nodes|
      ensures r'[j] == Node(nodes[j].identifier, InvertedAdj(nodes, j, idx) + IncomingFrom(j, idx, adj[..k + 1]))
    {
      IncomingFromSnoc(j, idx, adj, k);
      var done := InvertedAdj(nodes, j, idx);
      var part := IncomingFrom(j, idx, adj[..k]);
      if j == t {
        assert r'[j].adj == (done + part) + [Edge(idx, e.amount)];
        assert (done + part) + [Edge(idx, e.amount)] == done + (part + [Edge(idx, e.amount)]);
      } else {
        assert r'[j] == r[j];
        assert part + [] == part;
      }
    }
  }

  /** `invert` (`src/network.rs` and `src/network/directed_network.rs`): a
      fresh node list with the same identifiers, then every edge of every
      node, in order, is pushed turned round onto the node it leads to. */
  method InvertNodes(nodes: seq<Node>) returns (all: seq<Node>)
    requires ValidNodes(nodes)
    ensures all == InvertedNodes(nodes)
    ensures EdgeCount(all) == EdgeCount(nodes)
  {
    all := seq(|nodes|, j requires 0 <= j < |nodes| => Node(nodes[j].identifier, []));
    var idx := 0;
    while idx < |nodes|
      invariant 0 <= idx <= |nodes|
      invariant |all| == |nodes|
      invariant forall j :: 0 <= j < |nodes| ==> all[j] == Node(nodes[j].identifier, InvertedAdj(nodes, j, idx))
      invariant EdgeCount(all) == EdgeCount(nodes[..idx])
    {
      all := PushTurned(nodes, all, idx);
      EdgeCountSnoc(nodes, idx);
      idx := idx + 1;
    }
    assert nodes[..|nodes|] == nodes;
  }

  lemma {:induction false} IncomingFromMember(j: nat, i: nat, adj: seq<Edge>, e: Edge)
    ensures e in IncomingFrom(j, i, adj) <==> e.index == i && Edge(j, e.amount) in adj
  {
    if adj != [] {
      var init := adj[..|adj| - 1];
      IncomingFromMember(j, i, init, e);
      assert adj == init + [adj[|adj| - 1]];
    }
  }

  lemma {:induction false} InvertedAdjMember(nodes: seq<Node>, j: nat, upto: nat, e: Edge)
    requires upto <= |nodes|
    ensures e in InvertedAdj(nodes, j, upto) <==> e.index < upto && Edge(j, e.amount) in nodes[e.index].adj
  {
    if upto > 0 {
      InvertedAdjMember(nodes, j, upto - 1, e);
      IncomingFromMember(j, upto - 1, nodes[upto - 1].adj, e);
    }
  }

  /** The inverted network has edge `j -> i` of amount `a` exactly when the
      network has edge `i -> j` of amount `a`, and it is again valid. */
  lemma {:induction false} InvertedEdge(nodes: seq<Node>, i: nat, j: nat, a: real)
    requires i < |nodes| && j < |nodes|
    ensures |InvertedNodes(nodes)| == |nodes|
    ensures Edge(i, a) in InvertedNodes(nodes)[j].adj <==> Edge(j, a) in nodes[i].adj
  {
    InvertedAdjMember(nodes, j, |nodes|, Edge(i, a));
  }

  lemma {:induction false} InvertedValid(nodes: seq<Node>)
    ensures ValidNodes(InvertedNodes(nodes))
  {
    var inv := InvertedNodes(nodes);
    forall j, k | 0 <= j < |inv| && 0 <= k < |inv[j].adj|
      ensures inv[j].adj[k].index < |inv|
    {
      InvertedAdjMember(nodes, j, |nodes|, inv[j].adj[k]);
    }
  }

  /** Inverting twice gives every node back the edges it had (the order of an
      adjacency may change: it becomes ordered by target). */
  lemma {:induction false} InvertTwiceSameEdges(nodes: seq<Node>, i: nat, e: Edge)
    requires ValidNodes(nodes) && i < |nodes|
    ensures |InvertedNodes(InvertedNodes(nodes))| == |nodes|
    ensures InvertedNodes(InvertedNodes(nodes))[i].identifier == nodes[i].identifier
    ensures e in InvertedNodes(InvertedNodes(nodes))[i].adj <==> e in nodes[i].adj
  {
    var inv := InvertedNodes(nodes);
    assert e == Edge(e.index, e.amount);
    if e.index < |nodes| {
      InvertedEdge(inv, e.index, i, e.amount);
      InvertedEdge(nodes, i, e.index, e.amount);
    } else {
      InvertedValid(inv);
      assert e !in InvertedNodes(inv)[i].adj;
      assert e !in nodes[i].adj;
    }
  }
  /** The sum of the amounts of an adjacency, added from first to last. */
  function AmountSum(adj: seq<Edge>): real
  {
    if adj == [] then 0.0 else AmountSum(adj[..|adj| - 1]) + adj[|adj| - 1].amount
  }

  /** Every amount divided by `s`. */
  function Scaled(adj: seq<Edge>, s: real): seq<Edge>
    requires s != 0.0
  {
    seq(|adj|, k requires 0 <= k < |adj| => Edge(adj[k].index, adj[k].amount / s))
  }

  /** The adjacency of a node after `normalize`: unchanged when it is empty,
      otherwise every amount divided by the sum of the amounts. A sum of zero
      is not divided by (see the README). */
  function NormalizedAdj(adj: seq<Edge>): seq<Edge>
  {
    if adj == [] || AmountSum(adj) == 0.0 then adj else Scaled(adj, AmountSum(adj))
  }

  function NormalizedNodes(nodes: seq<Node>): seq<Node>
  {
    seq(|nodes|, i requires 0 <= i < |nodes| => Node(nodes[i].identifier, NormalizedAdj(nodes[i].adj)))
  }

  /** `normalize`: for every node with outgoing edges, the sum of the amounts
      and then every amount divided by it. */
  method NormalizeNodes(nodes: seq<Node>) returns (r: seq<Node>)
    ensures r == NormalizedNodes(nodes)
  {
    r := nodes;
    var i := 0;
    while i < |r|
      invariant 0 <= i <= |r| == |nodes|
      invariant forall m :: 0 <= m < i ==> r[m] == NormalizedNodes(nodes)[m]
      invariant forall m :: i <= m < |r| ==> r[m] == nodes[m]
    {
      var adj := r[i].adj;
      if adj != [] {
        var sum := 0.0;
        var k := 0;
        while k < |adj|
          invariant 0 <= k <= |adj|
          invariant sum == AmountSum(adj[..k])
        {
          assert adj[..k + 1][..k] == adj[..k];
          sum := sum + adj[k].amount;
          k := k + 1;
        }
        assert adj[..|adj|] == adj;
        if sum != 0.0 {
          var scaled := adj;
          k := 0;
          while k < |scaled|
            invariant 0 <= k <= |scaled| == |adj|
            invariant forall m :: 0 <= m < k ==> scaled[m] == Edge(adj[m].index, adj[m].amount / sum)
            invariant forall m :: k <= m < |scaled| ==> scaled[m] == adj[m]
          {
            scaled := scaled[k := Edge(scaled[k].index, scaled[k].amount / sum)];
            k := k + 1;
          }
          assert scaled == Scaled(adj, sum);
          r := r[i := Node(r[i].identifier, scaled)];
        }
      }
      i := i + 1;
    }
  }

  lemma {:induction false} AmountSumScaled(adj: seq<Edge>, s: real)
    requires s != 0.0
    ensures AmountSum(Scaled(adj, s)) == AmountSum(adj) / s
  {
    if adj != [] {
      var init := adj[..|adj| - 1];
      AmountSumScaled(init, s);
      assert Scaled(adj, s)[..|adj| - 1] == Scaled(init, s);
    }
  }

  /** After `normalize`, the amounts of every node with outgoing edges whose
      sum was not zero add up to one; targets, adjacency lengths and
      identifiers do not change. */
  lemma {:induction false} NormalizedSumsToOne(nodes: seq<Node>, i: nat)
    requires i < |nodes| && nodes[i].adj != [] && AmountSum(nodes[i].adj) != 0.0
    ensures |NormalizedNodes(nodes)| == |nodes|
    ensures AmountSum(NormalizedNodes(nodes)[i].adj) == 1.0
  {
    var adj := nodes[i].adj;
    var sum := AmountSum(adj);
    AmountSumScaled(adj, sum);
    assert NormalizedNodes(nodes)[i].adj == Scaled(adj, sum);
    assert sum / sum == 1.0;
  }

  lemma {:induction false} NormalizedShape(nodes: seq<Node>, i: nat, k: nat)
    requires i < |nodes| && k < |nodes[i].adj|
    ensures |NormalizedNodes(nodes)| == |nodes|
    ensures NormalizedNodes(nodes)[i].identifier == nodes[i].identifier
    ensures |NormalizedNodes(nodes)[i].adj| == |nodes[i].adj|
    ensures NormalizedNodes(nodes)[i].adj[k].index == nodes[i].adj[k].index
  {
  }

  /** Normalizing a normalized network changes nothing. */
  lemma {:induction false} NormalizeIdempotent(nodes: seq<Node>)
    ensures NormalizedNodes(NormalizedNodes(nodes)) == NormalizedNodes(nodes)
  {
    var once := NormalizedNodes(nodes);
    forall i | 0 <= i < |nodes|
      ensures NormalizedAdj(once[i].adj) == once[i].adj
    {
      var adj := nodes[i].adj;
      if adj != [] && AmountSum(adj) != 0.0 {
        NormalizedSumsToOne(nodes, i);
        assert Scaled(once[i].adj, 1.0) == once[i].adj;
      }
    }
  }
}
