/** `src/network.rs`: the plain network type, a sequence of nodes with no
    direction and no year. Its operations are those of `Graph`. */
module PlainNetwork {
  import opened Graph

  datatype Network = Network(nodes: seq<Node>)

  function NodeCount(net: Network): nat
  {
    |net.nodes|
  }

  /** `nodes_with_neighbors`: the nodes with at least one outgoing edge; at
      most the node count and at most the edge count. */
  function NodesWithNeighbors(net: Network): (r: nat)
    ensures r <= NodeCount(net) && r <= EdgeCount(net.nodes)
    ensures r == 0 <==> forall i :: 0 <= i < |net.nodes| ==> net.nodes[i].adj == []
    ensures r == 0 <==> EdgeCount(net.nodes) == 0
  {
    NonEmptyAtMostEdges(net.nodes);
    NodesWithNonEmptyAdj(net.nodes)
  }

  /** `invert`: every edge `i -> j` becomes `j -> i` with the same amount;
      the node count, the identifiers and the edge count stay. */
  method Invert(net: Network) returns (r: Network)
    requires ValidNodes(net.nodes)
    ensures r == Network(InvertedNodes(net.nodes))
    ensures NodeCount(r) == NodeCount(net) && EdgeCount(r.nodes) == EdgeCount(net.nodes)
    ensures forall i :: 0 <= i < |net.nodes| ==> r.nodes[i].identifier == net.nodes[i].identifier
    ensures ValidNodes(r.nodes)
  {
    var all := InvertNodes(net.nodes);
    InvertedValid(net.nodes);
    r := Network(all);
  }

  /** `normalize`: the amounts of every node with outgoing edges divided by
      their sum. */
  method Normalize(net: Network) returns (r: Network)
    ensures r == Network(NormalizedNodes(net.nodes))
  {
    var nodes := NormalizeNodes(net.nodes);
    r := Network(nodes);
  }
}
