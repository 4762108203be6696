/** The breadth-first search of `diameter` in
    `src/network/directed_network.rs`: level by level from each start node,
    shown to count each node's eccentricity, and the diameter as the largest
    of them. */
module Bfs {
  import opened Common
  import opened Graph
  import opened DirectedNetwork
  import opened Reachability
  import opened Distance

  /** Follows one edge from `u`, of the current queue, to `t`: an
      unmarked `t` is marked and pushed onto the next queue. */
  method VisitEdge(nodes: seq<Node>, i: nat, processed: array<bool>, current: seq<nat>, ghost seen0: set<nat>,
                   queue: seq<nat>, u: nat, t: nat, next0: seq<nat>, ghost seen1: set<nat>)
    returns (next: seq<nat>, ghost seen: set<nat>)
    requires u in seen1 && u in current && HasEdge(nodes, u, t) && t < |nodes|
    requires Expanding(nodes, i, processed[..], current, seen0, queue, next0, seen1)
    modifies processed
    ensures Expanding(nodes, i, processed[..], current, seen0, queue, next, seen)
    ensures t in seen
    ensures (next == next0 && seen == seen1) || (next == next0 + [t] && seen == seen1 + {t})
  {
    next, seen := next0, seen1;
    if !processed[t] {
      ghost var flags := processed[..];
      processed[t] := true;
      assert processed[..] == flags[t := true];
      MarkStep(nodes, i, flags, current, seen0, queue, next, seen, u, t);
      next := next + [t];
      seen := seen + {t};
    }
  }

  /** Pops node `u` from the current queue: its unmarked neighbours are
      marked and pushed onto the next queue. */
  method VisitNeighbours(nodes: seq<Node>, i: nat, processed: array<bool>, current: seq<nat>, ghost seen0: set<nat>,
                         queue: seq<nat>, u: nat, next0: seq<nat>, ghost seen1: set<nat>)
    returns (next: seq<nat>, ghost seen: set<nat>)
    requires ValidNodes(nodes) && u in seen1 && u in current
    requires Expanding(nodes, i, processed[..], current, seen0, queue, next0, seen1)
    requires forall w, m :: w in seen1 && w !in queue && w !in next0 && w != u && 0 <= m < |nodes[w].adj| ==>
      nodes[w].adj[m].index in seen1
    modifies processed
    ensures Expanding(nodes, i, processed[..], current, seen0, queue, next, seen)
    ensures forall w, m :: w in seen && w !in queue && w !in next && 0 <= m < |nodes[w].adj| ==>
      nodes[w].adj[m].index in seen
  {
    next, seen := next0, seen1;
    var adj := nodes[u].adj;
    for k := 0 to |adj|
      invariant Expanding(nodes, i, processed[..], current, seen0, queue, next, seen)
      invariant seen1 <= seen && u in seen
      invariant forall m :: 0 <= m < k ==> adj[m].index in seen
      invariant forall w, m :: (w in seen && w !in queue && w !in next && w != u &&
        0 <= m < |nodes[w].adj|) ==> nodes[w].adj[m].index in seen
    {
      assert HasEdge(nodes, u, adj[k].index);
      next, seen := VisitEdge(nodes, i, processed, current, seen0, queue, u, adj[k].index, next, seen);
    }
  }

  /** One level of the breadth-first search of `diameter`: every node of
      the current queue is popped from its front and its unmarked neighbours
      are marked and pushed onto the next queue. The next queue holds exactly
      the newly marked nodes, each the target of an edge from the current
      queue. */
  method ExpandLevel(nodes: seq<Node>, i: nat, processed: array<bool>, current: seq<nat>, ghost seen0: set<nat>)
    returns (next: seq<nat>, ghost seen: set<nat>)
    requires ValidNodes(nodes) && processed.Length == |nodes|
    requires forall v :: 0 <= v < |nodes| ==> (processed[v] <==> v in seen0)
    requires forall v :: v in seen0 ==> v < |nodes| && Reachable(nodes, i, v)
    requires forall v :: v in current ==> v in seen0
    requires forall u, m :: u in seen0 && u !in current && 0 <= m < |nodes[u].adj| ==> nodes[u].adj[m].index in seen0
    modifies processed
    ensures forall v :: 0 <= v < |nodes| ==> (processed[v] <==> v in seen)
    ensures forall v :: v in seen ==> v < |nodes| && Reachable(nodes, i, v)
    ensures forall v :: v in seen <==> v in seen0 || v in next
    ensures forall v :: v in next ==> v !in seen0 && FromCurrent(nodes, current, v)
    ensures seen0 <= seen && |seen| == |seen0| + |next|
    ensures forall u, m :: u in seen && u !in next && 0 <= m < |nodes[u].adj| ==> nodes[u].adj[m].index in seen
  {
    var queue := current;
    next := [];
    seen := seen0;
    while queue != []
      invariant Expanding(nodes, i, processed[..], current, seen0, queue, next, seen)
      invariant forall u, m :: u in seen && u !in queue && u !in next && 0 <= m < |nodes[u].adj| ==>
        nodes[u].adj[m].index in seen
    {
      assert queue[0] in queue;
      var currentIndex := queue[0];
      queue := queue[1..];
      next, seen := VisitNeighbours(nodes, i, processed, current, seen0, queue, currentIndex, next, seen);
    }
  }

  /** The breadth-first search of `diameter` from node `i`: levels are
      counted by swapping the current and the next queue. It marks exactly the
      nodes reachable from `i`, and the number of levels it counts is the
      eccentricity of `i`, which is smaller than the number of marked nodes. */
  method BreadthFirstLevels(nodes: seq<Node>, i: nat, processed: array<bool>) returns (level: nat)
    requires ValidNodes(nodes) && i < |nodes| && processed.Length == |nodes|
    modifies processed
    ensures forall v :: 0 <= v < |nodes| ==> (processed[v] <==> Reachable(nodes, i, v))
    ensures IsEccentricity(nodes, i, level)
    ensures level < |ReachSet(nodes, i)|
  {
    var n := |nodes|;
    for v := 0 to n
      invariant forall w :: 0 <= w < v ==> !processed[w]
    {
      processed[v] := false;
    }
    var current: seq<nat> := [i];
    processed[i] := true;
    level := 0;
    ghost var seen: set<nat> := {i};
    ReachRefl(nodes, i);
    LayerStart(nodes, i);
    while true
      invariant forall v :: 0 <= v < n ==> (processed[v] <==> v in seen)
      invariant forall v :: v in seen ==> v < n && Reachable(nodes, i, v)
      invariant i in seen
      invariant forall v :: v in current ==> v in seen
      invariant forall u, m :: u in seen && u !in current && 0 <= m < |nodes[u].adj| ==> nodes[u].adj[m].index in seen
      invariant Layered(nodes, i, level, seen, current)
      invariant level > 0 ==> current != []
      invariant |seen| >= level + 1
      decreases n - |seen|
    {
      BoundedSetCard(seen, n);
      ghost var seen0 := seen;
      var next;
      next, seen := ExpandLevel(nodes, i, processed, current, seen);
      LayerStep(nodes, i, level, seen0, current, seen, next);
      if next == [] {
        assert seen == seen0;
        LayerDone(nodes, i, level, seen, current);
        break;
      }
      current := next;
      level := level + 1;
    }
    forall v | 0 <= v < n && Reachable(nodes, i, v)
      ensures v in seen
    {
      ClosedContainsReach(nodes, seen, i, v);
    }
    assert seen == ReachSet(nodes, i);
  }

  /** `diameter`: the largest number of breadth-first levels over all start
      nodes, or None as soon as the search from some node leaves a node
      unreached. The value returned is the diameter: every node is within
      that many steps of every node, and when it is not 0 some node is
      farther than one step less from some start node. */
  method Diameter(net: Network) returns (r: Option<nat>)
    requires ValidNodes(net.nodes)
    ensures r.None? <==> exists i, v :: 0 <= i < |net.nodes| && 0 <= v < |net.nodes| && !Reachable(net.nodes, i, v)
    ensures r.Some? ==> AllWithin(net.nodes, |net.nodes|, r.value) && Attained(net.nodes, |net.nodes|, r.value)
    ensures r.Some? ==> r.value == 0 || r.value < |net.nodes|
  {
    var nodes := net.nodes;
    var n := |nodes|;
    var diameter := 0;
    var processed := new bool[n](_ => false);
    for i := 0 to n
      invariant diameter == 0 || diameter < n
      invariant forall j, v :: 0 <= j < i && 0 <= v < n ==> Reachable(nodes, j, v)
      invariant AllWithin(nodes, i, diameter) && Attained(nodes, i, diameter)
    {
      var level := BreadthFirstLevels(nodes, i, processed);
      BoundedSetCard(ReachSet(nodes, i), n);
      ghost var before := diameter;
      if level > diameter {
        diameter := level;
      }
      var unreached := false;
      for v := 0 to n
        invariant unreached <==> exists w :: 0 <= w < v && !processed[w]
      {
        if !processed[v] {
          unreached := true;
        }
      }
      if unreached {
        return None;
      }
      assert forall v :: 0 <= v < n ==> Reachable(nodes, i, v);
      DiameterStep(nodes, i, before, level);
    }
    r := Some(diameter);
  }
}
