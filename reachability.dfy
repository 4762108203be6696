/** The reachability operations of `src/network/directed_network.rs`:
    `out_component` and `largest_out_component`, and the paths that
    `diameter` searches. */
module Reachability {
  import opened Common
  import opened Graph
  import opened HelperStructs
  import opened DirectedNetwork

  ghost predicate HasEdge(nodes: seq<Node>, i: nat, j: nat)
  {
    i < |nodes| && exists m :: 0 <= m < |nodes[i].adj| && nodes[i].adj[m].index == j
  }

  ghost predicate IsPath(nodes: seq<Node>, p: seq<nat>)
  {
    |p| >= 1 && forall k :: 0 <= k < |p| - 1 ==> HasEdge(nodes, p[k], p[k + 1])
  }

  /** `t` can be reached from `s` by following edges (`s` reaches itself). */
  ghost predicate Reachable(nodes: seq<Node>, s: nat, t: nat)
  {
    exists p :: IsPath(nodes, p) && p[0] == s && p[|p| - 1] == t
  }

  /** The nodes reachable from `s`. */
  ghost function ReachSet(nodes: seq<Node>, s: nat): set<nat>
  {
    set v: nat | v < |nodes| && Reachable(nodes, s, v)
  }

  /** The size of the out-component of `s` as `out_component` returns it. */
  ghost function ComponentSize(nodes: seq<Node>, s: nat, choice: ComponentChoice): nat
  {
    if IncludesSelf(choice) then |ReachSet(nodes, s)| else |ReachSet(nodes, s) - {s}|
  }

  lemma {:induction false} ReachRefl(nodes: seq<Node>, s: nat)
    ensures Reachable(nodes, s, s)
  {
    assert IsPath(nodes, [s]);
  }

  lemma {:induction false} ReachStep(nodes: seq<Node>, s: nat, u: nat, v: nat)
    requires Reachable(nodes, s, u) && HasEdge(nodes, u, v)
    ensures Reachable(nodes, s, v)
  {
    var p :| IsPath(nodes, p) && p[0] == s && p[|p| - 1] == u;
    var q := p + [v];
    assert forall k :: 0 <= k < |q| - 1 ==> HasEdge(nodes, q[k], q[k + 1]) by {
      forall k | 0 <= k < |q| - 1 ensures HasEdge(nodes, q[k], q[k + 1]) {
        if k < |p| - 1 {
          assert q[k] == p[k] && q[k + 1] == p[k + 1];
        }
      }
    }
    assert IsPath(nodes, q);
  }

  lemma {:induction false} ReachTrans(nodes: seq<Node>, s: nat, u: nat, v: nat)
    requires Reachable(nodes, s, u) && Reachable(nodes, u, v)
    ensures Reachable(nodes, s, v)
  {
    var p :| IsPath(nodes, p) && p[0] == s && p[|p| - 1] == u;
    var q :| IsPath(nodes, q) && q[0] == u && q[|q| - 1] == v;
    var w := p + q[1..];
    assert forall k :: 0 <= k < |w| - 1 ==> HasEdge(nodes, w[k], w[k + 1]) by {
      forall k | 0 <= k < |w| - 1 ensures HasEdge(nodes, w[k], w[k + 1]) {
        if k < |p| - 1 {
          assert w[k] == p[k] && w[k + 1] == p[k + 1];
        } else {
          var j := k - |p| + 1;
          assert w[k] == q[j] && w[k + 1] == q[j + 1];
        }
      }
    }
    assert IsPath(nodes, w);
  }

  /** A set of nodes that contains `s` and every target of its members'
      edges contains everything reachable from `s`. */
  lemma {:induction false} ClosedContainsReach(nodes: seq<Node>, c: set<nat>, s: nat, t: nat)
    requires s in c
    requires forall u, m :: u in c && u < |nodes| && 0 <= m < |nodes[u].adj| ==> nodes[u].adj[m].index in c
    requires Reachable(nodes, s, t)
    ensures t in c
  {
    var p :| IsPath(nodes, p) && p[0] == s && p[|p| - 1] == t;
    var k := 0;
    while k < |p| - 1
      invariant 0 <= k <= |p| - 1
      invariant p[k] in c
    {
      assert HasEdge(nodes, p[k], p[k + 1]);
      var m :| 0 <= m < |nodes[p[k]].adj| && nodes[p[k]].adj[m].index == p[k + 1];
      k := k + 1;
    }
  }

  lemma {:induction false} ComponentSizeOfSet(nodes: seq<Node>, s: nat, choice: ComponentChoice, component: seq<nat>)
    requires s < |nodes| && Distinct(component)
    requires forall v :: v in component ==> v < |nodes| && Reachable(nodes, s, v)
    requires forall v: nat :: v < |nodes| && v != s && Reachable(nodes, s, v) ==> v in component
    requires s in component <==> IncludesSelf(choice)
    ensures |component| == ComponentSize(nodes, s, choice)
  {
    DistinctCard(component);
    ReachRefl(nodes, s);
    var elems := Elems(component);
    if IncludesSelf(choice) {
      assert elems == ReachSet(nodes, s);
    } else {
      assert elems == ReachSet(nodes, s) - {s};
    }
  }

  /** What the search of `out_component` keeps: the `processed` flags mark
      exactly the nodes seen, all of them reachable from `start`; every seen
      node other than `start` is listed once, and `start` as the choice
      says; the stack holds seen nodes. */
  ghost predicate SearchState(nodes: seq<Node>, start: nat, choice: ComponentChoice, flags: seq<bool>,
                              seen: set<nat>, component: seq<nat>, stack: seq<nat>)
  {
    |flags| == |nodes| &&
    (forall v :: 0 <= v < |nodes| ==> (flags[v] <==> v in seen)) &&
    (forall v :: v in seen ==> v < |nodes| && Reachable(nodes, start, v)) &&
    start in seen &&
    (forall v :: v in seen ==> v == start || v in component) &&
    (forall v :: v in component ==> v in seen) &&
    Distinct(component) &&
    (start in component <==> IncludesSelf(choice)) &&
    (forall v :: v in stack ==> v in seen)
  }

  /** Every seen node that is off the stack has all its successors seen. */
  ghost predicate Explored(nodes: seq<Node>, seen: set<nat>, stack: seq<nat>)
  {
    forall u, m :: u in seen && u !in stack && u < |nodes| && 0 <= m < |nodes[u].adj| ==> nodes[u].adj[m].index in seen
  }

  /** `out_component`: a depth-first search from `start` over a stack and a
      `processed` array. Every reachable node other than `start` is listed
      once; `start` is listed (first) only when the choice includes it. */
  method OutComponent(net: Network, start: nat, choice: ComponentChoice) returns (component: seq<nat>)
    requires ValidNodes(net.nodes) && start < |net.nodes|
    ensures Distinct(component)
    ensures start in component <==> IncludesSelf(choice)
    ensures forall v :: v in component ==> v < |net.nodes| && Reachable(net.nodes, start, v)
    ensures forall v: nat :: v < |net.nodes| && v != start && Reachable(net.nodes, start, v) ==> v in component
    ensures |component| == ComponentSize(net.nodes, start, choice)
  {
    var nodes := net.nodes;
    var n := |nodes|;
    var processed := new bool[n](_ => false);
    processed[start] := true;
    var stack := [start];
    component := [];
    if IncludesSelf(choice) {
      component := [start];
    }
    ghost var seen: set<nat> := {start};
    ReachRefl(nodes, start);
    while stack != []
      invariant SearchState(nodes, start, choice, processed[..], seen, component, stack)
      invariant Explored(nodes, seen, stack)
      decreases n - |seen|, |stack|
    {
      BoundedSetCard(seen, n);
      var index := stack[|stack| - 1];
      ghost var seen0, stack0 := seen, stack;
      stack := stack[..|stack| - 1];
      assert index in stack0;
      stack, component, seen := VisitEdges(nodes, start, choice, index, processed, stack, component, seen);
      ExploredStep(nodes, index, seen0, stack0, seen, stack);
      SubsetCard(seen0, seen);
    }
    forall v: nat | v < n && v != start && Reachable(nodes, start, v)
      ensures v in component
    {
      ClosedContainsReach(nodes, seen, start, v);
    }
    ComponentSizeOfSet(nodes, start, choice, component);
  }

  /** After node `index` is popped and its successors visited, the nodes off
      the stack are still explored. */
  lemma {:induction false} ExploredStep(nodes: seq<Node>, index: nat, seen0: set<nat>, stack0: seq<nat>, seen: set<nat>, stack: seq<nat>)
    requires stack0 != [] && index == stack0[|stack0| - 1] && index < |nodes|
    requires Explored(nodes, seen0, stack0)
    requires seen0 <= seen
    requires forall v :: v in stack0[..|stack0| - 1] ==> v in stack
    requires forall v :: v in seen && v !in seen0 ==> v in stack
    requires forall m :: 0 <= m < |nodes[index].adj| ==> nodes[index].adj[m].index in seen
    ensures Explored(nodes, seen, stack)
  {
    forall u, m | u in seen && u !in stack && u < |nodes| && 0 <= m < |nodes[u].adj|
      ensures nodes[u].adj[m].index in seen
    {
      if u != index {
        assert u in seen0;
        assert u !in stack0[..|stack0| - 1];
        assert stack0 == stack0[..|stack0| - 1] + [index];
        assert u !in stack0;
      }
    }
  }

  /** The inner loop of `out_component`: every successor of `index` that was
      not processed yet is marked, pushed and listed. */
  method VisitEdges(nodes: seq<Node>, start: nat, choice: ComponentChoice, index: nat, processed: array<bool>,
                    stack: seq<nat>, component: seq<nat>, ghost seen: set<nat>)
    returns (stack': seq<nat>, component': seq<nat>, ghost seen': set<nat>)
    requires ValidNodes(nodes) && index in seen
    requires SearchState(nodes, start, choice, processed[..], seen, component, stack)
    modifies processed
    ensures SearchState(nodes, start, choice, processed[..], seen', component', stack')
    ensures Grown(seen, stack, seen', stack')
    ensures forall m :: 0 <= m < |nodes[index].adj| ==> nodes[index].adj[m].index in seen'
  {
    var adj := nodes[index].adj;
    stack', component', seen' := stack, component, seen;
    for k := 0 to |adj|
      invariant SearchState(nodes, start, choice, processed[..], seen', component', stack')
      invariant Grown(seen, stack, seen', stack')
      invariant forall m :: 0 <= m < k ==> adj[m].index in seen'
    {
      var t := adj[k].index;
      assert HasEdge(nodes, index, t);
      ReachStep(nodes, start, index, t);
      stack', component', seen' := Visit(nodes, start, choice, processed, t, seen, stack, stack', component', seen');
    }
  }

  /** One successor `t` in the inner loop of `out_component`: when it is not
      processed yet it is marked, pushed and listed. */
  method Visit(nodes: seq<Node>, start: nat, choice: ComponentChoice, processed: array<bool>, t: nat,
               ghost seen0: set<nat>, ghost stack0: seq<nat>,
               stack: seq<nat>, component: seq<nat>, ghost seen: set<nat>)
    returns (stack': seq<nat>, component': seq<nat>, ghost seen': set<nat>)
    requires t < |nodes| && Reachable(nodes, start, t)
    requires SearchState(nodes, start, choice, processed[..], seen, component, stack)
    requires Grown(seen0, stack0, seen, stack)
    modifies processed
    ensures SearchState(nodes, start, choice, processed[..], seen', component', stack')
    ensures Grown(seen0, stack0, seen', stack')
    ensures seen <= seen' && t in seen'
  {
    stack', component', seen' := stack, component, seen;
    if !processed[t] {
      ghost var flags := processed[..];
      VisitStep(nodes, start, choice, flags, seen, component, stack, t);
      GrownStep(seen0, stack0, seen, stack, t);
      processed[t] := true;
      assert processed[..] == flags[t := true];
      component' := component + [t];
      stack' := stack + [t];
      seen' := seen + {t};
    }
  }

  /** The search only grows: the nodes seen before stay seen, the stack
      keeps its nodes and gains exactly the newly seen ones. */
  ghost predicate Grown(seen: set<nat>, stack: seq<nat>, seen': set<nat>, stack': seq<nat>)
  {
    seen <= seen' && |stack'| - |stack| == |seen'| - |seen| &&
    (forall v :: v in stack ==> v in stack') &&
    (forall v :: v in seen' && v !in seen ==> v in stack')
  }

  lemma {:induction false} GrownStep(seen: set<nat>, stack: seq<nat>, seen': set<nat>, stack': seq<nat>, t: nat)
    requires Grown(seen, stack, seen', stack') && t !in seen'
    ensures Grown(seen, stack, seen' + {t}, stack' + [t])
  {
  }

  /** Marking, pushing and listing a newly found reachable node keeps the
      search state. */
  lemma {:induction false} VisitStep(nodes: seq<Node>, start: nat, choice: ComponentChoice, flags: seq<bool>,
                  seen: set<nat>, component: seq<nat>, stack: seq<nat>, t: nat)
    requires SearchState(nodes, start, choice, flags, seen, component, stack)
    requires t < |nodes| && !flags[t] && Reachable(nodes, start, t)
    ensures t !in seen
    ensures SearchState(nodes, start, choice, flags[t := true], seen + {t}, component + [t], stack + [t])
  {
    var c := component + [t];
    forall i, j | 0 <= i < j < |c|
      ensures c[i] != c[j]
    {
      if j == |c| - 1 {
        assert c[i] in component;
      }
    }
  }

  /** A node reachable from `j` has an out-component no larger than `j`'s. */
  lemma {:induction false} ComponentMonotone(nodes: seq<Node>, j: nat, v: nat, choice: ComponentChoice)
    requires j < |nodes| && v < |nodes| && Reachable(nodes, j, v)
    ensures ComponentSize(nodes, v, choice) <= ComponentSize(nodes, j, choice)
  {
    var rj := ReachSet(nodes, j);
    var rv := ReachSet(nodes, v);
    forall w | w in rv ensures w in rj {
      ReachTrans(nodes, j, v, w);
    }
    ReachRefl(nodes, j);
    ReachRefl(nodes, v);
    if IncludesSelf(choice) {
      SubsetCard(rv, rj);
    } else {
      SubsetCard(rv - {v}, rj - {v});
      assert rj == (rj - {v}) + {v};
      assert rj == (rj - {j}) + {j};
    }
  }

  /** `largest_out_component`: the size of the largest out-component, where
      nodes already found inside an earlier component are skipped. */
  method LargestOutComponent(net: Network, choice: ComponentChoice) returns (maxSize: nat)
    requires ValidNodes(net.nodes)
    ensures forall i :: 0 <= i < |net.nodes| ==> ComponentSize(net.nodes, i, choice) <= maxSize
    ensures |net.nodes| == 0 ==> maxSize == 0
    ensures |net.nodes| > 0 ==> exists i :: 0 <= i < |net.nodes| && maxSize == ComponentSize(net.nodes, i, choice)
  {
    var n := |net.nodes|;
    var checked := new bool[n](_ => false);
    maxSize := 0;
    for i := 0 to n
      invariant forall v :: 0 <= v < i ==> checked[v]
      invariant forall v :: 0 <= v < n && checked[v] ==> ComponentSize(net.nodes, v, choice) <= maxSize
      invariant i == 0 ==> maxSize == 0
      invariant i > 0 ==> exists j :: 0 <= j < i && maxSize == ComponentSize(net.nodes, j, choice)
    {
      if !checked[i] {
        checked[i] := true;
        var comp := OutComponent(net, i, choice);
        var size := |comp|;
        ghost var newMax := if size > maxSize then size else maxSize;
        for k := 0 to |comp|
          invariant checked[i]
          invariant forall v :: 0 <= v < i ==> checked[v]
          invariant forall v :: 0 <= v < n && checked[v] ==> ComponentSize(net.nodes, v, choice) <= newMax
        {
          assert comp[k] in comp;
          ComponentMonotone(net.nodes, i, comp[k], choice);
          checked[comp[k]] := true;
        }
        if size > maxSize {
          maxSize := size;
        }
      }
    }
  }
}
