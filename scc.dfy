/** `scc_recursive` of `src/network/directed_network.rs`: Tarjan's
    strongly connected components, with the numbering state of
    `src/network/helper_structs.rs`. */
module Scc {
  import opened Common
  import opened Graph
  import opened HelperStructs
  import opened DirectedNetwork
  import opened SccState

  /** The popping loop of a root: nodes are popped until one numbered below
      the root turns up (it is pushed back) or the stack is empty. The
      nodes from the root upward form the new component. */
  method PopComponent(num: array<TarjanNumber>, stack: seq<nat>, base: nat, thisNum: nat)
    returns (rest: seq<nat>, comp: seq<nat>)
    requires PopReady(num[..], stack, base, thisNum)
    ensures rest == stack[..base]
    ensures multiset(rest) + multiset(comp) == multiset(stack)
    ensures comp != []
  {
    rest := stack;
    comp := [];
    while rest != []
      invariant base <= |rest| <= |stack|
      invariant rest == stack[..|rest|]
      invariant multiset(rest) + multiset(comp) == multiset(stack)
      invariant |rest| < |stack| ==> comp != []
    {
      assert rest[|rest| - 1] == stack[|rest| - 1];
      assert stack[|rest| - 1] in stack;
      var top := rest[|rest| - 1];
      var popped := rest[..|rest| - 1];
      assert rest == popped + [top];
      if GetNum(num[top]) < thisNum {
        break;
      }
      rest := popped;
      comp := comp + [top];
    }
    assert |rest| == base;
  }

  /** The start of `rec`: `id` gets the next number, as number and as low
      link, and is pushed. */
  method Enter(nodes: seq<Node>, id: nat, thisNum: Positive, low: array<TarjanNumber>, num: array<TarjanNumber>,
               components: seq<seq<nat>>, stack: seq<nat>)
    requires num.Length == |nodes| && low.Length == |nodes| && num != low
    requires id < |nodes| && num[id].NotVisited?
    requires Accounted(num[..], components, stack)
    modifies low, num
    ensures num[..] == old(num[..])[id := Visited(thisNum)]
    ensures low[..] == old(low[..])[id := Visited(thisNum)]
    ensures Accounted(num[..], components, stack + [id])
  {
    ghost var num0 := num[..];
    num[id] := Visited(thisNum);
    low[id] := num[id];
    assert forall v :: 0 <= v < |nodes| && v != id ==> num[v] == num0[v];
    assert (multiset(Flatten(components)) + multiset(stack + [id])) == (multiset(Flatten(components)) + multiset(stack)) + multiset{id};
  }

  /** `rec` of `scc_recursive`: number `id`, push it, visit its edges
      (recursing into unvisited targets, lowering the link through targets
      still on the stack), and close a component when `id` is a root.
      `bound` is a number no node on the stack is below; the low link of
      `id` stays at or above it. */
  method Rec(nodes: seq<Node>, id: nat, counter: Positive, low: array<TarjanNumber>, num: array<TarjanNumber>,
             stack: seq<nat>, components: seq<seq<nat>>, ghost bound: nat)
    returns (counterOut: Positive, stackOut: seq<nat>, componentsOut: seq<seq<nat>>)
    requires ValidNodes(nodes) && num.Length == |nodes| && low.Length == |nodes| && num != low
    requires RecPre(num[..], id, counter, stack, components, bound)
    modifies low, num
    ensures RecPost(old(num[..]), old(low[..]), num[..], low[..], id, counter, counterOut, stack, stackOut, componentsOut, bound)
    decreases |UnvisitedSet(num[..])|, 0
  {
    ghost var num0, low0 := num[..], low[..];
    var thisNum := counter;
    Enter(nodes, id, thisNum, low, num, components, stack);
    RecStackBefore(num0, id, thisNum, stack, components, bound);
    EnterState(num0, low0, num[..], low[..], id, thisNum, stack, components, bound);
    UnvisitedShrinks(num0, num[..], id);
    counterOut, stackOut, componentsOut :=
      VisitEdges(nodes, id, thisNum, thisNum + 1, low, num, stack, stack + [id], components, num0, low0, bound);
    stackOut, componentsOut := CloseIfRoot(nodes, id, thisNum, counterOut, low, num, stack, stackOut, componentsOut, num0, low0, bound);
  }

  /** The end of `rec`: when the link of `id` is still its own number, `id`
      is a root and the nodes above it on the stack become a component. */
  method CloseIfRoot(nodes: seq<Node>, id: nat, thisNum: Positive, counter: Positive,
                     low: array<TarjanNumber>, num: array<TarjanNumber>,
                     stack: seq<nat>, cur: seq<nat>, components: seq<seq<nat>>,
                     ghost num0: seq<TarjanNumber>, ghost low0: seq<TarjanNumber>, ghost bound: nat)
    returns (stackOut: seq<nat>, componentsOut: seq<seq<nat>>)
    requires num.Length == |nodes| && low.Length == |nodes|
    requires EdgeState(num0, low0, num[..], low[..], id, thisNum, counter, stack, cur, components, bound)
    requires StackBefore(num0, stack, thisNum, bound)
    ensures RecPost(num0, low0, num[..], low[..], id, thisNum, counter, stack, stackOut, componentsOut, bound)
  {
    StackBelow(num0, low0, num[..], low[..], id, thisNum, counter, stack, cur, components, bound);
    stackOut, componentsOut := cur, components;
    if low[id] == num[id] {
      var rest, comp := PopComponent(num, cur, |stack|, thisNum);
      AccountedClose(num[..], components, cur, rest, comp);
      stackOut := rest;
      componentsOut := components + [comp];
    }
    CloseState(num0, low0, num[..], low[..], id, thisNum, counter, stack, cur, components, stackOut, componentsOut, bound);
  }

  /** The edge loop of `rec`, over the adjacency list of `id`. */
  method VisitEdges(nodes: seq<Node>, id: nat, thisNum: Positive, counter: Positive,
                    low: array<TarjanNumber>, num: array<TarjanNumber>,
                    stack: seq<nat>, cur: seq<nat>, components: seq<seq<nat>>,
                    ghost num0: seq<TarjanNumber>, ghost low0: seq<TarjanNumber>, ghost bound: nat)
    returns (counterOut: Positive, stackOut: seq<nat>, componentsOut: seq<seq<nat>>)
    requires ValidNodes(nodes) && num.Length == |nodes| && low.Length == |nodes| && num != low
    requires EdgeState(num0, low0, num[..], low[..], id, thisNum, counter, stack, cur, components, bound)
    modifies low, num
    ensures EdgeState(num0, low0, num[..], low[..], id, thisNum, counterOut, stack, stackOut, componentsOut, bound)
    decreases |UnvisitedSet(num[..])|, 3
  {
    ghost var numE := num[..];
    counterOut, stackOut, componentsOut := counter, cur, components;
    var adj := nodes[id].adj;
    for k := 0 to |adj|
      invariant EdgeState(num0, low0, num[..], low[..], id, thisNum, counterOut, stack, stackOut, componentsOut, bound)
      invariant NoneLost(numE, num[..])
    {
      UnvisitedNoGrowth(numE, num[..]);
      ghost var numK := num[..];
      counterOut, stackOut, componentsOut :=
        VisitEdge(nodes, id, adj[k].index, thisNum, counterOut, low, num, stack, stackOut, componentsOut, num0, low0, bound);
      NoneLostTrans(numE, numK, num[..]);
    }
  }

  /** One edge `id -> t` of `rec`: recurse into a target not numbered yet
      and lower the link of `id` to the target's; lower it to the number of
      a target numbered earlier that is still on the stack; ignore the rest.
      The pre- and postconditions are the edge loop's invariant. */
  method VisitEdge(nodes: seq<Node>, id: nat, t: nat, thisNum: Positive, counter: Positive,
                   low: array<TarjanNumber>, num: array<TarjanNumber>,
                   stack: seq<nat>, cur: seq<nat>, components: seq<seq<nat>>,
                   ghost num0: seq<TarjanNumber>, ghost low0: seq<TarjanNumber>, ghost bound: nat)
    returns (counterOut: Positive, stackOut: seq<nat>, componentsOut: seq<seq<nat>>)
    requires ValidNodes(nodes) && num.Length == |nodes| && low.Length == |nodes| && num != low && t < |nodes|
    requires EdgeState(num0, low0, num[..], low[..], id, thisNum, counter, stack, cur, components, bound)
    modifies low, num
    ensures EdgeState(num0, low0, num[..], low[..], id, thisNum, counterOut, stack, stackOut, componentsOut, bound)
    ensures NoneLost(old(num[..]), num[..])
    decreases |UnvisitedSet(num[..])|, 2
  {
    counterOut, stackOut, componentsOut := counter, cur, components;
    match num[t]
    case NotVisited =>
      counterOut, stackOut, componentsOut := Descend(nodes, id, t, thisNum, counter, low, num, stack, cur, components, num0, low0, bound);
    case Visited(w) =>
      if w < thisNum && t in cur {
        LowerStep(num0, low0, num[..], low[..], id, t, thisNum, counter, stack, cur, components, bound);
        low[id] := Min(low[id], Visited(w));
        assert low[..] == old(low[..])[id := Min(old(low[id]), num[t])];
      }
  }

  /** The edge to a target not numbered yet: `rec` from it, then the link
      of `id` drops to the target's if that is lower. */
  method Descend(nodes: seq<Node>, id: nat, t: nat, thisNum: Positive, counter: Positive,
                 low: array<TarjanNumber>, num: array<TarjanNumber>,
                 stack: seq<nat>, cur: seq<nat>, components: seq<seq<nat>>,
                 ghost num0: seq<TarjanNumber>, ghost low0: seq<TarjanNumber>, ghost bound: nat)
    returns (counterOut: Positive, stackOut: seq<nat>, componentsOut: seq<seq<nat>>)
    requires ValidNodes(nodes) && num.Length == |nodes| && low.Length == |nodes| && num != low && t < |nodes|
    requires EdgeState(num0, low0, num[..], low[..], id, thisNum, counter, stack, cur, components, bound)
    requires num[t].NotVisited?
    modifies low, num
    ensures EdgeState(num0, low0, num[..], low[..], id, thisNum, counterOut, stack, stackOut, componentsOut, bound)
    ensures NoneLost(old(num[..]), num[..])
    decreases |UnvisitedSet(num[..])|, 1
  {
    ghost var num1, low1 := num[..], low[..];
    EdgeRecPre(num0, low0, num1, low1, id, t, thisNum, counter, stack, cur, components, bound);
    counterOut, stackOut, componentsOut := Rec(nodes, t, counter, low, num, cur, components, bound);
    ghost var num2, low2 := num[..], low[..];
    DescendStep(num0, low0, num1, low1, num2, low2, id, t, thisNum, counter, counterOut, stack, cur, stackOut,
                components, componentsOut, bound);
    low[id] := Min(low[id], low[t]);
    assert low[..] == low2[id := Min(low2[id], low2[t])];
  }

  /** `scc_recursive`: `rec` from every node not numbered yet, clearing the
      stack after each. The components partition the nodes: every node is in
      exactly one of them, once, so their lengths add up to the node count
      (the closing `assert_eq!`). */
  method SccRecursive(net: Network) returns (components: seq<seq<nat>>)
    requires ValidNodes(net.nodes)
    ensures forall c :: c in components ==> c != []
    ensures forall v :: multiset(Flatten(components))[v] == if 0 <= v < |net.nodes| then 1 else 0
    ensures |Flatten(components)| == |net.nodes|
  {
    var n := |net.nodes|;
    var counter: Positive := 1;
    var stack: seq<nat> := [];
    var numbers := new TarjanNumber[n](_ => NotVisited);
    var lowLink := new TarjanNumber[n](_ => NotVisited);
    components := [];
    for i := 0 to n
      invariant stack == []
      invariant Accounted(numbers[..], components, stack)
      invariant forall c :: c in components ==> c != []
      invariant forall v :: 0 <= v < i ==> numbers[v].Visited?
      invariant NumberedBelow(numbers[..], counter)
    {
      if IsNotVisited(numbers[i]) {
        ghost var before := numbers[..];
        counter, stack, components := Rec(net.nodes, i, counter, lowLink, numbers, stack, components, counter);
        assert forall v :: 0 <= v < i ==> before[v].Visited?;
        // the stack is already empty here: the start node is always a root
        assert stack == [];
        stack := [];
      }
    }
    assert forall v :: multiset(Flatten(components))[v] == (multiset(Flatten(components)) + multiset(stack))[v];
    OnceEachCard(multiset(Flatten(components)), n);
  }
}
