/** The bookkeeping of Tarjan's algorithm in `scc_recursive`
    (`src/network/directed_network.rs`): what the numbering, the low links,
    the stack and the finished components satisfy before and after each
    step of `rec`. */
module SccState {
  import opened Common
  import opened HelperStructs

  /** The components one after the other. */
  function Flatten(cs: seq<seq<nat>>): seq<nat>
  {
    if cs == [] then [] else Flatten(cs[..|cs| - 1]) + cs[|cs| - 1]
  }

  /** Every visited node is, exactly once, either in a finished component or
      on the stack; nothing else is in either. */
  ghost predicate Accounted(num: seq<TarjanNumber>, components: seq<seq<nat>>, stack: seq<nat>)
  {
    forall v :: (multiset(Flatten(components)) + multiset(stack))[v] == if 0 <= v < |num| && num[v].Visited? then 1 else 0
  }

  ghost function UnvisitedSet(num: seq<TarjanNumber>): set<nat>
  {
    set v: nat | v < |num| && num[v].NotVisited?
  }

  lemma {:induction false} UnvisitedShrinks(before: seq<TarjanNumber>, after: seq<TarjanNumber>, id: nat)
    requires NoneLost(before, after) && id < |before| && before[id].NotVisited? && after[id].Visited?
    ensures |UnvisitedSet(after)| < |UnvisitedSet(before)|
  {
    var a := UnvisitedSet(after);
    var b := UnvisitedSet(before);
    assert a <= b - {id};
    SubsetCard(a, b - {id});
    assert b == (b - {id}) + {id};
  }

  lemma {:induction false} UnvisitedNoGrowth(before: seq<TarjanNumber>, after: seq<TarjanNumber>)
    requires NoneLost(before, after)
    ensures |UnvisitedSet(after)| <= |UnvisitedSet(before)|
  {
    SubsetCard(UnvisitedSet(after), UnvisitedSet(before));
  }

  lemma {:induction false} NoneLostTrans(a: seq<TarjanNumber>, b: seq<TarjanNumber>, c: seq<TarjanNumber>)
    requires NoneLost(a, b) && NoneLost(b, c)
    ensures NoneLost(a, c)
  {
  }

  lemma {:induction false} FlattenSnoc(cs: seq<seq<nat>>, c: seq<nat>)
    ensures Flatten(cs + [c]) == Flatten(cs) + c
  {
    assert (cs + [c])[..|cs|] == cs;
  }

  lemma {:induction false} FlattenMember(cs: seq<seq<nat>>, v: nat)
    requires v in Flatten(cs)
    ensures exists c :: c in cs && v in c
  {
    if cs != [] {
      var init := cs[..|cs| - 1];
      if v in Flatten(init) {
        FlattenMember(init, v);
        var c :| c in init && v in c;
        assert c in cs;
      } else {
        assert v in cs[|cs| - 1];
      }
    }
  }

  /** A multiset that holds every node index once and nothing else has as
      many elements as there are nodes. */
  lemma {:induction false} OnceEachCard(m: multiset<nat>, n: nat)
    requires forall v :: m[v] == if 0 <= v < n then 1 else 0
    ensures |m| == n
  {
    if n == 0 {
      assert m == multiset{};
    } else {
      var m' := m - multiset{n - 1};
      OnceEachCard(m', n - 1);
      assert m == m' + multiset{n - 1};
    }
  }

  /** No node loses its number from `before` to `after`. */
  ghost predicate NoneLost(before: seq<TarjanNumber>, after: seq<TarjanNumber>)
  {
    |before| == |after| && forall v :: 0 <= v < |after| && after[v].NotVisited? ==> before[v].NotVisited?
  }

  /** Every number given so far is below `counter`. */
  ghost predicate NumberedBelow(num: seq<TarjanNumber>, counter: nat)
  {
    forall v :: 0 <= v < |num| && num[v].Visited? ==> num[v].num < counter
  }

  /** From `num0`, `low0` to `num`, `low`: numbered nodes keep their number
      and link, nodes numbered since are numbered at least `thisNum`, and
      no node loses its number. */
  ghost predicate Grew(num0: seq<TarjanNumber>, low0: seq<TarjanNumber>, num: seq<TarjanNumber>, low: seq<TarjanNumber>, thisNum: nat)
  {
    |low0| == |num0| && |low| == |num| && NoneLost(num0, num) &&
    (forall v :: 0 <= v < |num| && num0[v].Visited? ==> num[v] == num0[v] && low[v] == low0[v]) &&
    (forall v :: 0 <= v < |num| && num0[v].NotVisited? && num[v].Visited? ==> num[v].num >= thisNum)
  }

  /** The stack while the edges of `id` are visited: `stack`, then `id`,
      then nodes numbered since; all numbered at least `bound`. */
  ghost predicate StackAbove(num: seq<TarjanNumber>, stack: seq<nat>, id: nat, cur: seq<nat>, thisNum: nat, bound: nat)
  {
    |cur| > |stack| && cur[..|stack| + 1] == stack + [id] &&
    (forall p :: |stack| <= p < |cur| ==> cur[p] < |num| && num[cur[p]].Visited? && num[cur[p]].num >= thisNum) &&
    (forall v :: v in cur ==> v < |num| && num[v].Visited? && num[v].num >= bound)
  }

  /** What `rec` from `id` assumes: `id` has no number yet, the numbers
      are below the counter, the components and the stack account for the
      numbered nodes, and the stack is numbered at least `bound`. */
  ghost predicate RecPre(num: seq<TarjanNumber>, id: nat, counter: nat, stack: seq<nat>, components: seq<seq<nat>>, bound: nat)
  {
    id < |num| && num[id].NotVisited? && NumberedBelow(num, counter) &&
    Accounted(num, components, stack) && (forall c :: c in components ==> c != []) &&
    (forall v :: v in stack ==> v < |num| && num[v].Visited? && num[v].num >= bound) && bound <= counter
  }

  /** What `rec` from `id` promises: `id` got the number `counter`, its low
      link lies between `bound` and that, the nodes numbered meanwhile got
      numbers from `counter` on, the stack grew from `stack` by nodes
      numbered meanwhile, and it is back at `stack` when `id` is a root. */
  ghost predicate RecPost(num0: seq<TarjanNumber>, low0: seq<TarjanNumber>, num: seq<TarjanNumber>, low: seq<TarjanNumber>,
                          id: nat, counter: nat, counterOut: nat, stack: seq<nat>, stackOut: seq<nat>,
                          componentsOut: seq<seq<nat>>, bound: nat)
  {
    counterOut > counter && NumberedBelow(num, counterOut) && Grew(num0, low0, num, low, counter) &&
    id < |num| && num[id].Visited? && num[id].num == counter &&
    low[id].Visited? && bound <= low[id].num <= counter &&
    Accounted(num, componentsOut, stackOut) && (forall c :: c in componentsOut ==> c != []) &&
    |stackOut| >= |stack| && stackOut[..|stack|] == stack &&
    (forall p :: |stack| <= p < |stackOut| ==> stackOut[p] < |num| && num[stackOut[p]].Visited? && num[stackOut[p]].num >= counter) &&
    (forall v :: v in stackOut ==> v < |num| && num[v].Visited? && num[v].num >= bound) &&
    (low[id].num == counter ==> stackOut == stack)
  }

  /** The state of the edge loop of `rec` from `id`, numbered `thisNum`,
      which started from `num0`, `low0`. */
  ghost predicate EdgeState(num0: seq<TarjanNumber>, low0: seq<TarjanNumber>, num: seq<TarjanNumber>, low: seq<TarjanNumber>,
                            id: nat, thisNum: nat, counter: nat, stack: seq<nat>, cur: seq<nat>,
                            components: seq<seq<nat>>, bound: nat)
  {
    Grew(num0, low0, num, low, thisNum) && id < |num| && num0[id].NotVisited? &&
    counter > thisNum && NumberedBelow(num, counter) &&
    num[id].Visited? && num[id].num == thisNum && low[id].Visited? && bound <= low[id].num <= thisNum &&
    Accounted(num, components, cur) && (forall c :: c in components ==> c != []) &&
    StackAbove(num, stack, id, cur, thisNum, bound)
  }

  /** Right after `id` is numbered and pushed, the edge loop's state holds. */
  lemma {:induction false} EnterState(num0: seq<TarjanNumber>, low0: seq<TarjanNumber>, num: seq<TarjanNumber>, low: seq<TarjanNumber>,
                   id: nat, thisNum: Positive, stack: seq<nat>, components: seq<seq<nat>>, bound: nat)
    requires RecPre(num0, id, thisNum, stack, components, bound) && |low0| == |num0|
    requires num == num0[id := Visited(thisNum)] && low == low0[id := Visited(thisNum)]
    requires Accounted(num, components, stack + [id])
    ensures EdgeState(num0, low0, num, low, id, thisNum, thisNum + 1, stack, stack + [id], components, bound)
  {
    assert (stack + [id])[..|stack| + 1] == stack + [id];
    forall v | v in stack + [id]
      ensures v < |num| && num[v].Visited? && num[v].num >= bound
    {
      if v != id {
        assert v in stack;
      }
    }
  }

  /** The target `t` of an edge, not numbered yet, may start a `rec`. */
  lemma {:induction false} EdgeRecPre(num0: seq<TarjanNumber>, low0: seq<TarjanNumber>, num: seq<TarjanNumber>, low: seq<TarjanNumber>,
                   id: nat, t: nat, thisNum: nat, counter: nat, stack: seq<nat>, cur: seq<nat>,
                   components: seq<seq<nat>>, bound: nat)
    requires EdgeState(num0, low0, num, low, id, thisNum, counter, stack, cur, components, bound)
    requires t < |num| && num[t].NotVisited?
    ensures RecPre(num, t, counter, cur, components, bound)
  {
  }

  /** After `rec` from `t` and lowering the link of `id` to the target's,
      the edge loop's state holds again. */
  lemma {:induction false} DescendStep(num0: seq<TarjanNumber>, low0: seq<TarjanNumber>, num1: seq<TarjanNumber>, low1: seq<TarjanNumber>,
                    num2: seq<TarjanNumber>, low2: seq<TarjanNumber>, id: nat, t: nat, thisNum: nat,
                    counter: nat, counterOut: nat, stack: seq<nat>, cur: seq<nat>, stackOut: seq<nat>,
                    components: seq<seq<nat>>, componentsOut: seq<seq<nat>>, bound: nat)
    requires EdgeState(num0, low0, num1, low1, id, thisNum, counter, stack, cur, components, bound)
    requires t < |num1| && num1[t].NotVisited?
    requires RecPost(num1, low1, num2, low2, t, counter, counterOut, cur, stackOut, componentsOut, bound)
    ensures EdgeState(num0, low0, num2, low2[id := Min(low2[id], low2[t])], id, thisNum, counterOut, stack, stackOut, componentsOut, bound)
    ensures NoneLost(num1, num2)
  {
    StackAfterRec(num1, num2, low1, low2, stack, id, cur, stackOut, thisNum, counter, bound);
  }

  /** Lowering the link of `id` to the number of a node on the stack keeps
      the edge loop's state. */
  lemma {:induction false} LowerStep(num0: seq<TarjanNumber>, low0: seq<TarjanNumber>, num: seq<TarjanNumber>, low: seq<TarjanNumber>,
                  id: nat, t: nat, thisNum: nat, counter: nat, stack: seq<nat>, cur: seq<nat>,
                  components: seq<seq<nat>>, bound: nat)
    requires EdgeState(num0, low0, num, low, id, thisNum, counter, stack, cur, components, bound)
    requires t < |num| && num[t].Visited? && num[t].num < thisNum && t in cur
    ensures EdgeState(num0, low0, num, low[id := Min(low[id], num[t])], id, thisNum, counter, stack, cur, components, bound)
  {
  }

  /** After a recursive `rec` from the stack `cur`, the stack still starts
      with `stack` and `id`, and the rest was numbered since `thisNum`. */
  lemma {:induction false} StackAfterRec(n1: seq<TarjanNumber>, n2: seq<TarjanNumber>, l1: seq<TarjanNumber>, l2: seq<TarjanNumber>,
                      stack: seq<nat>, id: nat, cur: seq<nat>, out: seq<nat>, thisNum: nat, counter: nat, bound: nat)
    requires StackAbove(n1, stack, id, cur, thisNum, bound) && Grew(n1, l1, n2, l2, counter) && thisNum <= counter
    requires |out| >= |cur| && out[..|cur|] == cur
    requires forall p :: |cur| <= p < |out| ==> out[p] < |n2| && n2[out[p]].Visited? && n2[out[p]].num >= counter
    requires forall v :: v in out ==> v < |n2| && n2[v].Visited? && n2[v].num >= bound
    ensures StackAbove(n2, stack, id, out, thisNum, bound)
  {
    assert out[..|stack| + 1] == cur[..|stack| + 1];
    forall p | |stack| <= p < |out|
      ensures out[p] < |n2| && n2[out[p]].Visited? && n2[out[p]].num >= thisNum
    {
      if p < |cur| {
        assert out[p] == cur[p];
      }
    }
  }

  /** The nodes of `stack` were numbered before `rec` from a node numbered
      `thisNum` began: below that number, and at least `bound`. */
  ghost predicate StackBefore(num0: seq<TarjanNumber>, stack: seq<nat>, thisNum: nat, bound: nat)
  {
    forall v :: v in stack ==> v < |num0| && num0[v].Visited? && bound <= num0[v].num < thisNum
  }

  lemma {:induction false} RecStackBefore(num0: seq<TarjanNumber>, id: nat, counter: nat, stack: seq<nat>, components: seq<seq<nat>>, bound: nat)
    requires RecPre(num0, id, counter, stack, components, bound)
    ensures StackBefore(num0, stack, counter, bound)
  {
  }

  /** What the popping loop of a root needs: the stack is numbered, below
      `base` with numbers under `thisNum`, from `base` on with numbers from
      `thisNum` on. */
  ghost predicate PopReady(num: seq<TarjanNumber>, stack: seq<nat>, base: nat, thisNum: nat)
  {
    base < |stack| &&
    (forall v :: v in stack ==> v < |num| && num[v].Visited?) &&
    (forall p :: 0 <= p < base ==> stack[p] < |num| && num[stack[p]].Visited? && num[stack[p]].num < thisNum) &&
    (forall p :: base <= p < |stack| ==> stack[p] < |num| && num[stack[p]].Visited? && num[stack[p]].num >= thisNum)
  }

  /** So at the end of the edge loop the stack below `id` is `stack`,
      numbered below `id`. */
  lemma {:induction false} StackBelow(num0: seq<TarjanNumber>, low0: seq<TarjanNumber>, num: seq<TarjanNumber>, low: seq<TarjanNumber>,
                   id: nat, thisNum: nat, counter: nat, stack: seq<nat>, cur: seq<nat>,
                   components: seq<seq<nat>>, bound: nat)
    requires EdgeState(num0, low0, num, low, id, thisNum, counter, stack, cur, components, bound)
    requires StackBefore(num0, stack, thisNum, bound)
    ensures cur[..|stack|] == stack
    ensures PopReady(num, cur, |stack|, thisNum)
  {
    PrefixShorter(cur, stack, id);
    forall p | 0 <= p < |stack|
      ensures cur[p] < |num| && num[cur[p]].Visited? && num[cur[p]].num < thisNum
    {
      assert cur[p] == stack[p] && stack[p] in stack;
    }
  }

  /** Popping the component `comp` off `cur` down to `rest`, the
      bookkeeping still accounts for every numbered node. */
  lemma {:induction false} AccountedClose(num: seq<TarjanNumber>, components: seq<seq<nat>>, cur: seq<nat>, rest: seq<nat>, comp: seq<nat>)
    requires Accounted(num, components, cur) && multiset(rest) + multiset(comp) == multiset(cur)
    ensures Accounted(num, components + [comp], rest)
  {
    FlattenSnoc(components, comp);
    assert multiset(Flatten(components + [comp])) + multiset(rest) == multiset(Flatten(components)) + multiset(cur);
  }

  /** A root closes its component: the stack is back at `stack`; otherwise
      it stays as it is. Either way `rec` keeps its promise. */
  lemma {:induction false} CloseState(num0: seq<TarjanNumber>, low0: seq<TarjanNumber>, num: seq<TarjanNumber>, low: seq<TarjanNumber>,
                   id: nat, thisNum: nat, counter: nat, stack: seq<nat>, cur: seq<nat>,
                   components: seq<seq<nat>>, stackOut: seq<nat>, componentsOut: seq<seq<nat>>, bound: nat)
    requires EdgeState(num0, low0, num, low, id, thisNum, counter, stack, cur, components, bound)
    requires cur[..|stack|] == stack
    requires Accounted(num, componentsOut, stackOut) && (forall c :: c in componentsOut ==> c != [])
    requires low[id].num == thisNum ==> stackOut == stack
    requires low[id].num != thisNum ==> stackOut == cur
    requires StackBefore(num0, stack, thisNum, bound)
    ensures RecPost(num0, low0, num, low, id, thisNum, counter, stack, stackOut, componentsOut, bound)
  {
  }
}
