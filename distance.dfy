/** Path lengths in the networks of `src/network/directed_network.rs`:
    the nodes within a number of steps of a start node, the eccentricity
    that the breadth-first search of `diameter` counts, and the diameter as
    the largest eccentricity. */
module Distance {
  import opened Graph
  import opened Reachability

  /** `t` can be reached from `s` by a path of at most `k` edges. */
  ghost predicate Within(nodes: seq<Node>, s: nat, t: nat, k: nat)
  {
    exists p :: IsPath(nodes, p) && p[0] == s && p[|p| - 1] == t && |p| <= k + 1
  }

  lemma {:induction false} WithinZero(nodes: seq<Node>, s: nat, t: nat)
    ensures Within(nodes, s, t, 0) <==> t == s
  {
    if t == s {
      assert IsPath(nodes, [s]);
    }
    if Within(nodes, s, t, 0) {
      var p :| IsPath(nodes, p) && p[0] == s && p[|p| - 1] == t && |p| <= 1;
    }
  }

  lemma {:induction false} WithinMore(nodes: seq<Node>, s: nat, t: nat, k: nat, k': nat)
    requires Within(nodes, s, t, k) && k <= k'
    ensures Within(nodes, s, t, k')
  {
    var p :| IsPath(nodes, p) && p[0] == s && p[|p| - 1] == t && |p| <= k + 1;
    assert |p| <= k' + 1;
  }

  lemma {:induction false} WithinReach(nodes: seq<Node>, s: nat, t: nat, k: nat)
    requires Within(nodes, s, t, k)
    ensures Reachable(nodes, s, t)
  {
    var p :| IsPath(nodes, p) && p[0] == s && p[|p| - 1] == t && |p| <= k + 1;
  }

  lemma {:induction false} ReachWithin(nodes: seq<Node>, s: nat, t: nat)
    requires Reachable(nodes, s, t)
    ensures exists k :: Within(nodes, s, t, k)
  {
    var p :| IsPath(nodes, p) && p[0] == s && p[|p| - 1] == t;
    assert Within(nodes, s, t, |p| - 1);
  }

  /** One more edge after a path of at most `k` edges. */
  lemma {:induction false} WithinSucc(nodes: seq<Node>, s: nat, u: nat, v: nat, k: nat)
    requires Within(nodes, s, u, k) && HasEdge(nodes, u, v)
    ensures Within(nodes, s, v, k + 1)
  {
    var p :| IsPath(nodes, p) && p[0] == s && p[|p| - 1] == u && |p| <= k + 1;
    var q := p + [v];
    forall j | 0 <= j < |q| - 1
      ensures HasEdge(nodes, q[j], q[j + 1])
    {
      if j < |p| - 1 {
        assert q[j] == p[j] && q[j + 1] == p[j + 1];
      }
    }
    assert IsPath(nodes, q);
  }

  /** A path of at most `k + 1` edges is a shorter one, or one of at most
      `k` edges followed by an edge. */
  lemma {:induction false} WithinLast(nodes: seq<Node>, s: nat, v: nat, k: nat)
    requires Within(nodes, s, v, k + 1)
    ensures Within(nodes, s, v, k) || exists u :: Within(nodes, s, u, k) && HasEdge(nodes, u, v)
  {
    var p :| IsPath(nodes, p) && p[0] == s && p[|p| - 1] == v && |p| <= k + 2;
    if |p| == k + 2 {
      var q := p[..|p| - 1];
      forall j | 0 <= j < |q| - 1
        ensures HasEdge(nodes, q[j], q[j + 1])
      {
        assert q[j] == p[j] && q[j + 1] == p[j + 1];
      }
      assert IsPath(nodes, q) && q[|q| - 1] == p[|p| - 2];
      assert Within(nodes, s, p[|p| - 2], k);
      assert HasEdge(nodes, p[|p| - 2], v);
    }
  }

  lemma {:induction false} WithinInRange(nodes: seq<Node>, s: nat, t: nat, k: nat)
    requires ValidNodes(nodes) && s < |nodes| && Within(nodes, s, t, k)
    ensures t < |nodes|
  {
    var p :| IsPath(nodes, p) && p[0] == s && p[|p| - 1] == t && |p| <= k + 1;
    if |p| > 1 {
      assert HasEdge(nodes, p[|p| - 2], p[|p| - 1]);
      var m :| 0 <= m < |nodes[p[|p| - 2]].adj| && nodes[p[|p| - 2]].adj[m].index == t;
    }
  }

  /** `e` is the eccentricity of `s`: every node reachable from `s` is
      within `e` steps of it, and when `e` is not 0 some node is not
      within `e - 1` steps. */
  ghost predicate IsEccentricity(nodes: seq<Node>, s: nat, e: nat)
  {
    (forall v :: Reachable(nodes, s, v) ==> Within(nodes, s, v, e)) &&
    (e > 0 ==> exists v: nat :: v < |nodes| && Within(nodes, s, v, e) && !Within(nodes, s, v, e - 1))
  }

  /** A node within `k` steps but not within `e` steps is more than `e`
      steps away, so `e` is below `k`. */
  lemma {:induction false} WithinLess(nodes: seq<Node>, s: nat, t: nat, k: nat, e: nat)
    requires Within(nodes, s, t, k) && !Within(nodes, s, t, e)
    ensures e < k
  {
    var p :| IsPath(nodes, p) && p[0] == s && p[|p| - 1] == t && |p| <= k + 1;
  }

  /** The eccentricity of a node is a single number. */
  lemma {:induction false} EccentricityUnique(nodes: seq<Node>, s: nat, e: nat, e': nat)
    requires IsEccentricity(nodes, s, e) && IsEccentricity(nodes, s, e')
    ensures e == e'
  {
    if e' > 0 {
      var v: nat :| v < |nodes| && Within(nodes, s, v, e') && !Within(nodes, s, v, e' - 1);
      WithinReach(nodes, s, v, e');
      WithinLess(nodes, s, v, e, e' - 1);
    }
    if e > 0 {
      var v: nat :| v < |nodes| && Within(nodes, s, v, e) && !Within(nodes, s, v, e - 1);
      WithinReach(nodes, s, v, e);
      WithinLess(nodes, s, v, e', e - 1);
    }
  }

  /** The search from `s` after `level` levels: `seen` holds exactly the
      nodes within `level` steps and `current` exactly those at distance
      `level`. */
  ghost predicate Layered(nodes: seq<Node>, s: nat, level: nat, seen: set<nat>, current: seq<nat>)
  {
    (forall v: nat :: v in seen <==> v < |nodes| && Within(nodes, s, v, level)) &&
    (forall v :: v in current <==> v in seen && (level == 0 || !Within(nodes, s, v, level - 1)))
  }

  /** `v` is the target of an edge from a node of `current`. */
  ghost predicate FromCurrent(nodes: seq<Node>, current: seq<nat>, v: nat)
  {
    exists u :: u in current && HasEdge(nodes, u, v)
  }

  /** The state of one level of the search from `s`: `flags` marks exactly
      `seen`, every marked node is reachable, the queue still to pop is part
      of `current`, and `next` holds exactly the nodes marked since the
      level began, each the target of an edge from `current`. */
  ghost predicate Expanding(nodes: seq<Node>, s: nat, flags: seq<bool>, current: seq<nat>, seen0: set<nat>,
                            queue: seq<nat>, next: seq<nat>, seen: set<nat>)
  {
    |flags| == |nodes| &&
    (forall v :: 0 <= v < |nodes| ==> (flags[v] <==> v in seen)) &&
    (forall v :: v in seen ==> v < |nodes| && Reachable(nodes, s, v)) &&
    (forall v :: v in queue ==> v in seen && v in current) &&
    (forall v :: v in seen <==> v in seen0 || v in next) &&
    (forall v :: v in next ==> v !in seen0 && FromCurrent(nodes, current, v)) &&
    seen0 <= seen && |seen| == |seen0| + |next|
  }

  /** Marking an unmarked target `t` of an edge from `u` of the current
      level and pushing it onto the next queue keeps the level's state. */
  lemma {:induction false} MarkStep(nodes: seq<Node>, s: nat, flags: seq<bool>, current: seq<nat>, seen0: set<nat>,
                                    queue: seq<nat>, next: seq<nat>, seen: set<nat>, u: nat, t: nat)
    requires Expanding(nodes, s, flags, current, seen0, queue, next, seen)
    requires u in seen && u in current && HasEdge(nodes, u, t) && t < |nodes| && !flags[t]
    ensures Expanding(nodes, s, flags[t := true], current, seen0, queue, next + [t], seen + {t})
  {
    ReachStep(nodes, s, u, t);
    assert FromCurrent(nodes, current, t);
    assert t !in seen;
  }

  lemma {:induction false} LayerStart(nodes: seq<Node>, s: nat)
    requires s < |nodes|
    ensures Layered(nodes, s, 0, {s}, [s])
  {
    forall v: nat
      ensures v in {s} <==> v < |nodes| && Within(nodes, s, v, 0)
    {
      WithinZero(nodes, s, v);
    }
  }

  /** Marking the unmarked targets of the current level's edges gives the
      next level. */
  lemma {:induction false} LayerStep(nodes: seq<Node>, s: nat, level: nat, seen0: set<nat>, current: seq<nat>,
                                     seen: set<nat>, next: seq<nat>)
    requires ValidNodes(nodes) && s < |nodes| && Layered(nodes, s, level, seen0, current)
    requires forall v :: v in seen <==> v in seen0 || v in next
    requires forall v :: v in next ==> v !in seen0 && FromCurrent(nodes, current, v)
    requires forall u, m :: u in seen && u !in next && 0 <= m < |nodes[u].adj| ==> nodes[u].adj[m].index in seen
    ensures Layered(nodes, s, level + 1, seen, next)
  {
    forall v: nat
      ensures v in seen <==> v < |nodes| && Within(nodes, s, v, level + 1)
    {
      if v in seen {
        if v in seen0 {
          WithinMore(nodes, s, v, level, level + 1);
        } else {
          var u: nat :| u in current && HasEdge(nodes, u, v);
          WithinSucc(nodes, s, u, v, level);
          WithinInRange(nodes, s, v, level + 1);
        }
      }
      if v < |nodes| && Within(nodes, s, v, level + 1) && !Within(nodes, s, v, level) {
        WithinLast(nodes, s, v, level);
        var u: nat :| Within(nodes, s, u, level) && HasEdge(nodes, u, v);
        WithinInRange(nodes, s, u, level);
        if u in current {
          var m :| 0 <= m < |nodes[u].adj| && nodes[u].adj[m].index == v;
        } else {
          WithinSucc(nodes, s, u, v, level - 1);
        }
      }
    }
  }

  /** Levels past `level` add no node once level `level + 1` adds none. */
  lemma {:induction false} Settled(nodes: seq<Node>, s: nat, level: nat, k: nat, v: nat)
    requires ValidNodes(nodes) && s < |nodes|
    requires forall w: nat :: w < |nodes| && Within(nodes, s, w, level + 1) ==> Within(nodes, s, w, level)
    requires Within(nodes, s, v, k)
    ensures Within(nodes, s, v, level)
    decreases k
  {
    if k <= level {
      WithinMore(nodes, s, v, k, level);
    } else {
      WithinLast(nodes, s, v, k - 1);
      if Within(nodes, s, v, k - 1) {
        Settled(nodes, s, level, k - 1, v);
      } else {
        var u: nat :| Within(nodes, s, u, k - 1) && HasEdge(nodes, u, v);
        Settled(nodes, s, level, k - 1, u);
        WithinSucc(nodes, s, u, v, level);
        WithinInRange(nodes, s, v, level + 1);
      }
    }
  }

  /** A search whose next level is empty has counted the eccentricity. */
  lemma {:induction false} LayerDone(nodes: seq<Node>, s: nat, level: nat, seen: set<nat>, current: seq<nat>)
    requires ValidNodes(nodes) && s < |nodes|
    requires Layered(nodes, s, level, seen, current) && Layered(nodes, s, level + 1, seen, [])
    requires level > 0 ==> current != []
    ensures IsEccentricity(nodes, s, level)
  {
    forall v | Reachable(nodes, s, v)
      ensures Within(nodes, s, v, level)
    {
      ReachWithin(nodes, s, v);
      var k: nat :| Within(nodes, s, v, k);
      Settled(nodes, s, level, k, v);
    }
    if level > 0 {
      assert current[0] in current;
    }
  }

  /** Every node is within `d` steps of each of the first `upto` nodes. */
  ghost predicate AllWithin(nodes: seq<Node>, upto: nat, d: nat)
  {
    forall j, v :: 0 <= j < upto && 0 <= v < |nodes| ==> Within(nodes, j, v, d)
  }

  /** When `d` is not 0, some node is not within `d - 1` steps of one of
      the first `upto` nodes. */
  ghost predicate Attained(nodes: seq<Node>, upto: nat, d: nat)
  {
    d > 0 ==> var shorter := d - 1; exists j, v :: 0 <= j < upto && 0 <= v < |nodes| && !Within(nodes, j, v, shorter)
  }

  /** Taking the larger of the diameter so far and the eccentricity of the
      next start node, which reaches every node, gives the diameter over one
      more start node. */
  lemma {:induction false} DiameterStep(nodes: seq<Node>, i: nat, d: nat, e: nat)
    requires i < |nodes| && AllWithin(nodes, i, d) && Attained(nodes, i, d)
    requires IsEccentricity(nodes, i, e)
    requires forall v :: 0 <= v < |nodes| ==> Reachable(nodes, i, v)
    ensures AllWithin(nodes, i + 1, if e > d then e else d)
    ensures Attained(nodes, i + 1, if e > d then e else d)
  {
    var m := if e > d then e else d;
    forall j, v | 0 <= j < i + 1 && 0 <= v < |nodes|
      ensures Within(nodes, j, v, m)
    {
      if j < i {
        WithinMore(nodes, j, v, d, m);
      } else {
        WithinMore(nodes, i, v, e, m);
      }
    }
    if e > d {
      var v: nat :| v < |nodes| && Within(nodes, i, v, e) && !Within(nodes, i, v, e - 1);
      assert 0 <= i < i + 1 && !Within(nodes, i, v, m - 1);
    } else if d > 0 {
      var j: nat, v: nat :| j < i && v < |nodes| && !Within(nodes, j, v, d - 1);
      assert j < i + 1 && !Within(nodes, j, v, m - 1);
    }
  }

  /** The diameter of a network is a single number. */
  lemma {:induction false} DiameterUnique(nodes: seq<Node>, d: nat, d': nat)
    requires AllWithin(nodes, |nodes|, d) && Attained(nodes, |nodes|, d)
    requires AllWithin(nodes, |nodes|, d') && Attained(nodes, |nodes|, d')
    ensures d == d'
  {
    if d' > 0 {
      var j: nat, v: nat :| j < |nodes| && v < |nodes| && !Within(nodes, j, v, d' - 1);
      WithinLess(nodes, j, v, d, d' - 1);
    }
    if d > 0 {
      var j: nat, v: nat :| j < |nodes| && v < |nodes| && !Within(nodes, j, v, d - 1);
      WithinLess(nodes, j, v, d', d - 1);
    }
  }
}
