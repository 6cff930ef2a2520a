/** Directed graphs as finite sets of arcs: walks, reachability, cycles, and what adding one arc does to them. */
module Digraph {

  type Node = string
  type Arcs = set<(Node, Node)>

  ghost predicate Walk(g: Arcs, p: seq<Node>) {
    |p| > 0 && forall i :: 0 <= i < |p| - 1 ==> (p[i], p[i + 1]) in g
  }

  ghost predicate WalkBetween(g: Arcs, p: seq<Node>, u: Node, v: Node) {
    Walk(g, p) && p[0] == u && p[|p| - 1] == v
  }

  ghost predicate Reach(g: Arcs, u: Node, v: Node) {
    exists p :: WalkBetween(g, p, u, v)
  }

  ghost predicate OnCycle(g: Arcs, v: Node) {
    exists w :: (v, w) in g && Reach(g, w, v)
  }

  ghost predicate Acyclic(g: Arcs) {
    forall v :: !OnCycle(g, v)
  }

  ghost predicate CycleReachable(g: Arcs, s: Node) {
    exists v :: Reach(g, s, v) && OnCycle(g, v)
  }

  lemma ReachSelf(g: Arcs, u: Node)
    ensures Reach(g, u, u)
  {
    assert WalkBetween(g, [u], u, u);
  }

  lemma ReachTransitive(g: Arcs, u: Node, v: Node, w: Node)
    requires Reach(g, u, v) && Reach(g, v, w)
    ensures Reach(g, u, w)
  {
    var p :| WalkBetween(g, p, u, v);
    var q :| WalkBetween(g, q, v, w);
    assert WalkBetween(g, p + q[1..], u, w);
  }

  lemma ReachArc(g: Arcs, u: Node, v: Node)
    requires (u, v) in g
    ensures Reach(g, u, v)
  {
    assert WalkBetween(g, [u, v], u, v);
  }

  lemma ReachMonotone(g: Arcs, h: Arcs, u: Node, v: Node)
    requires Reach(g, u, v) && g <= h
    ensures Reach(h, u, v)
  {
    var p :| WalkBetween(g, p, u, v);
    assert WalkBetween(h, p, u, v);
  }

  lemma ReachedByArc(g: Arcs, u: Node, v: Node)
    ensures Reach(g, u, v) ==> u == v || exists x :: (x, v) in g
  {
    if p :| WalkBetween(g, p, u, v) {
      if |p| > 1 {
        assert (p[|p| - 2], p[|p| - 1]) in g;
      }
    }
  }

  lemma CycleMonotone(g: Arcs, h: Arcs, v: Node)
    requires OnCycle(g, v) && g <= h
    ensures OnCycle(h, v)
  {
    var w :| (v, w) in g && Reach(g, w, v);
    ReachMonotone(g, h, w, v);
  }

  lemma AcyclicSubgraph(g: Arcs, h: Arcs)
    requires Acyclic(h) && g <= h
    ensures Acyclic(g)
  {
    forall v ensures !OnCycle(g, v) {
      if OnCycle(g, v) {
        CycleMonotone(g, h, v);
      }
    }
  }

  /** A walk in the graph with arc (s, t) added either avoids the arc or can be entered again at t. */
  lemma {:induction false} ReachAfterNewArc(g: Arcs, s: Node, t: Node, u: Node, v: Node)
    requires Reach(g + {(s, t)}, u, v)
    ensures Reach(g, u, v) || (Reach(g, u, s) && Reach(g, t, v))
  {
    var p :| WalkBetween(g + {(s, t)}, p, u, v);
    WalkAfterNewArc(g, s, t, p);
  }

  lemma {:induction false} WalkAfterNewArc(g: Arcs, s: Node, t: Node, p: seq<Node>)
    requires Walk(g + {(s, t)}, p)
    ensures Reach(g, p[0], p[|p| - 1]) || (Reach(g, p[0], s) && Reach(g, t, p[|p| - 1]))
    decreases |p|
  {
    if |p| == 1 {
      ReachSelf(g, p[0]);
    } else {
      var u, w, v := p[0], p[1], p[|p| - 1];
      assert (p[0], p[1]) in g + {(s, t)};
      assert Walk(g + {(s, t)}, p[1..]) by {
        forall i | 0 <= i < |p[1..]| - 1 ensures (p[1..][i], p[1..][i + 1]) in g + {(s, t)} {
          assert (p[i + 1], p[i + 2]) in g + {(s, t)};
        }
      }
      WalkAfterNewArc(g, s, t, p[1..]);
      if (u, w) in g {
        ReachArc(g, u, w);
        if Reach(g, w, v) {
          ReachTransitive(g, u, w, v);
        } else {
          ReachTransitive(g, u, w, s);
        }
      } else {
        ReachSelf(g, u);
      }
    }
  }

  /**
   * What a search from s finds after arc (s, t) is added: the arc closes a cycle (t already reaches s),
   * or an older cycle was already reachable from one of its ends.
   */
  lemma CycleReachableAfterNewArc(g: Arcs, s: Node, t: Node)
    ensures CycleReachable(g + {(s, t)}, s)
       <==> Reach(g, t, s) || CycleReachable(g, s) || CycleReachable(g, t)
  {
    var h := g + {(s, t)};
    if CycleReachable(h, s) {
      var v :| Reach(h, s, v) && OnCycle(h, v);
      var w :| (v, w) in h && Reach(h, w, v);
      ReachAfterNewArc(g, s, t, s, v);
      ReachAfterNewArc(g, s, t, w, v);
      if (v, w) in g && Reach(g, w, v) {
        assert OnCycle(g, v);
      } else if (v, w) in g {
        ReachArc(g, v, w);
        ReachTransitive(g, v, w, s);
        ReachTransitive(g, t, v, s);
      } else {
        assert v == s && w == t;
      }
    }
    ReachArc(h, s, t);
    if Reach(g, t, s) {
      ReachMonotone(g, h, t, s);
      ReachSelf(h, s);
      assert OnCycle(h, s);
    }
    if CycleReachable(g, s) {
      var v :| Reach(g, s, v) && OnCycle(g, v);
      ReachMonotone(g, h, s, v);
      CycleMonotone(g, h, v);
    }
    if CycleReachable(g, t) {
      var v :| Reach(g, t, v) && OnCycle(g, v);
      ReachMonotone(g, h, t, v);
      ReachTransitive(h, s, t, v);
      CycleMonotone(g, h, v);
    }
  }

  /** In an acyclic graph a cycle can only come from the new arc, so searching from its source is enough. */
  lemma NewArcClosesCycle(g: Arcs, s: Node, t: Node)
    requires Acyclic(g)
    ensures CycleReachable(g + {(s, t)}, s) <==> !Acyclic(g + {(s, t)})
  {
    var h := g + {(s, t)};
    if v :| OnCycle(h, v) {
      var w :| (v, w) in h && Reach(h, w, v);
      ReachAfterNewArc(g, s, t, w, v);
      CycleReachableAfterNewArc(g, s, t);
      if (v, w) in g {
        assert !OnCycle(g, v);
        ReachArc(g, v, w);
        ReachTransitive(g, t, v, w);
        ReachTransitive(g, t, w, s);
      } else {
        assert v == s && w == t;
      }
    }
  }

  /** Every arc out of a node of the list leads to an earlier entry: a topological order, latest first to leave. */
  ghost predicate FinishOrder(g: Arcs, order: seq<Node>) {
    forall i, v :: 0 <= i < |order| && (order[i], v) in g ==> v in order[..i]
  }

  lemma EarlierIndex(order: seq<Node>, i: nat, v: Node) returns (j: nat)
    requires i <= |order| && v in order[..i]
    ensures j < i && order[j] == v
  {
    j :| j < i && order[..i][j] == v;
  }

  lemma {:induction false} WalkStaysFinished(g: Arcs, order: seq<Node>, i: nat, p: seq<Node>)
    requires FinishOrder(g, order) && i < |order|
    requires Walk(g, p) && p[0] == order[i]
    ensures p[|p| - 1] in order[..i + 1]
    decreases |p|
  {
    if |p| == 1 {
      assert order[..i + 1][i] == order[i];
    } else {
      assert (p[0], p[1]) in g;
      var j := EarlierIndex(order, i, p[1]);
      assert Walk(g, p[1..]) by {
        forall k | 0 <= k < |p[1..]| - 1 ensures (p[1..][k], p[1..][k + 1]) in g {
          assert (p[k + 1], p[k + 2]) in g;
        }
      }
      WalkStaysFinished(g, order, j, p[1..]);
      assert order[..j + 1] <= order[..i + 1];
    }
  }

  lemma {:induction false} FinishedNotOnCycle(g: Arcs, order: seq<Node>, i: nat)
    requires FinishOrder(g, order) && i < |order|
    ensures !OnCycle(g, order[i])
    decreases i
  {
    if OnCycle(g, order[i]) {
      var w :| (order[i], w) in g && Reach(g, w, order[i]);
      var j := EarlierIndex(order, i, w);
      var p :| WalkBetween(g, p, w, order[i]);
      WalkStaysFinished(g, order, j, p);
      var k := EarlierIndex(order, j + 1, order[i]);
      FinishedNotOnCycle(g, order, k);
    }
  }

  /** A finished node reaches no cycle. */
  lemma FinishedReachesNoCycle(g: Arcs, order: seq<Node>, s: Node)
    requires FinishOrder(g, order) && s in order
    ensures !CycleReachable(g, s)
  {
    if CycleReachable(g, s) {
      var v :| Reach(g, s, v) && OnCycle(g, v);
      var p :| WalkBetween(g, p, s, v);
      var i :| 0 <= i < |order| && order[i] == s;
      WalkStaysFinished(g, order, i, p);
      var k := EarlierIndex(order, i + 1, v);
      FinishedNotOnCycle(g, order, k);
    }
  }
}
