/** What the depth bound of the graph traversal loses: a depth-first visit can meet a node too deep
    and never expand it. */
module ProvenanceDepth {
  import opened Digraph
  import opened ProvenanceLinks
  import opened ProvenanceTraversal

  lemma LookKeepsNeighbours(links: seq<Link>, maxDepth: int, universe: set<Node>, id: Node, depth: int,
                            l: Link, t: Trace)
    requires Endpoints(links) <= universe && l.source in universe && l.target in universe && depth < maxDepth
    ensures Reached(l, id, Look(links, maxDepth, universe, id, depth, l, t))
  {
    if l.active && l.source == id {
      var s := t.(edges := t.edges + [EdgeOf(l)]);
      assert l.target in Traverse(links, maxDepth, universe, l.target, depth + 1, s).visited;
    }
  }

  lemma {:induction false} ScanKeepsNeighbours(links: seq<Link>, maxDepth: int, universe: set<Node>,
                                               id: Node, depth: int, i: nat, t: Trace)
    requires Endpoints(links) <= universe && i <= |links| && depth < maxDepth
    ensures forall l :: l in links[i..] ==> Reached(l, id, Scan(links, maxDepth, universe, id, depth, i, t))
    decreases |links| - i
  {
    if i < |links| {
      assert links[i].source in Endpoints(links) && links[i].target in Endpoints(links);
      var m := Look(links, maxDepth, universe, id, depth, links[i], t);
      LookKeepsNeighbours(links, maxDepth, universe, id, depth, links[i], t);
      ScanKeepsNeighbours(links, maxDepth, universe, id, depth, i + 1, m);
      assert links[i..] == [links[i]] + links[i + 1..];
    }
  }

  /** Bounds 0 and 1 lose nothing: the nodes are exactly those within the bound. */
  lemma ShallowGraphIsComplete(links: seq<Link>, root: Node, maxDepth: int, n: Node)
    requires maxDepth <= 1
    ensures n in GraphAround(links, root, maxDepth).nodes <==> WithinHops(links, root, n, maxDepth)
  {
    var universe, r := Endpoints(links) + {root}, GraphAround(links, root, maxDepth);
    GraphIsAccurate(links, root, maxDepth);
    if WithinHops(links, root, n, maxDepth) {
      var p :| WalkBetween(Hops(links), p, root, n) && |p| - 1 <= maxDepth;
      if |p| == 2 {
        assert (p[0], p[1]) in Hops(links);
        var atRoot := Entered(EMPTY_TRACE, root);
        ScanKeepsNeighbours(links, maxDepth, universe, root, 0, 0, atRoot);
        assert r == Scan(links, maxDepth, universe, root, 0, 0, atRoot);
        var l :| l in links && l.active && ((root, n) == (l.source, l.target) || (root, n) == (l.target, l.source));
        assert links[0..] == links;
        assert Reached(l, root, r);
      }
    }
  }

  /** One edge and one step at a time: a -> b -> c is drawn from "a" in the order the links are met. */
  lemma TwoLinksDrawn(links: seq<Link>, ab: Link, bc: Link)
    requires links == [ab, bc]
    requires ab == Link("1", "a", "b", DerivedFrom, true) && bc == Link("2", "b", "c", InputTo, true)
    ensures GraphAround(links, "a", 5).nodes == ["a", "b", "c"]
    ensures GraphAround(links, "a", 5).edges ==
            [Edge("a", "b", DerivedFrom), Edge("a", "b", DerivedFrom), Edge("b", "c", InputTo), Edge("b", "c", InputTo)]
  {
    var u := Endpoints(links) + {"a"};
    assert ab in links && bc in links;
    var x, y := EdgeOf(ab), EdgeOf(bc);
    var t0 := Entered(EMPTY_TRACE, "a");
    var t1 := Entered(t0.(edges := [x]), "b");
    var t2 := t1.(edges := [x, x]);
    var t3 := Entered(t2.(edges := [x, x, y]), "c");
    var t4 := t3.(edges := [x, x, y, y]);
    assert t0.edges + [x] == [x] && t2.edges + [y] == [x, x, y];
    assert Look(links, 5, u, "c", 2, ab, t3) == t3;
    assert Look(links, 5, u, "c", 2, bc, t3) == t4;
    assert Scan(links, 5, u, "c", 2, 2, t4) == t4;
    assert Scan(links, 5, u, "c", 2, 1, t3) == t4;
    assert Scan(links, 5, u, "c", 2, 0, t3) == t4;
    assert Look(links, 5, u, "b", 1, ab, t1) == t2;
    assert Traverse(links, 5, u, "c", 2, t2.(edges := t2.edges + [y])) == t4;
    assert Look(links, 5, u, "b", 1, bc, t2) == t4;
    assert Scan(links, 5, u, "b", 1, 2, t4) == t4;
    assert Scan(links, 5, u, "b", 1, 1, t2) == t4;
    assert Scan(links, 5, u, "b", 1, 0, t1) == t4;
    assert Traverse(links, 5, u, "b", 1, t0.(edges := t0.edges + [x])) == t4;
    assert Look(links, 5, u, "a", 0, ab, t0) == t4;
    assert Look(links, 5, u, "a", 0, bc, t4) == t4;
    assert Scan(links, 5, u, "a", 0, 2, t4) == t4;
    assert Scan(links, 5, u, "a", 0, 1, t4) == t4;
    assert Scan(links, 5, u, "a", 0, 0, t0) == t4;
  }

  /** With bound 1 the nodes are the root and what an active link joins to it, in either direction. */
  lemma NeighboursAreDrawn(links: seq<Link>, root: Node, n: Node)
    ensures n in GraphAround(links, root, 1).nodes <==>
            n == root || exists l :: l in links && l.active && (l.source, l.target) in {(root, n), (n, root)}
  {
    ShallowGraphIsComplete(links, root, 1, n);
    assert WalkBetween(Hops(links), [root], root, root);
    if WithinHops(links, root, n, 1) && n != root {
      var p :| WalkBetween(Hops(links), p, root, n) && |p| - 1 <= 1;
      assert (p[0], p[1]) in Hops(links);
    }
    if l :| l in links && l.active && (l.source, l.target) in {(root, n), (n, root)} {
      LinkHops(links, l);
      assert WalkBetween(Hops(links), [root, n], root, n);
    }
  }

  lemma QuietLook(links: seq<Link>, maxDepth: int, universe: set<Node>, id: Node, depth: int, l: Link, t: Trace)
    requires Endpoints(links) <= universe && l.source in universe && l.target in universe
    requires depth >= maxDepth || Reached(l, id, t)
    ensures Look(links, maxDepth, universe, id, depth, l, t).visited == t.visited
  {
    if l.active && l.source == id {
      var s := t.(edges := t.edges + [EdgeOf(l)]);
      assert Traverse(links, maxDepth, universe, l.target, depth + 1, s) == s;
    }
  }

  /** A scan visits nothing new over links whose entries are all cut off or already visited. */
  lemma {:induction false} QuietScan(links: seq<Link>, maxDepth: int, universe: set<Node>,
                                     id: Node, depth: int, i: nat, k: nat, t: Trace) returns (m: Trace)
    requires Endpoints(links) <= universe && i <= k <= |links|
    requires depth >= maxDepth || forall l :: l in links[i..k] ==> Reached(l, id, t)
    ensures m.visited == t.visited
    ensures Scan(links, maxDepth, universe, id, depth, i, t) == Scan(links, maxDepth, universe, id, depth, k, m)
    decreases k - i
  {
    if i == k {
      m := t;
    } else {
      assert links[i].source in Endpoints(links) && links[i].target in Endpoints(links);
      assert links[i..k] == [links[i]] + links[i + 1..k];
      var next := Look(links, maxDepth, universe, id, depth, links[i], t);
      QuietLook(links, maxDepth, universe, id, depth, links[i], t);
      m := QuietScan(links, maxDepth, universe, id, depth, i + 1, k, next);
    }
  }

  // ---- a chain, a shortcut to its end, and one more node behind the end ----

  /** The nodes are numbered; their names differ in length. */
  function Name(i: nat): Node {
    seq(i + 1, _ => 'n')
  }

  function Step(i: nat, j: nat): Link {
    Link("", Name(i), Name(j), InputTo, true)
  }

  function Chain(d: nat): seq<Link> {
    seq(d, i requires 0 <= i < d => Step(i, i + 1))
  }

  /** 0 -> 1 -> ... -> d is stored before 0 -> d and d -> d + 1. */
  function Detour(d: nat): seq<Link> {
    Chain(d) + [Step(0, d), Step(d, d + 1)]
  }

  function UpTo(d: nat): set<Node> {
    set i | 0 <= i <= d :: Name(i)
  }

  lemma NamesDiffer(i: nat, j: nat)
    ensures Name(i) == Name(j) <==> i == j
  {
    assert |Name(i)| == i + 1 && |Name(j)| == j + 1;
  }

  lemma DetourAt(d: nat, k: nat)
    requires k < d + 2
    ensures Detour(d)[k] == if k < d then Step(k, k + 1) else if k == d then Step(0, d) else Step(d, d + 1)
  {
  }

  /** Before its own link, node i sees only its predecessor. */
  lemma QuietBefore(d: nat, i: nat, t: Trace)
    requires i < d && UpTo(i) <= t.visited
    ensures forall l :: l in Detour(d)[0..i] ==> Reached(l, Name(i), t)
  {
    forall l | l in Detour(d)[0..i] ensures Reached(l, Name(i), t) {
      var k :| 0 <= k < i && Detour(d)[0..i][k] == l;
      DetourAt(d, k);
      NamesDiffer(k, i);
      NamesDiffer(k + 1, i);
      assert Name(k) in UpTo(i);
    }
  }

  /** After it, once the end of the chain is visited, it sees nothing new. */
  lemma QuietAfter(d: nat, i: nat, t: Trace)
    requires i < d && UpTo(d) <= t.visited
    ensures forall l :: l in Detour(d)[i + 1..d + 2] ==> Reached(l, Name(i), t)
  {
    forall l | l in Detour(d)[i + 1..d + 2] ensures Reached(l, Name(i), t) {
      var j :| 0 <= j < d + 1 - i && Detour(d)[i + 1..d + 2][j] == l;
      var k := i + 1 + j;
      DetourAt(d, k);
      NamesDiffer(k, i);
      NamesDiffer(k + 1, i);
      NamesDiffer(d, i);
      NamesDiffer(d + 1, i);
      NamesDiffer(0, i);
      assert Name(0) in UpTo(d) && Name(d) in UpTo(d);
    }
  }

  lemma UpToGrows(i: nat)
    ensures UpTo(i) + {Name(i + 1)} == UpTo(i + 1)
  {
    var grown, all := UpTo(i) + {Name(i + 1)}, UpTo(i + 1);
    forall n | n in all ensures n in grown {
      var j :| 0 <= j <= i + 1 && Name(j) == n;
    }
  }

  /** Standing at node i with the chain up to i visited: scanning visits the rest of the chain and nothing else. */
  lemma {:induction false} ScanAlong(d: nat, u: set<Node>, i: nat, t: Trace)
    requires Endpoints(Detour(d)) <= u && i <= d && t.visited == UpTo(i)
    ensures Scan(Detour(d), d, u, Name(i), i, 0, t).visited == UpTo(d)
    decreases d - i
  {
    var links := Detour(d);
    if i == d {
      var _ := QuietScan(links, d, u, Name(i), i, 0, |links|, t);
    } else {
      QuietBefore(d, i, t);
      var m := QuietScan(links, d, u, Name(i), i, 0, i, t);
      var next := LookAhead(d, u, i, m);
      QuietAfter(d, i, next);
      var _ := QuietScan(links, d, u, Name(i), i, i + 1, |links|, next);
    }
  }

  /** The link from node i to node i + 1 is the one that enters the rest of the chain, one level deeper. */
  lemma {:induction false} LookAhead(d: nat, u: set<Node>, i: nat, m: Trace) returns (next: Trace)
    requires Endpoints(Detour(d)) <= u && i < d && m.visited == UpTo(i)
    ensures Scan(Detour(d), d, u, Name(i), i, i, m) == Scan(Detour(d), d, u, Name(i), i, i + 1, next)
    ensures next.visited == UpTo(d)
    decreases d - i, 0
  {
    var links := Detour(d);
    DetourAt(d, i);
    assert links[i].source in Endpoints(links) && links[i].target in Endpoints(links);
    NamesDiffer(i, i + 1);
    NotYetVisited(i);
    next := Look(links, d, u, Name(i), i, links[i], m);
    var s := m.(edges := m.edges + [EdgeOf(links[i])]);
    UpToGrows(i);
    assert next == Traverse(links, d, u, Name(i + 1), i + 1, s);
    assert next == Scan(links, d, u, Name(i + 1), i + 1, 0, Entered(s, Name(i + 1)));
    ScanAlong(d, u, i + 1, Entered(s, Name(i + 1)));
  }

  lemma NotYetVisited(i: nat)
    ensures Name(i + 1) !in UpTo(i)
  {
    if Name(i + 1) in UpTo(i) {
      var j :| 0 <= j <= i && Name(j) == Name(i + 1);
      NamesDiffer(j, i + 1);
    }
  }

  lemma BehindTheEnd(d: nat)
    requires d >= 2
    ensures WithinHops(Detour(d), Name(0), Name(d + 1), d)
  {
    var links := Detour(d);
    DetourAt(d, d);
    DetourAt(d, d + 1);
    LinkHops(links, links[d]);
    LinkHops(links, links[d + 1]);
    assert WalkBetween(Hops(links), [Name(0), Name(d), Name(d + 1)], Name(0), Name(d + 1));
  }

  /** For every bound from 2 on there is a decision two hops away that the drawn graph leaves out. */
  lemma DeepGraphMissesANode(d: nat)
    requires d >= 2
    ensures WithinHops(Detour(d), Name(0), Name(d + 1), d)
    ensures Name(d + 1) !in GraphAround(Detour(d), Name(0), d).nodes
  {
    BehindTheEnd(d);
    var links := Detour(d);
    var u := Endpoints(links) + {Name(0)};
    var t := Entered(EMPTY_TRACE, Name(0));
    assert t.visited == UpTo(0);
    ScanAlong(d, u, 0, t);
    NotYetVisited(d);
    GraphIsAccurate(links, Name(0), d);
    assert GraphAround(links, Name(0), d) == Scan(links, d, u, Name(0), 0, 0, t);
  }

  /** The drawn nodes are exactly those within the bound. */
  ghost predicate Complete(links: seq<Link>, root: Node, maxDepth: int) {
    forall n :: n in GraphAround(links, root, maxDepth).nodes <==> WithinHops(links, root, n, maxDepth)
  }

  /** The drawn nodes are those within the bound, for every graph and root, exactly when the bound is at most 1. */
  lemma CompleteExactlyWhenShallow(maxDepth: int)
    ensures (forall links, root :: Complete(links, root, maxDepth)) <==> maxDepth <= 1
  {
    if maxDepth <= 1 {
      forall links, root ensures Complete(links, root, maxDepth) {
        forall n ensures n in GraphAround(links, root, maxDepth).nodes <==> WithinHops(links, root, n, maxDepth) {
          ShallowGraphIsComplete(links, root, maxDepth, n);
        }
      }
    } else {
      DeepGraphMissesANode(maxDepth);
      assert !Complete(Detour(maxDepth), Name(0), maxDepth);
    }
  }

  // ---- on a tree every bound is complete ----

  /** The root's component hangs from it as a tree: every hop joins a node to its parent, one level up. */
  ghost predicate TreeAround(links: seq<Link>, root: Node, level: Node -> nat, parent: Node -> Node) {
    && level(root) == 0
    && forall n, m :: Reach(Hops(links), root, n) && (n, m) in Hops(links) ==>
         Below(level, parent, n, m) || Below(level, parent, m, n)
  }

  predicate Below(level: Node -> nat, parent: Node -> Node, n: Node, m: Node) {
    level(m) == level(n) + 1 && parent(m) == n
  }

  /** The nodes above the bound that were entered from t to r have all their neighbours in r. */
  ghost predicate ExpandedAbove(links: seq<Link>, level: Node -> nat, maxDepth: int, t: Trace, r: Trace) {
    forall n, m :: n in r.visited - t.visited && level(n) < maxDepth && (n, m) in Hops(links) ==> m in r.visited
  }

  /** `id` was entered from its parent. */
  ghost predicate FromParent(links: seq<Link>, root: Node, parent: Node -> Node, id: Node, t: Trace) {
    Reach(Hops(links), root, id) && (id == root || parent(id) in t.visited)
  }

  lemma {:induction false} TraverseTree(links: seq<Link>, root: Node, maxDepth: int, u: set<Node>,
                                        level: Node -> nat, parent: Node -> Node, id: Node, t: Trace)
    requires Endpoints(links) <= u && id in u
    requires TreeAround(links, root, level, parent) && FromParent(links, root, parent, id, t)
    ensures var r := Traverse(links, maxDepth, u, id, level(id), t);
            (level(id) <= maxDepth ==> id in r.visited) && ExpandedAbove(links, level, maxDepth, t, r)
    decreases u - t.visited, 0
  {
    if level(id) <= maxDepth && id !in t.visited {
      ScanTree(links, root, maxDepth, u, level, parent, id, 0, Entered(t, id));
      var r := Scan(links, maxDepth, u, id, level(id), 0, Entered(t, id));
      assert links[0..] == links;
      if level(id) < maxDepth {
        forall m | (id, m) in Hops(links) ensures m in r.visited {
          var l :| l in links && l.active && ((id, m) == (l.source, l.target) || (id, m) == (l.target, l.source));
          assert Reached(l, id, r);
        }
      }
    }
  }

  lemma {:induction false} ScanTree(links: seq<Link>, root: Node, maxDepth: int, u: set<Node>,
                                    level: Node -> nat, parent: Node -> Node, id: Node, i: nat, t: Trace)
    requires Endpoints(links) <= u && i <= |links| && id in t.visited
    requires TreeAround(links, root, level, parent) && FromParent(links, root, parent, id, t)
    ensures var r := Scan(links, maxDepth, u, id, level(id), i, t);
            && ExpandedAbove(links, level, maxDepth, t, r)
            && (level(id) < maxDepth ==> forall l :: l in links[i..] ==> Reached(l, id, r))
    decreases u - t.visited, |links| - i + 1
  {
    if i < |links| {
      var l := links[i];
      assert l.source in Endpoints(links) && l.target in Endpoints(links);
      LookTree(links, root, maxDepth, u, level, parent, id, l, t);
      ScanTree(links, root, maxDepth, u, level, parent, id, i + 1, Look(links, maxDepth, u, id, level(id), l, t));
      assert links[i..] == [l] + links[i + 1..];
    }
  }

  /** The far end of a link is a child, entered one level down, or the parent, already visited. */
  lemma {:induction false} EnterTree(links: seq<Link>, root: Node, maxDepth: int, u: set<Node>, level: Node -> nat,
                                     parent: Node -> Node, id: Node, other: Node, e: Edge, t: Trace)
    requires Endpoints(links) <= u && other in u && id in t.visited && (id, other) in Hops(links)
    requires TreeAround(links, root, level, parent) && FromParent(links, root, parent, id, t)
    ensures var r := Traverse(links, maxDepth, u, other, level(id) + 1, t.(edges := t.edges + [e]));
            (level(id) < maxDepth ==> other in r.visited) && ExpandedAbove(links, level, maxDepth, t, r)
    decreases u - t.visited, 1, 0
  {
    if Below(level, parent, id, other) {
      ReachArc(Hops(links), id, other);
      ReachTransitive(Hops(links), root, id, other);
      TraverseTree(links, root, maxDepth, u, level, parent, other, t.(edges := t.edges + [e]));
    } else {
      assert Below(level, parent, other, id);
    }
  }

  lemma {:induction false} LookTree(links: seq<Link>, root: Node, maxDepth: int, u: set<Node>,
                                    level: Node -> nat, parent: Node -> Node, id: Node, l: Link, t: Trace)
    requires Endpoints(links) <= u && l in links && l.source in u && l.target in u && id in t.visited
    requires TreeAround(links, root, level, parent) && FromParent(links, root, parent, id, t)
    ensures var r := Look(links, maxDepth, u, id, level(id), l, t);
            ExpandedAbove(links, level, maxDepth, t, r) && (level(id) < maxDepth ==> Reached(l, id, r))
    decreases u - t.visited, 1
  {
    if l.active {
      LinkHops(links, l);
      var e, t1 := EdgeOf(l), t;
      if l.source == id {
        EnterTree(links, root, maxDepth, u, level, parent, id, l.target, e, t);
        t1 := Traverse(links, maxDepth, u, l.target, level(id) + 1, t.(edges := t.edges + [e]));
      }
      if l.target == id {
        EnterTree(links, root, maxDepth, u, level, parent, id, l.source, e, t1);
      }
    }
  }

  lemma {:induction false} WalkStaysAbove(links: seq<Link>, root: Node, maxDepth: int, level: Node -> nat,
                                          parent: Node -> Node, r: Trace, p: seq<Node>)
    requires TreeAround(links, root, level, parent) && root in r.visited
    requires ExpandedAbove(links, level, maxDepth, EMPTY_TRACE, r)
    requires Walk(Hops(links), p) && p[0] == root && |p| - 1 <= maxDepth
    ensures p[|p| - 1] in r.visited && level(p[|p| - 1]) <= |p| - 1
    decreases |p|
  {
    if |p| > 1 {
      var front, n := p[..|p| - 1], p[|p| - 2];
      assert Walk(Hops(links), front);
      WalkStaysAbove(links, root, maxDepth, level, parent, r, front);
      assert WalkBetween(Hops(links), front, root, n);
      assert (n, p[|p| - 1]) in Hops(links);
    }
  }

  /** Around a tree nothing is lost, whatever the bound. */
  lemma TreeGraphIsComplete(links: seq<Link>, root: Node, maxDepth: int, level: Node -> nat, parent: Node -> Node)
    requires TreeAround(links, root, level, parent)
    ensures Complete(links, root, maxDepth)
  {
    var r := GraphAround(links, root, maxDepth);
    ReachSelf(Hops(links), root);
    TraverseTree(links, root, maxDepth, Endpoints(links) + {root}, level, parent, root, EMPTY_TRACE);
    GraphIsAccurate(links, root, maxDepth);
    forall n | WithinHops(links, root, n, maxDepth) ensures n in r.nodes {
      var p :| WalkBetween(Hops(links), p, root, n) && |p| - 1 <= maxDepth;
      WalkStaysAbove(links, root, maxDepth, level, parent, r, p);
    }
  }
}
