/** The depth-bounded, undirected, depth-first walk that collects the nodes and edges of a provenance graph. */
module ProvenanceTraversal {
  import opened Digraph
  import opened ProvenanceLinks

  datatype Edge = Edge(source: Node, target: Node, relationship: Relationship)

  function EdgeOf(l: Link): Edge {
    Edge(l.source, l.target, l.relationship)
  }

  /** What the nested calls share. */
  datatype Trace = Trace(visited: set<Node>, nodes: seq<Node>, edges: seq<Edge>)

  const EMPTY_TRACE := Trace({}, [], [])

  ghost function Endpoints(links: seq<Link>): set<Node> {
    (set l | l in links :: l.source) + (set l | l in links :: l.target)
  }

  function Entered(t: Trace, id: Node): Trace {
    Trace(t.visited + {id}, t.nodes + [id], t.edges)
  }

  /** Entering a decision; `universe` bounds what can be visited and only serves termination. */
  ghost function Traverse(links: seq<Link>, maxDepth: int, universe: set<Node>, id: Node, depth: int,
                          t: Trace): (r: Trace)
    requires Endpoints(links) <= universe && id in universe
    ensures t.visited <= r.visited
    decreases universe - t.visited, 0
  {
    if depth > maxDepth || id in t.visited then t
    else Scan(links, maxDepth, universe, id, depth, 0, Entered(t, id))
  }

  /** The loop over the links from position i while standing at `id`. */
  ghost function Scan(links: seq<Link>, maxDepth: int, universe: set<Node>, id: Node, depth: int, i: nat,
                      t: Trace): (r: Trace)
    requires Endpoints(links) <= universe && i <= |links|
    ensures t.visited <= r.visited
    decreases universe - t.visited, |links| - i + 1
  {
    if i == |links| then t
    else
      assert links[i].source in Endpoints(links) && links[i].target in Endpoints(links);
      Scan(links, maxDepth, universe, id, depth, i + 1, Look(links, maxDepth, universe, id, depth, links[i], t))
  }

  /** One link seen from `id`: each end that is `id` emits the edge and enters the other end. */
  ghost function Look(links: seq<Link>, maxDepth: int, universe: set<Node>, id: Node, depth: int, l: Link,
                      t: Trace): (r: Trace)
    requires Endpoints(links) <= universe && l.source in universe && l.target in universe
    ensures t.visited <= r.visited
    decreases universe - t.visited, 1
  {
    if !l.active then t
    else
      var t1 := if l.source == id
                then Traverse(links, maxDepth, universe, l.target, depth + 1, t.(edges := t.edges + [EdgeOf(l)]))
                else t;
      if l.target == id
      then Traverse(links, maxDepth, universe, l.source, depth + 1, t1.(edges := t1.edges + [EdgeOf(l)]))
      else t1
  }

  /** Undirected steps along active links. */
  ghost function Hops(links: seq<Link>): Arcs {
    ActiveArcs(links) + set l | l in links && l.active :: (l.target, l.source)
  }

  ghost predicate WithinHops(links: seq<Link>, root: Node, n: Node, bound: int) {
    exists p :: WalkBetween(Hops(links), p, root, n) && |p| - 1 <= bound
  }

  /** The active links at a decision as edges, once per end. */
  ghost function EdgesAt(links: seq<Link>, id: Node): multiset<Edge> {
    if links == [] then multiset{} else EdgesOf(links[0], id) + EdgesAt(links[1..], id)
  }

  ghost function EdgesOf(l: Link, id: Node): multiset<Edge> {
    (if l.active && l.source == id then multiset{EdgeOf(l)} else multiset{})
    + (if l.active && l.target == id then multiset{EdgeOf(l)} else multiset{})
  }

  ghost function EdgesAtAll(links: seq<Link>, nodes: seq<Node>): multiset<Edge> {
    if nodes == [] then multiset{} else EdgesAt(links, nodes[0]) + EdgesAtAll(links, nodes[1..])
  }

  ghost predicate Consistent(links: seq<Link>, root: Node, maxDepth: int, t: Trace) {
    && t.visited == (set n | n in t.nodes)
    && (forall i, j :: 0 <= i < j < |t.nodes| ==> t.nodes[i] != t.nodes[j])
    && (forall n :: n in t.nodes ==> WithinHops(links, root, n, maxDepth))
  }

  /** From t to r new nodes were appended, and the edges grew by `here` plus everything at the new nodes. */
  ghost predicate Grew(links: seq<Link>, root: Node, maxDepth: int, t: Trace, r: Trace, here: multiset<Edge>) {
    && Consistent(links, root, maxDepth, r)
    && t.nodes <= r.nodes
    && multiset(r.edges) == multiset(t.edges) + here + EdgesAtAll(links, r.nodes[|t.nodes|..])
  }

  lemma EmptySum(x: multiset<Edge>)
    ensures multiset{} + x == x
  {
  }

  lemma HeadRegroups(here: multiset<Edge>, rest: multiset<Edge>, b: multiset<Edge>, restB: multiset<Edge>,
                     a: multiset<Edge>, ab: multiset<Edge>)
    requires restB == rest + b && a == here + rest && ab == here + restB
    ensures ab == a + b
  {
  }

  lemma {:induction false} EdgesAtAllAppend(links: seq<Link>, a: seq<Node>, b: seq<Node>)
    ensures EdgesAtAll(links, a + b) == EdgesAtAll(links, a) + EdgesAtAll(links, b)
  {
    if a == [] {
      assert a + b == b;
      EmptySum(EdgesAtAll(links, b));
    } else {
      EdgesAtAllAppend(links, a[1..], b);
      assert (a + b)[0] == a[0] && (a + b)[1..] == a[1..] + b;
      HeadRegroups(EdgesAt(links, a[0]), EdgesAtAll(links, a[1..]), EdgesAtAll(links, b),
                   EdgesAtAll(links, a[1..] + b), EdgesAtAll(links, a), EdgesAtAll(links, a + b));
    }
  }

  lemma GrowthsCombine(t: multiset<Edge>, one: multiset<Edge>, a: multiset<Edge>, m: multiset<Edge>,
                       two: multiset<Edge>, b: multiset<Edge>, r: multiset<Edge>, ab: multiset<Edge>)
    requires m == t + one + a && r == m + two + b && ab == a + b
    ensures r == t + (one + two) + ab
  {
  }

  lemma GrewTwice(links: seq<Link>, root: Node, maxDepth: int, t: Trace, m: Trace, r: Trace,
                  one: multiset<Edge>, two: multiset<Edge>)
    requires Grew(links, root, maxDepth, t, m, one) && Grew(links, root, maxDepth, m, r, two)
    ensures Grew(links, root, maxDepth, t, r, one + two)
  {
    var a, b := m.nodes[|t.nodes|..], r.nodes[|m.nodes|..];
    assert r.nodes[|t.nodes|..] == a + b;
    EdgesAtAllAppend(links, a, b);
    GrowthsCombine(multiset(t.edges), one, EdgesAtAll(links, a), multiset(m.edges), two, EdgesAtAll(links, b),
                   multiset(r.edges), EdgesAtAll(links, a + b));
  }

  ghost predicate HopWalk(links: seq<Link>, root: Node, n: Node, hops: int) {
    exists p :: WalkBetween(Hops(links), p, root, n) && |p| - 1 == hops
  }

  lemma HopFurther(links: seq<Link>, root: Node, n: Node, m: Node, hops: int)
    requires HopWalk(links, root, n, hops) && (n, m) in Hops(links)
    ensures HopWalk(links, root, m, hops + 1)
  {
    var p :| WalkBetween(Hops(links), p, root, n) && |p| - 1 == hops;
    assert WalkBetween(Hops(links), p + [m], root, m);
  }

  lemma LinkHops(links: seq<Link>, l: Link)
    requires l in links && l.active
    ensures (l.source, l.target) in Hops(links) && (l.target, l.source) in Hops(links)
  {
  }

  lemma EnteredStaysConsistent(links: seq<Link>, root: Node, maxDepth: int, id: Node, t: Trace)
    requires Consistent(links, root, maxDepth, t) && WithinHops(links, root, id, maxDepth) && id !in t.visited
    ensures Consistent(links, root, maxDepth, Entered(t, id))
  {
  }

  lemma ChargeNode(t: multiset<Edge>, here: multiset<Edge>, rest: multiset<Edge>, r: multiset<Edge>,
                   all: multiset<Edge>)
    requires r == t + here + rest && all == here + rest
    ensures r == t + multiset{} + all
  {
  }

  /** The edges drawn while standing at a new node are charged to that node. */
  lemma EnteredGrows(links: seq<Link>, root: Node, maxDepth: int, id: Node, t: Trace, r: Trace)
    requires Grew(links, root, maxDepth, Entered(t, id), r, EdgesAt(links, id))
    ensures Grew(links, root, maxDepth, t, r, multiset{})
  {
    var more := r.nodes[|t.nodes| + 1..];
    assert r.nodes[|t.nodes|..] == [id] + more && ([id] + more)[1..] == more;
    ChargeNode(multiset(t.edges), EdgesAt(links, id), EdgesAtAll(links, more),
               multiset(r.edges), EdgesAtAll(links, [id] + more));
  }

  lemma {:induction false} TraverseGrows(links: seq<Link>, root: Node, maxDepth: int, universe: set<Node>,
                                         id: Node, depth: int, t: Trace)
    requires Endpoints(links) <= universe && id in universe
    requires Consistent(links, root, maxDepth, t) && HopWalk(links, root, id, depth)
    ensures Grew(links, root, maxDepth, t, Traverse(links, maxDepth, universe, id, depth, t), multiset{})
    decreases universe - t.visited, 0
  {
    if depth <= maxDepth && id !in t.visited {
      assert WithinHops(links, root, id, maxDepth);
      EnteredStaysConsistent(links, root, maxDepth, id, t);
      ScanGrows(links, root, maxDepth, universe, id, depth, 0, Entered(t, id));
      assert links[0..] == links;
      EnteredGrows(links, root, maxDepth, id, t, Scan(links, maxDepth, universe, id, depth, 0, Entered(t, id)));
    } else {
      assert t.nodes[|t.nodes|..] == [];
    }
  }

  lemma {:induction false} ScanGrows(links: seq<Link>, root: Node, maxDepth: int, universe: set<Node>,
                                     id: Node, depth: int, i: nat, t: Trace)
    requires Endpoints(links) <= universe && i <= |links|
    requires Consistent(links, root, maxDepth, t) && HopWalk(links, root, id, depth)
    ensures Grew(links, root, maxDepth, t, Scan(links, maxDepth, universe, id, depth, i, t), EdgesAt(links[i..], id))
    decreases universe - t.visited, |links| - i + 1
  {
    if i < |links| {
      assert links[i].source in Endpoints(links) && links[i].target in Endpoints(links);
      LookGrows(links, root, maxDepth, universe, id, depth, links[i], t);
      var m := Look(links, maxDepth, universe, id, depth, links[i], t);
      ScanGrows(links, root, maxDepth, universe, id, depth, i + 1, m);
      GrewTwice(links, root, maxDepth, t, m, Scan(links, maxDepth, universe, id, depth, i + 1, m),
                EdgesOf(links[i], id), EdgesAt(links[i + 1..], id));
    } else {
      assert t.nodes[|t.nodes|..] == [];
    }
  }

  /** Drawing one edge at `id` and entering its other end. */
  lemma {:induction false} EmitGrows(links: seq<Link>, root: Node, maxDepth: int, universe: set<Node>,
                                     other: Node, depth: int, e: Edge, t: Trace)
    requires Endpoints(links) <= universe && other in universe
    requires Consistent(links, root, maxDepth, t) && HopWalk(links, root, other, depth)
    ensures Grew(links, root, maxDepth, t,
                 Traverse(links, maxDepth, universe, other, depth, t.(edges := t.edges + [e])), multiset{e})
    decreases universe - t.visited, 1, 0
  {
    var s := t.(edges := t.edges + [e]);
    assert t.nodes[|t.nodes|..] == [];
    assert Grew(links, root, maxDepth, t, s, multiset{e});
    TraverseGrows(links, root, maxDepth, universe, other, depth, s);
    GrewTwice(links, root, maxDepth, t, s, Traverse(links, maxDepth, universe, other, depth, s),
              multiset{e}, multiset{});
  }

  lemma {:induction false} LookGrows(links: seq<Link>, root: Node, maxDepth: int, universe: set<Node>,
                                     id: Node, depth: int, l: Link, t: Trace)
    requires Endpoints(links) <= universe && l in links && l.source in universe && l.target in universe
    requires Consistent(links, root, maxDepth, t) && HopWalk(links, root, id, depth)
    ensures Grew(links, root, maxDepth, t, Look(links, maxDepth, universe, id, depth, l, t), EdgesOf(l, id))
    decreases universe - t.visited, 1
  {
    assert t.nodes[|t.nodes|..] == [];
    if l.active {
      LinkHops(links, l);
      var e, t1 := EdgeOf(l), t;
      if l.source == id {
        HopFurther(links, root, id, l.target, depth);
        EmitGrows(links, root, maxDepth, universe, l.target, depth + 1, e, t);
        t1 := Traverse(links, maxDepth, universe, l.target, depth + 1, t.(edges := t.edges + [e]));
      }
      if l.target == id {
        HopFurther(links, root, id, l.source, depth);
        EmitGrows(links, root, maxDepth, universe, l.source, depth + 1, e, t1);
        var r := Traverse(links, maxDepth, universe, l.source, depth + 1, t1.(edges := t1.edges + [e]));
        GrewTwice(links, root, maxDepth, t, t1, r,
                  if l.source == id then multiset{e} else multiset{}, multiset{e});
      }
    }
  }

  // ---- completeness when the depth bound cannot bite ----

  /** `c` contains every undirected neighbour of its members. */
  ghost predicate Closed(links: seq<Link>, c: set<Node>) {
    forall n, m :: n in c && (n, m) in Hops(links) ==> m in c
  }

  ghost predicate Expanded(links: seq<Link>, t: Trace, r: Trace) {
    forall n, m :: n in r.visited - t.visited && (n, m) in Hops(links) ==> m in r.visited
  }

  lemma CountLeft(c: set<Node>, a: set<Node>, b: set<Node>)
    requires a <= b
    ensures |c - b| <= |c - a|
    ensures forall id :: id in c && id in b && id !in a ==> |c - b| + 1 <= |c - a|
  {
    assert c - b == (c - a) - ((c - a) * b);
    forall id | id in c && id in b && id !in a ensures |c - b| + 1 <= |c - a| {
      assert id in (c - a) * b;
    }
  }

  lemma {:induction false} TraverseExpands(links: seq<Link>, maxDepth: int, universe: set<Node>, c: set<Node>,
                                           id: Node, depth: int, t: Trace)
    requires Endpoints(links) <= universe && id in universe
    requires Closed(links, c) && id in c && depth + |c - t.visited| <= maxDepth + 1
    ensures var r := Traverse(links, maxDepth, universe, id, depth, t); id in r.visited && Expanded(links, t, r)
    decreases universe - t.visited, 0
  {
    if id !in t.visited {
      var t1 := Entered(t, id);
      CountLeft(c, t.visited, t1.visited);
      ScanExpands(links, maxDepth, universe, c, id, depth, 0, t1);
      var r := Scan(links, maxDepth, universe, id, depth, 0, t1);
      assert links[0..] == links;
      forall m | (id, m) in Hops(links) ensures m in r.visited {
        var l :| l in links && l.active && ((id, m) == (l.source, l.target) || (id, m) == (l.target, l.source));
        assert Reached(l, id, r);
      }
    }
  }

  ghost predicate Reached(l: Link, id: Node, r: Trace) {
    l.active ==> (l.source == id ==> l.target in r.visited) && (l.target == id ==> l.source in r.visited)
  }

  lemma {:induction false} ScanExpands(links: seq<Link>, maxDepth: int, universe: set<Node>, c: set<Node>,
                                       id: Node, depth: int, i: nat, t: Trace)
    requires Endpoints(links) <= universe && i <= |links|
    requires Closed(links, c) && id in c && depth + |c - t.visited| <= maxDepth
    ensures var r := Scan(links, maxDepth, universe, id, depth, i, t);
            Expanded(links, t, r) && forall l :: l in links[i..] ==> Reached(l, id, r)
    decreases universe - t.visited, |links| - i + 1
  {
    if i < |links| {
      var l := links[i];
      assert l.source in Endpoints(links) && l.target in Endpoints(links);
      LookExpands(links, maxDepth, universe, c, id, depth, l, t);
      var m := Look(links, maxDepth, universe, id, depth, l, t);
      CountLeft(c, t.visited, m.visited);
      ScanExpands(links, maxDepth, universe, c, id, depth, i + 1, m);
      assert links[i..] == [l] + links[i + 1..];
    }
  }

  lemma {:induction false} LookExpands(links: seq<Link>, maxDepth: int, universe: set<Node>, c: set<Node>,
                                       id: Node, depth: int, l: Link, t: Trace)
    requires Endpoints(links) <= universe && l in links && l.source in universe && l.target in universe
    requires Closed(links, c) && id in c && depth + |c - t.visited| <= maxDepth
    ensures var r := Look(links, maxDepth, universe, id, depth, l, t); Expanded(links, t, r) && Reached(l, id, r)
    decreases universe - t.visited, 1
  {
    if l.active {
      LinkHops(links, l);
      var t1 := t;
      if l.source == id {
        var s := t.(edges := t.edges + [EdgeOf(l)]);
        TraverseExpands(links, maxDepth, universe, c, l.target, depth + 1, s);
        t1 := Traverse(links, maxDepth, universe, l.target, depth + 1, s);
      }
      if l.target == id {
        var s := t1.(edges := t1.edges + [EdgeOf(l)]);
        CountLeft(c, t.visited, s.visited);
        TraverseExpands(links, maxDepth, universe, c, l.source, depth + 1, s);
      }
    }
  }

  // ---- the graph around a root ----

  ghost function GraphAround(links: seq<Link>, root: Node, maxDepth: int): Trace {
    Traverse(links, maxDepth, Endpoints(links) + {root}, root, 0, EMPTY_TRACE)
  }

  ghost function Component(links: seq<Link>, root: Node): set<Node> {
    set n | n in Endpoints(links) + {root} && Reach(Hops(links), root, n)
  }

  /** Nodes are distinct and near the root; edges are exactly the active links at each node, once per end. */
  lemma GraphIsAccurate(links: seq<Link>, root: Node, maxDepth: int)
    ensures var r := GraphAround(links, root, maxDepth);
            Consistent(links, root, maxDepth, r) && multiset(r.edges) == EdgesAtAll(links, r.nodes)
  {
    assert WalkBetween(Hops(links), [root], root, root);
    TraverseGrows(links, root, maxDepth, Endpoints(links) + {root}, root, 0, EMPTY_TRACE);
    var r := GraphAround(links, root, maxDepth);
    assert r.nodes[|EMPTY_TRACE.nodes|..] == r.nodes;
  }

  lemma {:induction false} WalkStaysInside(links: seq<Link>, c: set<Node>, p: seq<Node>)
    requires Closed(links, c) && Walk(Hops(links), p) && p[0] in c
    ensures p[|p| - 1] in c
    decreases |p|
  {
    if |p| > 1 {
      assert Walk(Hops(links), p[..|p| - 1]);
      WalkStaysInside(links, c, p[..|p| - 1]);
      assert (p[|p| - 2], p[|p| - 1]) in Hops(links);
    }
  }

  /** Once the bound covers the component's size, the nodes are exactly the component. */
  lemma GraphIsComplete(links: seq<Link>, root: Node, maxDepth: int)
    requires |Component(links, root)| <= maxDepth + 1
    ensures (set n | n in GraphAround(links, root, maxDepth).nodes) == Component(links, root)
  {
    var c, r, hops := Component(links, root), GraphAround(links, root, maxDepth), Hops(links);
    ReachSelf(hops, root);
    forall n, m | n in c && (n, m) in hops ensures m in c {
      ReachArc(hops, n, m);
      ReachTransitive(hops, root, n, m);
    }
    assert c - EMPTY_TRACE.visited == c;
    TraverseExpands(links, maxDepth, Endpoints(links) + {root}, c, root, 0, EMPTY_TRACE);
    GraphIsAccurate(links, root, maxDepth);
    assert Closed(links, r.visited);
    forall n | n in c ensures n in r.visited {
      var p :| WalkBetween(hops, p, root, n);
      WalkStaysInside(links, r.visited, p);
    }
    forall n | n in r.visited ensures n in c {
      assert WithinHops(links, root, n, maxDepth);
      var p :| WalkBetween(hops, p, root, n) && |p| - 1 <= maxDepth;
      WalkStaysInside(links, c, p);
    }
  }

  // ---- how often an edge is drawn ----

  /** The positions of the active links with the given fields. */
  ghost function Matching(links: seq<Link>, source: Node, target: Node, relationship: Relationship): set<nat> {
    set i: nat | i < |links| && Duplicates(links[i], source, target, relationship)
  }

  lemma MatchingFirst(links: seq<Link>, source: Node, target: Node, relationship: Relationship)
    requires links != []
    ensures |Matching(links, source, target, relationship)|
         == |Matching(links[1..], source, target, relationship)|
          + (if Duplicates(links[0], source, target, relationship) then 1 else 0)
  {
    var all, rest := Matching(links, source, target, relationship), Matching(links[1..], source, target, relationship);
    forall i: nat ensures i in rest <==> i + 1 in all {
      assert i + 1 < |links| ==> links[i + 1] == links[1..][i];
    }
    ShiftKeepsSize(rest, all - {0});
    assert all - {0} == if 0 in all then all - {0} else all;
  }

  lemma {:induction false} ShiftKeepsSize(low: set<nat>, high: set<nat>)
    requires 0 !in high && forall i: nat :: i in low <==> i + 1 in high
    ensures |low| == |high|
    decreases |low|
  {
    assert forall y :: y in high ==> y - 1 in low;
    if x :| x in low {
      ShiftKeepsSize(low - {x}, high - {x + 1});
    } else {
      assert high == {};
    }
  }

  lemma EdgesOfCount(l: Link, id: Node, source: Node, target: Node, relationship: Relationship)
    ensures EdgesOf(l, id)[Edge(source, target, relationship)]
         == if !Duplicates(l, source, target, relationship) then 0
            else (if source == id then 1 else 0) + (if target == id then 1 else 0)
  {
  }

  lemma {:induction false} EdgesAtCount(links: seq<Link>, id: Node,
                                        source: Node, target: Node, relationship: Relationship)
    ensures EdgesAt(links, id)[Edge(source, target, relationship)]
         == (if source == id then |Matching(links, source, target, relationship)| else 0)
          + (if target == id then |Matching(links, source, target, relationship)| else 0)
  {
    if links != [] {
      EdgesOfCount(links[0], id, source, target, relationship);
      EdgesAtCount(links[1..], id, source, target, relationship);
      MatchingFirst(links, source, target, relationship);
    }
  }

  lemma {:induction false} EdgesAtAllCount(links: seq<Link>, nodes: seq<Node>,
                                           source: Node, target: Node, relationship: Relationship)
    requires forall i, j :: 0 <= i < j < |nodes| ==> nodes[i] != nodes[j]
    ensures EdgesAtAll(links, nodes)[Edge(source, target, relationship)]
         == (if source in nodes then |Matching(links, source, target, relationship)| else 0)
          + (if target in nodes then |Matching(links, source, target, relationship)| else 0)
  {
    if nodes != [] {
      EdgesAtCount(links, nodes[0], source, target, relationship);
      EdgesAtAllCount(links, nodes[1..], source, target, relationship);
      assert nodes[0] !in nodes[1..];
    }
  }

  /** An edge is drawn once for each active link with its three fields and each end among the nodes. */
  lemma EdgeDrawnOncePerEnd(links: seq<Link>, root: Node, maxDepth: int,
                            source: Node, target: Node, relationship: Relationship)
    ensures multiset(GraphAround(links, root, maxDepth).edges)[Edge(source, target, relationship)]
            == (if source in GraphAround(links, root, maxDepth).nodes
                then |Matching(links, source, target, relationship)| else 0)
             + (if target in GraphAround(links, root, maxDepth).nodes
                then |Matching(links, source, target, relationship)| else 0)
  {
    GraphIsAccurate(links, root, maxDepth);
    EdgesAtAllCount(links, GraphAround(links, root, maxDepth).nodes, source, target, relationship);
  }

  /** Ends of active links at a decision; a self-link has two. */
  function Degree(links: seq<Link>, id: Node): nat {
    if links == [] then 0 else Ends(links[0], id) + Degree(links[1..], id)
  }

  function Ends(l: Link, id: Node): nat {
    (if l.active && l.source == id then 1 else 0) + (if l.active && l.target == id then 1 else 0)
  }

  function DegreeSum(links: seq<Link>, nodes: seq<Node>): nat {
    if nodes == [] then 0 else Degree(links, nodes[0]) + DegreeSum(links, nodes[1..])
  }

  lemma {:induction false} DegreeCountsEdges(links: seq<Link>, id: Node)
    ensures |EdgesAt(links, id)| == Degree(links, id)
  {
    if links != [] {
      DegreeCountsEdges(links[1..], id);
    }
  }

  lemma {:induction false} DegreeSumCountsEdges(links: seq<Link>, nodes: seq<Node>)
    ensures |EdgesAtAll(links, nodes)| == DegreeSum(links, nodes)
  {
    if nodes != [] {
      DegreeCountsEdges(links, nodes[0]);
      DegreeSumCountsEdges(links, nodes[1..]);
    }
  }

  lemma EdgeCountIsDegreeSum(links: seq<Link>, root: Node, maxDepth: int)
    ensures var r := GraphAround(links, root, maxDepth); |r.edges| == DegreeSum(links, r.nodes)
  {
    var r := GraphAround(links, root, maxDepth);
    GraphIsAccurate(links, root, maxDepth);
    DegreeSumCountsEdges(links, r.nodes);
    assert |multiset(r.edges)| == |r.edges|;
  }

  /** The shared lists of the traversal, filled by nested calls. */
  class GraphBuilder {
    const links: seq<ProvenanceLink>
    const maxDepth: int
    var visited: set<Node>
    var nodes: seq<Node>
    var edges: seq<Edge>

    constructor (links: seq<ProvenanceLink>, maxDepth: int)
      ensures this.links == links && this.maxDepth == maxDepth && Now() == EMPTY_TRACE
    {
      this.links, this.maxDepth := links, maxDepth;
      visited, nodes, edges := {}, [], [];
    }

    ghost function Now(): Trace
      reads this
    {
      Trace(visited, nodes, edges)
    }

    method Visit(decisionId: Node, depth: int, ghost universe: set<Node>)
      requires Endpoints(Values(links)) <= universe && decisionId in universe
      modifies this
      ensures Now() == Traverse(Values(links), maxDepth, universe, decisionId, depth, old(Now()))
      ensures old(visited) <= visited
      decreases universe - visited, 0, 0
    {
      if depth > maxDepth || decisionId in visited {
        return;
      }
      ghost var vs := Values(links);
      ghost var all := Traverse(vs, maxDepth, universe, decisionId, depth, Now());
      visited := visited + {decisionId};
      nodes := nodes + [decisionId];
      for i := 0 to |links|
        invariant Values(links) == vs && old(visited) + {decisionId} <= visited
        invariant all == Scan(vs, maxDepth, universe, decisionId, depth, i, Now())
      {
        assert vs[i] in vs;
        VisitEnds(decisionId, depth, links[i], universe);
      }
    }

    /** The body of the loop for one link. */
    method VisitEnds(decisionId: Node, depth: int, l: ProvenanceLink, ghost universe: set<Node>)
      requires Endpoints(Values(links)) <= universe && l.source in universe && l.target in universe
      modifies this
      ensures Now() == Look(Values(links), maxDepth, universe, decisionId, depth, l.Value(), old(Now()))
      ensures old(visited) <= visited
      decreases universe - visited, 1
    {
      if l.active {
        if l.source == decisionId {
          EmitAndVisit(l, l.target, depth, universe);
        }
        if l.target == decisionId {
          EmitAndVisit(l, l.source, depth, universe);
        }
      }
    }

    method EmitAndVisit(l: ProvenanceLink, other: Node, depth: int, ghost universe: set<Node>)
      requires Endpoints(Values(links)) <= universe && other in universe
      modifies this
      ensures Now() == Traverse(Values(links), maxDepth, universe, other, depth + 1,
                                old(Trace(visited, nodes, edges + [EdgeOf(l.Value())])))
      ensures old(visited) <= visited
      decreases universe - visited, 0, 1
    {
      edges := edges + [Edge(l.source, l.target, l.relationship)];
      Visit(other, depth + 1, universe);
    }
  }

  lemma RootComesFirst(links: seq<Link>, root: Node, maxDepth: int)
    ensures var ns := GraphAround(links, root, maxDepth).nodes;
            if maxDepth < 0 then ns == [] else ns != [] && ns[0] == root
  {
    if maxDepth >= 0 {
      var u, t := Endpoints(links) + {root}, Entered(EMPTY_TRACE, root);
      assert WalkBetween(Hops(links), [root], root, root);
      assert WithinHops(links, root, root, maxDepth);
      EnteredStaysConsistent(links, root, maxDepth, root, EMPTY_TRACE);
      ScanGrows(links, root, maxDepth, u, root, 0, 0, t);
      assert GraphAround(links, root, maxDepth) == Scan(links, maxDepth, u, root, 0, 0, t);
      assert t.nodes == [root];
    }
  }

  method BuildGraph(links: seq<ProvenanceLink>, root: Node, maxDepth: int) returns (nodes: seq<Node>, edges: seq<Edge>)
    ensures nodes == GraphAround(Values(links), root, maxDepth).nodes
    ensures edges == GraphAround(Values(links), root, maxDepth).edges
    ensures if maxDepth < 0 then nodes == [] else nodes != [] && nodes[0] == root
    ensures forall source, target, relationship ::
              var drawn := |set i: nat | i < |links| && links[i].active && links[i].source == source
                                         && links[i].target == target && links[i].relationship == relationship|;
              multiset(edges)[Edge(source, target, relationship)]
              == (if source in nodes then drawn else 0) + (if target in nodes then drawn else 0)
  {
    var builder := new GraphBuilder(links, maxDepth);
    builder.Visit(root, 0, Endpoints(Values(links)) + {root});
    nodes, edges := builder.nodes, builder.edges;
    RootComesFirst(Values(links), root, maxDepth);
    forall source, target, relationship
      ensures var drawn := |set i: nat | i < |links| && links[i].active && links[i].source == source
                                         && links[i].target == target && links[i].relationship == relationship|;
              multiset(edges)[Edge(source, target, relationship)]
              == (if source in nodes then drawn else 0) + (if target in nodes then drawn else 0)
    {
      EdgeDrawnOncePerEnd(Values(links), root, maxDepth, source, target, relationship);
      MatchingLinks(links, source, target, relationship);
    }
  }

  lemma MatchingLinks(links: seq<ProvenanceLink>, source: Node, target: Node, relationship: Relationship)
    ensures (set i: nat | i < |links| && links[i].active && links[i].source == source
                          && links[i].target == target && links[i].relationship == relationship)
         == Matching(Values(links), source, target, relationship)
  {
  }
}
