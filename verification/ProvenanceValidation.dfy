/** Validation of a proposed provenance link: self-reference, duplicates, and a depth-first search for cycles. */
module ProvenanceValidation {
  import opened Options
  import opened Digraph
  import opened ProvenanceLinks

  type Adjacency = map<Node, seq<Node>>

  ghost predicate Represents(adjacency: Adjacency, g: Arcs) {
    forall u, v :: (u, v) in g <==> u in adjacency && v in adjacency[u]
  }

  /** The recursion stack spells a walk; everything visited is on it or is finished in topological order. */
  ghost predicate Searching(g: Arcs, visited: set<Node>, recStack: set<Node>, finished: seq<Node>, stack: seq<Node>) {
    && recStack == (set u | u in stack)
    && visited == recStack + (set u | u in finished)
    && (forall u :: u in stack ==> u !in finished)
    && (forall i, j :: 0 <= i < j < |stack| ==> stack[i] != stack[j])
    && (stack != [] ==> Walk(g, stack))
    && FinishOrder(g, finished)
  }

  lemma NodeEntered(g: Arcs, visited: set<Node>, recStack: set<Node>, finished: seq<Node>, stack: seq<Node>, node: Node)
    requires Searching(g, visited, recStack, finished, stack) && node !in visited
    requires stack != [] ==> (stack[|stack| - 1], node) in g
    ensures Searching(g, visited + {node}, recStack + {node}, finished, stack + [node])
  {
  }

  lemma NodeFinished(g: Arcs, visited: set<Node>, recStack: set<Node>, finished: seq<Node>, stack: seq<Node>,
                     node: Node)
    requires Searching(g, visited, recStack, finished, stack + [node])
    requires forall v :: (node, v) in g ==> v in finished
    ensures Searching(g, visited, recStack - {node}, finished + [node], stack)
  {
    var path, order := stack + [node], finished + [node];
    assert path[|stack|] == node && forall i :: 0 <= i < |stack| ==> stack[i] == path[i];
    forall u | u in stack ensures u != node && u in path {
      var i :| 0 <= i < |stack| && stack[i] == u;
      assert path[i] != path[|stack|];
    }
    forall i, v | 0 <= i < |order| && (order[i], v) in g ensures v in order[..i] {
      assert order[..i] == finished[..i];
    }
  }

  /** The state shared by the nested calls of the search. */
  class CycleSearch {
    const adjacency: Adjacency
    ghost const g: Arcs
    var visited: set<Node>
    var recStack: set<Node>
    ghost var finished: seq<Node>

    constructor (adjacency: Adjacency, ghost g: Arcs)
      requires Represents(adjacency, g)
      ensures this.adjacency == adjacency && this.g == g && Valid([])
      ensures visited == {} && finished == []
    {
      this.adjacency, this.g := adjacency, g;
      visited, recStack := {}, {};
      finished := [];
    }

    ghost predicate Valid(stack: seq<Node>)
      reads this
    {
      Represents(adjacency, g) && Searching(g, visited, recStack, finished, stack)
    }

    ghost function Universe(): set<Node> {
      adjacency.Keys + set u, v | u in adjacency && v in adjacency[u] :: v
    }

    method Dfs(node: Node, ghost stack: seq<Node>) returns (found: bool)
      requires Valid(stack) && node !in visited && node in Universe()
      requires stack != [] ==> (stack[|stack| - 1], node) in g
      modifies this
      ensures found ==> CycleReachable(g, (stack + [node])[0])
      ensures !found ==> Valid(stack) && node in finished
      ensures old(finished) <= finished && old(visited) <= visited
      decreases Universe() - visited
    {
      visited := visited + {node};
      recStack := recStack + {node};
      ghost var path := stack + [node];
      NodeEntered(g, old(visited), old(recStack), finished, stack, node);

      var neighbors := if node in adjacency then adjacency[node] else [];
      var i := 0;
      while i < |neighbors|
        invariant 0 <= i <= |neighbors|
        invariant Valid(path)
        invariant old(finished) <= finished && old(visited) + {node} <= visited
        invariant forall k :: 0 <= k < i ==> neighbors[k] in finished
      {
        var neighbor := neighbors[i];
        assert (node, neighbor) in g;
        if neighbor !in visited {
          found := Dfs(neighbor, path);
          if found {
            assert (path + [neighbor])[0] == path[0];
            return;
          }
        } else if neighbor in recStack {
          BackArcClosesCycle(path, neighbor);
          found := true;
          return;
        }
        i := i + 1;
      }

      NodeFinished(g, visited, recStack, finished, stack, node);
      recStack := recStack - {node};
      finished := finished + [node];
      found := false;
    }

    lemma BackArcClosesCycle(path: seq<Node>, back: Node)
      requires path != [] && Walk(g, path) && back in path && (path[|path| - 1], back) in g
      ensures CycleReachable(g, path[0])
    {
      var k :| 0 <= k < |path| && path[k] == back;
      var last := path[|path| - 1];
      assert WalkBetween(g, path, path[0], last);
      assert WalkBetween(g, path[k..], back, last);
      assert OnCycle(g, last);
    }
  }

  method BuildAdjacency(existing: seq<ProvenanceLink>) returns (adjacency: Adjacency)
    ensures Represents(adjacency, ActiveArcs(Values(existing)))
  {
    adjacency := map[];
    ghost var values := Values(existing);
    for i := 0 to |existing|
      invariant Represents(adjacency, ActiveArcs(values[..i]))
    {
      ActiveArcsAppend(values[..i], values[i]);
      assert values[..i + 1] == values[..i] + [values[i]];
      if !existing[i].active {
        continue;
      }
      adjacency := AddNeighbor(adjacency, ActiveArcs(values[..i]), existing[i].source, existing[i].target);
    }
    assert values[..|existing|] == values;
  }

  method AddNeighbor(adjacency: Adjacency, ghost g: Arcs, src: Node, tgt: Node) returns (r: Adjacency)
    requires Represents(adjacency, g)
    ensures Represents(r, g + {(src, tgt)})
    ensures src in r && tgt in r[src]
  {
    r := adjacency;
    if src !in r {
      r := r[src := []];
    }
    r := r[src := r[src] + [tgt]];
  }

  /** A fresh search from one node of the index. */
  method SearchFrom(start: Node, adjacency: Adjacency, ghost g: Arcs) returns (found: bool)
    requires Represents(adjacency, g) && start in adjacency
    ensures found <==> CycleReachable(g, start)
  {
    var search := new CycleSearch(adjacency, g);
    found := search.Dfs(start, []);
    if !found {
      FinishedReachesNoCycle(g, search.finished, start);
    }
  }

  lemma ArcsOfStored(existing: seq<ProvenanceLink>)
    ensures ActiveArcs(Values(existing)) == set e | e in existing && e.active :: (e.source, e.target)
  {
    forall a ensures a in ActiveArcs(Values(existing))
                     <==> a in (set e | e in existing && e.active :: (e.source, e.target))
    {
      if a in ActiveArcs(Values(existing)) {
        var i :| 0 <= i < |existing| && Values(existing)[i].active && (existing[i].source, existing[i].target) == a;
        assert existing[i].active;
      }
      if e :| e in existing && e.active && (e.source, e.target) == a {
        var i :| 0 <= i < |existing| && existing[i] == e;
        assert Values(existing)[i] in Values(existing);
      }
    }
  }

  /** True exactly when a cycle can be reached from the proposed source once the proposed link is added. */
  method CheckCycles(sourceId: Node, targetId: Node, existing: seq<ProvenanceLink>)
    returns (hasCycle: bool, error: Option<string>)
    ensures hasCycle <==> CycleReachable(ActiveArcs(Values(existing)) + {(sourceId, targetId)}, sourceId)
    ensures hasCycle <==> CycleReachable((set e | e in existing && e.active :: (e.source, e.target))
                                         + {(sourceId, targetId)}, sourceId)
    ensures error == if hasCycle then Some("Adding link would create a cycle") else None
  {
    var adjacency := BuildAdjacency(existing);
    ghost var g := ActiveArcs(Values(existing));
    adjacency := AddNeighbor(adjacency, g, sourceId, targetId);
    assert (sourceId, targetId) in g + {(sourceId, targetId)};
    hasCycle := SearchFrom(sourceId, adjacency, g + {(sourceId, targetId)});
    ArcsOfStored(existing);
    error := if hasCycle then Some("Adding link would create a cycle") else None;
  }

  /** The self-reference and duplicate scan. */
  method CheckLink(source: Node, target: Node, relationship: Relationship, existing: seq<ProvenanceLink>)
    returns (valid: bool, error: Option<string>)
    ensures valid <==> (source != target
                        && forall i :: 0 <= i < |existing| ==>
                             !Duplicates(existing[i].Value(), source, target, relationship))
    ensures valid <==> (source != target && !AlreadyActive(existing, source, target, relationship))
    ensures error == if source == target then Some("Cannot link a decision to itself")
                     else if valid then None
                     else Some("Duplicate link already exists")
  {
    if source == target {
      return false, Some("Cannot link a decision to itself");
    }
    for i := 0 to |existing|
      invariant forall k :: 0 <= k < i ==> !Duplicates(existing[k].Value(), source, target, relationship)
    {
      var e := existing[i];
      if e.source == source && e.target == target && e.relationship == relationship && e.active {
        return false, Some("Duplicate link already exists");
      }
    }
    return true, None;
  }

  /** Some active stored link has the same two ends and the same relationship. */
  ghost predicate AlreadyActive(existing: seq<ProvenanceLink>, source: Node, target: Node, relationship: Relationship)
    reads existing
  {
    exists i :: 0 <= i < |existing| && existing[i].active && existing[i].source == source
                && existing[i].target == target && existing[i].relationship == relationship
  }

  /** The condition under which a proposed link is accepted. */
  ghost predicate Accepts(links: seq<Link>, source: Node, target: Node, relationship: Relationship) {
    && source != target
    && (forall i :: 0 <= i < |links| ==> !Duplicates(links[i], source, target, relationship))
    && !CycleReachable(ActiveArcs(links) + {(source, target)}, source)
  }

  /** The existence checks of the repository always answer yes, so only the graph checks can reject. */
  method ValidateLink(source: Node, target: Node, relationship: Relationship, existing: seq<ProvenanceLink>)
    returns (valid: bool, error: Option<string>)
    ensures valid <==> Accepts(Values(existing), source, target, relationship)
    ensures valid <==>
            && source != target && !AlreadyActive(existing, source, target, relationship)
            && !CycleReachable((set e | e in existing && e.active :: (e.source, e.target)) + {(source, target)}, source)
    ensures error == if valid then None
                     else if source == target then Some("Cannot link a decision to itself")
                     else if AlreadyActive(existing, source, target, relationship)
                     then Some("Duplicate link already exists")
                     else Some("Adding link would create a cycle")
  {
    valid, error := CheckLink(source, target, relationship, existing);
    if !valid {
      return;
    }
    var hasCycle, cycleError := CheckCycles(source, target, existing);
    if hasCycle {
      return false, cycleError;
    }
    return true, None;
  }

  /** Over a sound store, validation accepts exactly the links that keep the store sound. */
  lemma AcceptsExactlySoundExtensions(links: seq<Link>, l: Link)
    requires Sound(links) && l.active
    ensures Accepts(links, l.source, l.target, l.relationship) <==> Sound(links + [l])
  {
    var more := links + [l];
    ActiveArcsAppend(links, l);
    NewArcClosesCycle(ActiveArcs(links), l.source, l.target);
    assert more[|links|] == l && l in more;
    if Accepts(links, l.source, l.target, l.relationship) {
      forall i, j | 0 <= i < j < |more| && more[i].active
        ensures !Duplicates(more[j], more[i].source, more[i].target, more[i].relationship)
      {
        if j == |links| {
          assert !Duplicates(links[i], l.source, l.target, l.relationship);
        }
      }
    }
    if Sound(more) {
      forall i | 0 <= i < |links| ensures !Duplicates(links[i], l.source, l.target, l.relationship) {
        assert more[i] == links[i];
        assert more[i].active ==> !Duplicates(more[|links|], more[i].source, more[i].target, more[i].relationship);
      }
    }
  }

  /**
   * When the store is not acyclic the search can blame a link for a cycle it does not lie on: it answers
   * "cycle" exactly when the link closes one, or an older cycle was reachable from one of its ends.
   */
  lemma CheckCyclesBlamesOldCycles(links: seq<Link>, source: Node, target: Node)
    ensures CycleReachable(ActiveArcs(links) + {(source, target)}, source) <==>
            (Reach(ActiveArcs(links), target, source)
             || CycleReachable(ActiveArcs(links), source) || CycleReachable(ActiveArcs(links), target))
  {
    CycleReachableAfterNewArc(ActiveArcs(links), source, target);
  }

  /** For instance: with a -> b -> a already stored, the harmless link c -> a is reported as a cycle. */
  lemma HarmlessLinkBlamed(links: seq<Link>)
    requires links == [Link("1", "a", "b", InputTo, true), Link("2", "b", "a", InputTo, true)]
    ensures !Reach(ActiveArcs(links), "a", "c")
    ensures CycleReachable(ActiveArcs(links) + {("c", "a")}, "c")
  {
    var g := ActiveArcs(links);
    assert links[0] in links && links[1] in links;
    assert ("a", "b") in g && ("b", "a") in g;
    ReachArc(g, "b", "a");
    assert OnCycle(g, "a");
    ReachSelf(g, "a");
    CycleReachableAfterNewArc(g, "c", "a");
    forall x ensures (x, "c") !in g {
      assert forall l :: l in links ==> l == links[0] || l == links[1];
    }
    ReachedByArc(g, "a", "c");
  }
}
