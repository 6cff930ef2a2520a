/** The link store: creation, soft removal, lookup, and the bounded traversal that draws the graph around a decision. */
module ProvenanceLinker {
  import opened Digraph
  import opened ProvenanceLinks
  import opened ProvenanceTraversal
  import opened ProvenanceValidation

  datatype Event =
    | LinkCreated(actor: string, linkId: string, source: Node, target: Node, at: int)
    | LinkRemoved(actor: string, linkId: string, at: int)

  /** Soft removal: the first link with the id becomes inactive, nothing else changes. */
  function Removed(links: seq<Link>, linkId: string): (r: seq<Link>)
    ensures |r| == |links|
  {
    if links == [] then []
    else if links[0].id == linkId then [links[0].(active := false)] + links[1..]
    else [links[0]] + Removed(links[1..], linkId)
  }

  lemma {:induction false} RemovedAt(links: seq<Link>, linkId: string, k: nat)
    requires k < |links|
    requires links[k].id == linkId && forall i :: 0 <= i < k ==> links[i].id != linkId
    ensures Removed(links, linkId) == links[k := links[k].(active := false)]
  {
    if k > 0 {
      RemovedAt(links[1..], linkId, k - 1);
      assert links == [links[0]] + links[1..];
    }
  }

  lemma {:induction false} RemovedMissing(links: seq<Link>, linkId: string)
    requires forall i :: 0 <= i < |links| ==> links[i].id != linkId
    ensures Removed(links, linkId) == links
  {
    if links != [] {
      RemovedMissing(links[1..], linkId);
      assert links == [links[0]] + links[1..];
    }
  }

  /** Removal only ever turns flags off. */
  lemma {:induction false} RemovedKeepsRest(links: seq<Link>, linkId: string, i: nat)
    requires i < |links|
    ensures Removed(links, linkId)[i] in {links[i], links[i].(active := false)}
  {
    if links[0].id != linkId && i > 0 {
      RemovedKeepsRest(links[1..], linkId, i - 1);
    }
  }

  lemma RemovedStaysSound(links: seq<Link>, linkId: string)
    requires Sound(links)
    ensures Sound(Removed(links, linkId))
  {
    var left := Removed(links, linkId);
    forall i | 0 <= i < |left| ensures left[i] in {links[i], links[i].(active := false)} {
      RemovedKeepsRest(links, linkId, i);
    }
    forall a | a in ActiveArcs(left) ensures a in ActiveArcs(links) {
      var l :| l in left && l.active && (l.source, l.target) == a;
      var i :| 0 <= i < |left| && left[i] == l;
      assert links[i] in links;
    }
    AcyclicSubgraph(ActiveArcs(left), ActiveArcs(links));
    forall l | l in left && l.active ensures l.source != l.target {
      var i :| 0 <= i < |left| && left[i] == l;
      assert links[i] in links;
    }
    forall i, j | 0 <= i < j < |left| && left[i].active
      ensures !Duplicates(left[j], left[i].source, left[i].target, left[i].relationship)
    {
      assert left[i] == links[i];
      assert left[j] in {links[j], links[j].(active := false)};
    }
  }

  /** One request against the store: a link declared through validation, or a removal. */
  datatype Request =
    | Declare(id: string, source: Node, target: Node, relationship: Relationship)
    | Remove(linkId: string)

  ghost function Apply(links: seq<Link>, r: Request): seq<Link> {
    match r
    case Declare(id, s, t, rel) =>
      if Accepts(links, s, t, rel) then links + [Link(id, s, t, rel, true)] else links
    case Remove(linkId) => Removed(links, linkId)
  }

  ghost function Run(links: seq<Link>, requests: seq<Request>): seq<Link>
    decreases |requests|
  {
    if requests == [] then links else Run(Apply(links, requests[0]), requests[1..])
  }

  /** Every run of validated declarations and removals keeps a sound store sound. */
  lemma {:induction false} RunStaysSound(links: seq<Link>, requests: seq<Request>)
    requires Sound(links)
    ensures Sound(Run(links, requests))
    decreases |requests|
  {
    if requests != [] {
      match requests[0]
      case Declare(id, s, t, rel) =>
        AcceptsExactlySoundExtensions(links, Link(id, s, t, rel, true));
        RunStaysSound(Apply(links, requests[0]), requests[1..]);
      case Remove(linkId) =>
        RemovedStaysSound(links, linkId);
        RunStaysSound(Apply(links, requests[0]), requests[1..]);
    }
  }

  /** What soundness means for the stored fields. */
  lemma SoundMeans(links: seq<Link>, i: nat, j: nat)
    requires Sound(links) && i < |links| && j < |links| && links[i].active && links[j].active
    ensures links[i].source != links[i].target
    ensures i != j ==> (links[i].source, links[i].target, links[i].relationship)
                       != (links[j].source, links[j].target, links[j].relationship)
    ensures forall p :: Walk((set l | l in links && l.active :: (l.source, l.target)), p) && |p| > 1 ==>
              p[0] != p[|p| - 1]
  {
    assert links[i] in links;
    if i < j {
      assert !Duplicates(links[j], links[i].source, links[i].target, links[i].relationship);
    } else if j < i {
      assert !Duplicates(links[i], links[j].source, links[j].target, links[j].relationship);
    }
    var arcs := set l | l in links && l.active :: (l.source, l.target);
    assert arcs == ActiveArcs(links);
    forall p | Walk(arcs, p) && |p| > 1 ensures p[0] != p[|p| - 1] {
      assert (p[0], p[1]) in arcs;
      assert WalkBetween(arcs, p[1..], p[1], p[|p| - 1]);
      assert !OnCycle(arcs, p[0]);
    }
  }

  /** In particular every run that starts from a new linker. */
  lemma RunFromEmptyIsSound(requests: seq<Request>)
    ensures Sound(Run([], requests))
  {
    assert ActiveArcs([]) == {};
    RunStaysSound([], requests);
  }

  /** The active links into a decision among the first n. */
  ghost function Into(links: seq<Link>, id: Node, n: nat): seq<Link>
    requires n <= |links|
  {
    if n == 0 then []
    else
      var last := links[n - 1];
      Into(links, id, n - 1) + (if last.active && last.target == id then [last] else [])
  }

  ghost function OutOf(links: seq<Link>, id: Node, n: nat): seq<Link>
    requires n <= |links|
  {
    if n == 0 then []
    else
      var last := links[n - 1];
      OutOf(links, id, n - 1) + (if last.active && last.source == id then [last] else [])
  }

  lemma {:induction false} DegreeAppend(links: seq<Link>, l: Link, id: Node)
    ensures Degree(links + [l], id) == Degree(links, id) + Degree([l], id)
  {
    if links == [] {
      assert links + [l] == [l];
    } else {
      DegreeAppend(links[1..], l, id);
      assert (links + [l])[1..] == links[1..] + [l];
    }
  }

  /** The incoming and outgoing lists of a decision are its active link ends, as counted for the drawn graph. */
  lemma {:induction false} RelationshipsCountDegree(links: seq<Link>, id: Node, n: nat)
    requires n <= |links|
    ensures |Into(links, id, n)| + |OutOf(links, id, n)| == Degree(links[..n], id)
  {
    if n > 0 {
      RelationshipsCountDegree(links, id, n - 1);
      DegreeAppend(links[..n - 1], links[n - 1], id);
      assert links[..n] == links[..n - 1] + [links[n - 1]];
    }
  }

  /** The picked links are those at the given increasing positions of the store. */
  ghost predicate PickedAt(links: seq<Link>, picked: seq<Link>, at: seq<nat>) {
    && |at| == |picked|
    && (forall k :: 0 <= k < |at| ==> at[k] < |links| && links[at[k]] == picked[k])
    && (forall k :: 0 < k < |at| ==> at[k - 1] < at[k])
  }

  /** The incoming list holds, in store order, exactly the active links whose target is the decision. */
  lemma {:induction false} IntoExactly(links: seq<Link>, id: Node, n: nat) returns (at: seq<nat>)
    requires n <= |links|
    ensures PickedAt(links, Into(links, id, n), at)
    ensures forall i: nat :: i in at <==> i < n && links[i].active && links[i].target == id
  {
    at := [];
    if n > 0 {
      at := IntoExactly(links, id, n - 1);
      at := at + if links[n - 1].active && links[n - 1].target == id then [n - 1] else [];
    }
  }

  /** The outgoing list likewise holds those whose source it is. */
  lemma {:induction false} OutOfExactly(links: seq<Link>, id: Node, n: nat) returns (at: seq<nat>)
    requires n <= |links|
    ensures PickedAt(links, OutOf(links, id, n), at)
    ensures forall i: nat :: i in at <==> i < n && links[i].active && links[i].source == id
  {
    at := [];
    if n > 0 {
      at := OutOfExactly(links, id, n - 1);
      at := at + if links[n - 1].active && links[n - 1].source == id then [n - 1] else [];
    }
  }

  class Linker {
    var links: seq<ProvenanceLink>
    var events: seq<Event>

    constructor ()
      ensures links == [] && events == []
    {
      links, events := [], [];
    }

    /** The stored objects are distinct, so switching one off leaves the others alone. */
    ghost predicate Valid()
      reads this
    {
      forall i, j :: 0 <= i < j < |links| ==> links[i] != links[j]
    }

    method CreateLink(id: string, source: Node, target: Node, relationship: Relationship,
                      declaredBy: string, context: string, now: int) returns (link: ProvenanceLink)
      requires Valid()
      modifies this
      ensures Valid() && fresh(link)
      ensures links == old(links) + [link]
      ensures Values(links) == old(Values(links)) + [Link(id, source, target, relationship, true)]
      ensures link.id == id && link.source == source && link.target == target && link.relationship == relationship
      ensures link.active && link.declaredBy == declaredBy && link.declaredAt == now && link.context == context
      ensures events == old(events) + [LinkCreated(declaredBy, id, source, target, now)]
    {
      link := new ProvenanceLink(id, source, target, relationship, declaredBy, now, context);
      links := links + [link];
      events := events + [LinkCreated(declaredBy, id, source, target, now)];
    }

    method RemoveLink(linkId: string, removedBy: string, now: int) returns (removed: bool)
      requires Valid()
      modifies this`events, links
      ensures Valid()
      ensures Values(links) == Removed(old(Values(links)), linkId)
      ensures removed <==> exists i :: 0 <= i < |links| && links[i].id == linkId
    {
      ghost var was := Values(links);
      for i := 0 to |links|
        invariant Values(links) == was
        invariant forall k :: 0 <= k < i ==> links[k].id != linkId
      {
        if links[i].id == linkId {
          links[i].active := false;
          events := events + [LinkRemoved(removedBy, linkId, now)];
          RemovedAt(was, linkId, i);
          assert Values(links) == was[i := was[i].(active := false)];
          return true;
        }
      }
      RemovedMissing(was, linkId);
      return false;
    }

    /** The guarded path: validate, and create only when the answer is yes. */
    method DeclareLink(id: string, source: Node, target: Node, relationship: Relationship,
                       declaredBy: string, context: string, now: int) returns (created: bool)
      requires Valid()
      modifies this
      ensures Valid()
      ensures Values(links) == Apply(old(Values(links)), Declare(id, source, target, relationship))
      ensures created <==> Accepts(old(Values(links)), source, target, relationship)
      ensures if created
              then Values(links) == old(Values(links)) + [Link(id, source, target, relationship, true)]
                   && events == old(events) + [LinkCreated(declaredBy, id, source, target, now)]
              else links == old(links) && events == old(events)
    {
      var error;
      created, error := ValidateLink(source, target, relationship, links);
      if created {
        var _ := CreateLink(id, source, target, relationship, declaredBy, context, now);
      }
    }

    /** Active links into and out of a decision, in store order; together they are its active degree. */
    method GetRelationships(decisionId: Node) returns (incoming: seq<ProvenanceLink>, outgoing: seq<ProvenanceLink>)
      ensures Values(incoming) == Into(Values(links), decisionId, |links|)
      ensures Values(outgoing) == OutOf(Values(links), decisionId, |links|)
      ensures |incoming| + |outgoing| == Degree(Values(links), decisionId)
      ensures forall l :: l in incoming + outgoing ==> l in links
    {
      incoming, outgoing := [], [];
      ghost var vs := Values(links);
      for i := 0 to |links|
        invariant Values(incoming) == Into(vs, decisionId, i)
        invariant forall l :: l in incoming ==> l in links
      {
        assert Values(incoming + [links[i]]) == Values(incoming) + [vs[i]];
        if links[i].target == decisionId && links[i].active {
          incoming := incoming + [links[i]];
        }
      }
      for i := 0 to |links|
        invariant Values(outgoing) == OutOf(vs, decisionId, i)
        invariant forall l :: l in outgoing ==> l in links
      {
        assert Values(outgoing + [links[i]]) == Values(outgoing) + [vs[i]];
        if links[i].source == decisionId && links[i].active {
          outgoing := outgoing + [links[i]];
        }
      }
      assert vs[..|links|] == vs;
      RelationshipsCountDegree(vs, decisionId, |links|);
    }
  }
}
