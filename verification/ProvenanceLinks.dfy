/** Provenance links between decisions, and the graph their active entries form. */
module ProvenanceLinks {
  import opened Digraph

  datatype Relationship =
    InputTo | DerivedFrom | ReviewedBy | ApprovedBy | Overrides | AggregatedInto | DependsOn | Validates

  /** The value of a link at one moment. */
  datatype Link = Link(id: string, source: Node, target: Node, relationship: Relationship, active: bool)

  /** A stored link. Only its `active` flag ever changes. */
  class ProvenanceLink {
    const id: string
    const source: Node
    const target: Node
    const relationship: Relationship
    const declaredBy: string
    const declaredAt: int
    const context: string
    var active: bool

    constructor (id: string, source: Node, target: Node, relationship: Relationship,
                 declaredBy: string, declaredAt: int, context: string)
      ensures Value() == Link(id, source, target, relationship, true)
      ensures this.declaredBy == declaredBy && this.declaredAt == declaredAt && this.context == context
    {
      this.id, this.source, this.target, this.relationship := id, source, target, relationship;
      this.declaredBy, this.declaredAt, this.context := declaredBy, declaredAt, context;
      active := true;
    }

    function Value(): Link
      reads this
    {
      Link(id, source, target, relationship, active)
    }
  }

  function Values(links: seq<ProvenanceLink>): (r: seq<Link>)
    reads links
    ensures |r| == |links|
    ensures forall i :: 0 <= i < |links| ==> r[i] == links[i].Value()
  {
    seq(|links|, i requires 0 <= i < |links| reads links => links[i].Value())
  }

  ghost predicate Duplicates(l: Link, source: Node, target: Node, relationship: Relationship) {
    l.active && l.source == source && l.target == target && l.relationship == relationship
  }

  ghost function ActiveArcs(links: seq<Link>): Arcs {
    set l | l in links && l.active :: (l.source, l.target)
  }

  /** What the provenance store promises: no active self-link, no active duplicate, no active cycle. */
  ghost predicate Sound(links: seq<Link>) {
    && (forall l :: l in links && l.active ==> l.source != l.target)
    && (forall i, j :: 0 <= i < j < |links| && links[i].active ==>
          !Duplicates(links[j], links[i].source, links[i].target, links[i].relationship))
    && Acyclic(ActiveArcs(links))
  }

  lemma ActiveArcsAppend(links: seq<Link>, l: Link)
    ensures ActiveArcs(links + [l]) == ActiveArcs(links) + (if l.active then {(l.source, l.target)} else {})
  {
    var added: Arcs := if l.active then {(l.source, l.target)} else {};
    forall a ensures a in ActiveArcs(links + [l]) <==> a in ActiveArcs(links) + added {
      if a in ActiveArcs(links) {
        var k :| k in links && k.active && (k.source, k.target) == a;
        assert k in links + [l];
      }
      if l.active {
        assert l in links + [l];
      }
    }
  }
}
