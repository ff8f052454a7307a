/** The hover highlight of the legacy view (frontend/src/pages/Legacy.jsx,
    `handleNodeHover`): hovering a node highlights it, the links touching
    it and the nodes at their other ends; hovering nothing clears both.
    Links are distinct objects in JavaScript, so a highlighted link is
    identified by its position in the graph's link list. */
module NodeHover {
  import opened Wrappers
  import opened ConnectionGraph

  datatype Highlight = Highlight(nodes: set<string>, links: set<nat>)

  /** `link.source.id === id || link.target.id === id`. */
  predicate Incident(l: Link, id: string) {
    l.source == id || l.target == id
  }

  /** The end of `l` that is not `id` (`id` itself for a loop). */
  function Opposite(l: Link, id: string): string {
    if l.source == id then l.target else l.source
  }

  /** Reference: the positions of the links touching `id`. */
  function IncidentLinks(links: seq<Link>, id: string): set<nat> {
    set i: nat | i < |links| && Incident(links[i], id)
  }

  /** Reference: the nodes at the other end of a link touching `id`. */
  function Neighbours(links: seq<Link>, id: string): set<string> {
    set i | 0 <= i < |links| && Incident(links[i], id) :: Opposite(links[i], id)
  }

  lemma NeighboursSnoc(links: seq<Link>, id: string)
    requires |links| > 0
    ensures Neighbours(links, id) ==
              Neighbours(Init(links), id) + (if Incident(Last(links), id) then {Opposite(Last(links), id)} else {})
    ensures IncidentLinks(links, id) ==
              IncidentLinks(Init(links), id) + (if Incident(Last(links), id) then {|links| - 1} else {})
  {
    var pre := Init(links);
    forall x | x in Neighbours(pre, id) ensures x in Neighbours(links, id) {
      var i :| 0 <= i < |pre| && Incident(pre[i], id) && Opposite(pre[i], id) == x;
      assert links[i] == pre[i];
    }
    forall x | x in Neighbours(links, id) && x !in Neighbours(pre, id)
      ensures Incident(Last(links), id) && x == Opposite(Last(links), id)
    {
    }
    if Incident(Last(links), id) {
      assert Opposite(links[|links| - 1], id) in Neighbours(links, id);
    }
  }

  /** `handleNodeHover(node)`: nothing hovered clears both highlight sets;
      otherwise the `forEach` over the links highlights the hovered node,
      every link that touches it and the node at each such link's other
      end, and nothing else. */
  function HandleNodeHover(hovered: Option<string>, links: seq<Link>): (h: Highlight)
    ensures hovered.None? ==> h.nodes == {} && h.links == {}
    ensures hovered.Some? ==> h.nodes == {hovered.value} + Neighbours(links, hovered.value)
    ensures hovered.Some? ==> h.links == IncidentLinks(links, hovered.value)
  {
    match hovered
    case None => Highlight({}, {})
    case Some(id) => HighlightAround(id, links)
  }

  /** The `forEach` over `links`, walking them in order. */
  function HighlightAround(id: string, links: seq<Link>): (h: Highlight)
    ensures h.nodes == {id} + Neighbours(links, id)
    ensures h.links == IncidentLinks(links, id)
  {
    if |links| == 0 then Highlight({id}, {})
    else
      var prev := HighlightAround(id, Init(links));
      var l := Last(links);
      NeighboursSnoc(links, id);
      if Incident(l, id) then Highlight(prev.nodes + {Opposite(l, id)}, prev.links + {|links| - 1})
      else prev
  }

  /** Every highlighted link touches the hovered node, and every
      highlighted node other than the hovered one sits at the far end of a
      highlighted link. */
  lemma HighlightIsNeighbourhood(id: string, links: seq<Link>)
    ensures var h := HandleNodeHover(Some(id), links);
            && id in h.nodes
            && (forall i :: i in h.links ==> i < |links| && Incident(links[i], id))
            && (forall x :: x in h.nodes && x != id ==>
                  exists i :: i in h.links && Opposite(links[i], id) == x)
  {
    var h := HandleNodeHover(Some(id), links);
    forall x | x in h.nodes && x != id
      ensures exists i :: i in h.links && Opposite(links[i], id) == x
    {
      var i :| 0 <= i < |links| && Incident(links[i], id) && Opposite(links[i], id) == x;
      assert i in h.links;
    }
  }

  /** Being highlighted together is symmetric: `x` lights up when hovering
      `y` exactly when `y` lights up when hovering `x`. */
  lemma HighlightSymmetric(links: seq<Link>, x: string, y: string)
    ensures x in HandleNodeHover(Some(y), links).nodes <==> y in HandleNodeHover(Some(x), links).nodes
  {
    if x in Neighbours(links, y) && x != y {
      var i :| 0 <= i < |links| && Incident(links[i], y) && Opposite(links[i], y) == x;
      assert Incident(links[i], x) && Opposite(links[i], x) == y;
    }
    if y in Neighbours(links, x) && x != y {
      var i :| 0 <= i < |links| && Incident(links[i], x) && Opposite(links[i], x) == y;
      assert Incident(links[i], y) && Opposite(links[i], y) == x;
    }
  }

  /** Hovering either end of a link highlights that link and the other end. */
  lemma HoverLinkedNodes(links: seq<Link>, i: nat)
    requires i < |links|
    ensures var l := links[i];
            && l.target in HandleNodeHover(Some(l.source), links).nodes
            && i in HandleNodeHover(Some(l.source), links).links
            && l.source in HandleNodeHover(Some(l.target), links).nodes
            && i in HandleNodeHover(Some(l.target), links).links
  {
    var l := links[i];
    assert Incident(links[i], l.source) && Incident(links[i], l.target);
    if l.source != l.target {
      assert Opposite(links[i], l.source) == l.target && Opposite(links[i], l.target) == l.source;
    }
  }

  /** The two ends of any link present in `links` highlight each other. */
  lemma HoverLinkedPair(links: seq<Link>, a: string, b: string)
    requires Link(a, b) in links
    ensures b in HandleNodeHover(Some(a), links).nodes
    ensures a in HandleNodeHover(Some(b), links).nodes
  {
    var i :| 0 <= i < |links| && links[i] == Link(a, b);
    HoverLinkedNodes(links, i);
  }

  /** On a loaded graph, the two users of any match of an expanded
      processed user highlight each other. */
  lemma HoverSecondaryMatch(auth: AuthUser, fetch: Fetch)
    requires LoadSucceeds(Some(auth), fetch)
    ensures var links := LoadUserAndConnections(Some(auth), fetch).graph.links;
            forall j: nat, k: nat :: SecondaryMatchAt(auth, fetch, j, k) ==>
              var m := SecondaryMatch(auth, fetch, j, k);
              && m.userB.value.id in HandleNodeHover(Some(m.userA.value.id), links).nodes
              && m.userA.value.id in HandleNodeHover(Some(m.userB.value.id), links).nodes
  {
    var links := LoadUserAndConnections(Some(auth), fetch).graph.links;
    LoadedSecondaryLink(auth, fetch);
    forall j: nat, k: nat | SecondaryMatchAt(auth, fetch, j, k)
      ensures var m := SecondaryMatch(auth, fetch, j, k);
              && m.userB.value.id in HandleNodeHover(Some(m.userA.value.id), links).nodes
              && m.userA.value.id in HandleNodeHover(Some(m.userB.value.id), links).nodes
    {
      var m := SecondaryMatch(auth, fetch, j, k);
      HoverLinkedPair(links, m.userA.value.id, m.userB.value.id);
    }
  }

  /** On a loaded graph, hovering the current user highlights every
      counterpart of their matches and the link to each of them. */
  lemma HoverCurrentUserShowsMatches(auth: AuthUser, fetch: Fetch)
    requires LoadSucceeds(Some(auth), fetch)
    ensures var ms := fetch(auth.id).value;
            var g := LoadUserAndConnections(Some(auth), fetch).graph;
            var h := HandleNodeHover(Some(auth.id), g.links);
            && (forall i :: 0 <= i < |ms| ==> i in h.links)
            && (forall x :: x in CounterpartIds(auth.id, ms) ==> x in h.nodes)
  {
    var ms := fetch(auth.id).value;
    var r := LoadUserAndConnections(Some(auth), fetch);
    assert r.Loaded? && GraphOf(auth, ms, fetch, r.graph);
    HoverOverStar(auth.id, CounterpartIds(auth.id, ms), r.graph.links);
  }

  lemma HoverOverStar(id: string, ids: seq<string>, links: seq<Link>)
    requires |ids| <= |links|
    requires forall i :: 0 <= i < |ids| ==> links[i] == Link(id, ids[i])
    ensures var h := HandleNodeHover(Some(id), links);
            && (forall i :: 0 <= i < |ids| ==> i in h.links)
            && (forall x :: x in ids ==> x in h.nodes)
  {
    forall x | x in ids ensures x in Neighbours(links, id) {
      var i :| 0 <= i < |ids| && ids[i] == x;
      assert Incident(links[i], id) && Opposite(links[i], id) == x;
    }
  }
}
