/**
 The discovered tree as objects and back: PanelsInitializer turns links into panels whose edges point
 at each other, and PanelsTopologyProvider reads the links off those pointers again.
 */
module Topologies {
  import opened PanelGraphs
  import opened PanelGeometries

  // ------------------------------------------------------------------ connectors

  datatype Connector = NotConnected | At(slot: nat, edge: nat)

  /** What connector `e` of slot `i` is plugged to; a later link replaces an earlier one. */
  function PeerOf(links: seq<SlotLink>, i: nat, e: nat): Connector {
    if links == [] then NotConnected
    else
      var l := links[|links| - 1];
      if l.b == i && l.edgeB == e then At(l.a, l.edgeA)
      else if l.a == i && l.edgeA == e then At(l.b, l.edgeB)
      else PeerOf(links[..|links| - 1], i, e)
  }

  /** The same link, seen from either end. */
  predicate SameLink(x: SlotLink, y: SlotLink) {
    x == y || x == SlotLink(y.b, y.edgeB, y.a, y.edgeA)
  }

  predicate SamePair(x: SlotLink, y: SlotLink) {
    (x.a == y.a && x.b == y.b) || (x.a == y.b && x.b == y.a)
  }

  predicate ShareConnector(x: SlotLink, y: SlotLink) {
    || (x.a == y.a && x.edgeA == y.edgeA) || (x.a == y.b && x.edgeA == y.edgeB)
    || (x.b == y.a && x.edgeB == y.edgeA) || (x.b == y.b && x.edgeB == y.edgeB)
  }

  /**
   Links as discovery finds them: between two different panels, no pair of panels linked twice and
   no connector used twice, and connectors that exist.
   */
  predicate Discovered(links: seq<SlotLink>, edgeCounts: seq<nat>) {
    && (forall k :: 0 <= k < |links| ==>
         && links[k].a != links[k].b && links[k].a < |edgeCounts| && links[k].b < |edgeCounts|
         && links[k].edgeA < edgeCounts[links[k].a] && links[k].edgeB < edgeCounts[links[k].b])
    && (forall k, l :: 0 <= k < l < |links| ==> !SamePair(links[k], links[l]) && !ShareConnector(links[k], links[l]))
  }

  lemma {:induction false} PeerIsLinked(links: seq<SlotLink>, i: nat, e: nat)
    ensures PeerOf(links, i, e).At? ==>
      var p := PeerOf(links, i, e);
      exists k :: 0 <= k < |links| && SameLink(SlotLink(i, e, p.slot, p.edge), links[k])
  {
    if links != [] {
      var rest := links[..|links| - 1];
      PeerIsLinked(rest, i, e);
      var p := PeerOf(links, i, e);
      var l := links[|links| - 1];
      if p.At? && SameLink(SlotLink(i, e, p.slot, p.edge), l) {
        assert SameLink(SlotLink(i, e, p.slot, p.edge), links[|links| - 1]);
      } else if p.At? {
        var k :| 0 <= k < |rest| && SameLink(SlotLink(i, e, p.slot, p.edge), rest[k]);
        assert SameLink(SlotLink(i, e, p.slot, p.edge), links[k]);
      }
    }
  }

  lemma {:induction false} LinkedIsPeer(links: seq<SlotLink>, edgeCounts: seq<nat>, k: nat)
    requires Discovered(links, edgeCounts) && k < |links|
    ensures PeerOf(links, links[k].a, links[k].edgeA) == At(links[k].b, links[k].edgeB)
  {
    var l := links[|links| - 1];
    if k < |links| - 1 {
      assert !ShareConnector(links[k], l);
      LinkedIsPeer(links[..|links| - 1], edgeCounts, k);
    }
  }

  // ------------------------------------------------------------------ objects

  class Edge {
    const panel: Panel
    const index: nat
    var connectedEdge: Edge?

    constructor (panel: Panel, index: nat)
      ensures this.panel == panel && this.index == index && connectedEdge == null
    {
      this.panel, this.index, connectedEdge := panel, index, null;
    }
  }

  class Panel {
    const index: nat
    var edges: seq<Edge>

    constructor (index: nat)
      ensures this.index == index && edges == []
    {
      this.index, edges := index, [];
    }
  }

  /** One object per panel and connector, in the order of discovery. */
  ghost predicate Built(panels: seq<Panel>, indices: seq<nat>, edgeCounts: seq<nat>)
    reads panels
  {
    && |panels| == |indices| == |edgeCounts|
    && (forall i, j :: 0 <= i < j < |panels| ==> panels[i] != panels[j])
    && forall i :: 0 <= i < |panels| ==>
         && panels[i].index == indices[i] && |panels[i].edges| == edgeCounts[i]
         && forall e :: 0 <= e < |panels[i].edges| ==>
              panels[i].edges[e].panel == panels[i] && panels[i].edges[e].index == e
  }

  ghost function AllEdges(panels: seq<Panel>): set<Edge>
    reads panels
  {
    set i, e | 0 <= i < |panels| && 0 <= e < |panels[i].edges| :: panels[i].edges[e]
  }

  /** The pointer of connector `e` of panel `i` leads where the links say. */
  ghost predicate PointsTo(panels: seq<Panel>, i: nat, e: nat, c: Connector)
    requires i < |panels| && e < |panels[i].edges|
    reads panels, AllEdges(panels)
  {
    match c
    case NotConnected => panels[i].edges[e].connectedEdge == null
    case At(j, f) =>
      j < |panels| && f < |panels[j].edges| && panels[i].edges[e].connectedEdge == panels[j].edges[f]
  }

  ghost predicate Wired(panels: seq<Panel>, links: seq<SlotLink>)
    reads panels, AllEdges(panels)
  {
    forall i, e :: 0 <= i < |panels| && 0 <= e < |panels[i].edges| ==> PointsTo(panels, i, e, PeerOf(links, i, e))
  }

  /** A panel with its connectors, none of them plugged in. */
  method NewPanel(index: nat, edgeCount: nat) returns (panel: Panel)
    ensures fresh(panel) && panel.index == index && |panel.edges| == edgeCount
    ensures forall e :: 0 <= e < edgeCount ==>
      && fresh(panel.edges[e]) && panel.edges[e].connectedEdge == null
      && panel.edges[e].panel == panel && panel.edges[e].index == e
  {
    panel := new Panel(index);
    for e := 0 to edgeCount
      invariant fresh(panel) && panel.index == index && |panel.edges| == e
      invariant forall d :: 0 <= d < e ==>
        && fresh(panel.edges[d]) && panel.edges[d].connectedEdge == null
        && panel.edges[d].panel == panel && panel.edges[d].index == d
    {
      var edge := new Edge(panel, e);
      panel.edges := panel.edges + [edge];
    }
  }

  ghost predicate Unplugged(panels: seq<Panel>)
    reads panels, AllEdges(panels)
  {
    forall i, e :: 0 <= i < |panels| && 0 <= e < |panels[i].edges| ==> panels[i].edges[e].connectedEdge == null
  }

  lemma UnpluggedIsWired(panels: seq<Panel>)
    requires Unplugged(panels)
    ensures Wired(panels, [])
  {
  }

  method NewPanels(indices: seq<nat>, edgeCounts: seq<nat>) returns (panels: seq<Panel>)
    requires |indices| == |edgeCounts|
    ensures Built(panels, indices, edgeCounts) && Wired(panels, [])
    ensures fresh(panels) && fresh(AllEdges(panels))
  {
    hide Wired;
    panels := [];
    for i := 0 to |indices|
      invariant Built(panels, indices[..i], edgeCounts[..i]) && Unplugged(panels)
      invariant fresh(panels) && fresh(AllEdges(panels))
    {
      var panel := NewPanel(indices[i], edgeCounts[i]);
      panels := panels + [panel];
    }
    UnpluggedIsWired(panels);
    assert indices[..|indices|] == indices && edgeCounts[..|indices|] == edgeCounts;
  }

  /** getPanelByIndex: the search runs from the end. */
  method GetPanelByIndex(panels: seq<Panel>, ghost indices: seq<nat>, ghost edgeCounts: seq<nat>, panelIndex: nat)
    returns (found: bool, slot: nat)
    requires Built(panels, indices, edgeCounts) && |panels| < NO_SLOT
    ensures found <==> SlotOf(indices, panelIndex) != NO_SLOT
    ensures found ==> slot == SlotOf(indices, panelIndex) < |panels|
  {
    slot := |panels|;
    assert indices[..slot] == indices;
    while slot > 0
      invariant slot <= |panels|
      invariant SlotOf(indices[..slot], panelIndex) == SlotOf(indices, panelIndex)
    {
      slot := slot - 1;
      assert indices[..slot + 1][..slot] == indices[..slot];
      if panels[slot].index == panelIndex {
        return true, slot;
      }
    }
    return false, 0;
  }

  /** The connectors the links name exist on the panels they name. */
  predicate ConnectorsExist(links: seq<SlotLink>, edgeCounts: seq<nat>) {
    forall k :: 0 <= k < |links| ==>
      && links[k].a < |edgeCounts| && links[k].edgeA < edgeCounts[links[k].a]
      && links[k].b < |edgeCounts| && links[k].edgeB < edgeCounts[links[k].b]
  }

  lemma PeerOfAppend(links: seq<SlotLink>, l: SlotLink, i: nat, e: nat)
    ensures PeerOf(links + [l], i, e) ==
      if l.b == i && l.edgeB == e then At(l.a, l.edgeA)
      else if l.a == i && l.edgeA == e then At(l.b, l.edgeB)
      else PeerOf(links, i, e)
  {
    assert (links + [l])[..|links|] == links;
  }

  /** convertDiscoveredTreeToPanels: the objects, then both ends of every link whose panels exist. */
  method ConvertDiscoveredTreeToPanels(indices: seq<nat>, edgeCounts: seq<nat>, links: seq<TopoLink>)
    returns (panels: seq<Panel>)
    requires |indices| == |edgeCounts| < NO_SLOT
    requires ConnectorsExist(Known(indices, links), edgeCounts)
    ensures Built(panels, indices, edgeCounts) && Wired(panels, Known(indices, links))
  {
    hide Known, PeerOf, SlotOf, Wired, Built, AllEdges;
    panels := NewPanels(indices, edgeCounts);
    NoneKnown(indices, links);
    for k := 0 to |links|
      invariant Built(panels, indices, edgeCounts) && Wired(panels, Known(indices, links[..k]))
      invariant fresh(AllEdges(panels))
    {
      ConvertLink(panels, indices, edgeCounts, links, k);
    }
    assert links[..|links|] == links;
  }

  /** One link: skipped unless both its panels exist. */
  method ConvertLink(panels: seq<Panel>, ghost indices: seq<nat>, ghost edgeCounts: seq<nat>,
                     links: seq<TopoLink>, k: nat)
    requires |indices| == |edgeCounts| < NO_SLOT && k < |links|
    requires ConnectorsExist(Known(indices, links), edgeCounts)
    requires Built(panels, indices, edgeCounts) && Wired(panels, Known(indices, links[..k]))
    modifies AllEdges(panels)
    ensures Built(panels, indices, edgeCounts) && Wired(panels, Known(indices, links[..k + 1]))
    ensures AllEdges(panels) == old(AllEdges(panels))
  {
    hide Known, PeerOf, SlotOf, Wired;
    KnownStep(indices, links, k);
    var foundA, a := GetPanelByIndex(panels, indices, edgeCounts, links[k].panelA);
    var foundB, b := GetPanelByIndex(panels, indices, edgeCounts, links[k].panelB);
    if foundA && foundB {
      ghost var l := SlotLink(a, links[k].edgeA, b, links[k].edgeB);
      KnownConnectorExists(indices, edgeCounts, links, k, l);
      Connect(panels, indices, edgeCounts, Known(indices, links[..k]), a, links[k].edgeA, b, links[k].edgeB);
    }
  }

  lemma NoneKnown(indices: seq<nat>, links: seq<TopoLink>)
    ensures Known(indices, links[..0]) == []
  {
  }

  lemma KnownConnectorExists(indices: seq<nat>, edgeCounts: seq<nat>, links: seq<TopoLink>, k: nat, l: SlotLink)
    requires ConnectorsExist(Known(indices, links), edgeCounts) && k < |links|
    requires Known(indices, links[..k + 1]) == Known(indices, links[..k]) + [l]
    ensures l.a < |edgeCounts| && l.edgeA < edgeCounts[l.a] && l.b < |edgeCounts| && l.edgeB < edgeCounts[l.b]
  {
    hide Known;
    KnownPrefix(indices, links, k + 1);
    var n := |Known(indices, links[..k])|;
    assert Known(indices, links)[n] == l;
  }

  /** The two edges are made to point at each other. */
  method Connect(panels: seq<Panel>, ghost indices: seq<nat>, ghost edgeCounts: seq<nat>, ghost links: seq<SlotLink>,
                 a: nat, edgeA: nat, b: nat, edgeB: nat)
    requires Built(panels, indices, edgeCounts) && Wired(panels, links)
    requires a < |panels| && edgeA < edgeCounts[a] && b < |panels| && edgeB < edgeCounts[b]
    modifies AllEdges(panels)
    ensures Built(panels, indices, edgeCounts) && Wired(panels, links + [SlotLink(a, edgeA, b, edgeB)])
    ensures AllEdges(panels) == old(AllEdges(panels))
  {
    hide PeerOf;
    var parentEdge := panels[a].edges[edgeA];
    var childEdge := panels[b].edges[edgeB];
    parentEdge.connectedEdge := childEdge;
    childEdge.connectedEdge := parentEdge;
    ghost var l := SlotLink(a, edgeA, b, edgeB);
    forall i, e | 0 <= i < |panels| && 0 <= e < |panels[i].edges|
      ensures PointsTo(panels, i, e, PeerOf(links + [l], i, e))
    {
      PeerOfAppend(links, l, i, e);
      assert panels[i].edges[e] == childEdge <==> i == b && e == edgeB;
      assert panels[i].edges[e] == parentEdge <==> i == a && e == edgeA;
      assert old(PointsTo(panels, i, e, PeerOf(links, i, e)));
    }
  }
}
