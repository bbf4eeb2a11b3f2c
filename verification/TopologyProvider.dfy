/**
 fillTopology (lib/Lightnet/Controller/Scenes/PanelsTopologyProvider.hpp): the links are read off the
 panels' edge pointers, each pair of panels once.
 */
module TopologyProviders {
  import opened PanelGraphs
  import opened PanelGeometries
  import opened Topologies

  /** A link between slots, by the indices of its panels. */
  function Named(indices: seq<nat>, l: SlotLink): TopoLink
    requires l.a < |indices| && l.b < |indices|
  {
    TopoLink(indices[l.a], l.edgeA, indices[l.b], l.edgeB)
  }

  predicate SamePanels(x: TopoLink, y: TopoLink) {
    (x.panelA == y.panelA && x.panelB == y.panelB) || (x.panelA == y.panelB && x.panelB == y.panelA)
  }

  predicate Seen(links: seq<TopoLink>, l: TopoLink) {
    exists k :: 0 <= k < |links| && SamePanels(links[k], l)
  }

  function Add(links: seq<TopoLink>, l: TopoLink, maxLinks: nat): seq<TopoLink> {
    if Seen(links, l) || |links| >= maxLinks then links else links + [l]
  }

  ghost predicate PeersExist(links: seq<SlotLink>, n: nat) {
    forall i: nat, e: nat :: PeerOf(links, i, e).At? ==> PeerOf(links, i, e).slot < n
  }

  /** What the scan has collected before it looks at connector `e` of panel `i`. */
  ghost function Scanned(links: seq<SlotLink>, indices: seq<nat>, edgeCounts: seq<nat>, maxLinks: nat, i: nat,
                         e: nat): seq<TopoLink>
    requires |indices| == |edgeCounts| && i <= |indices| && (e > 0 ==> i < |indices|)
    requires PeersExist(links, |indices|)
    decreases i, e
  {
    if e > 0 then
      var before := Scanned(links, indices, edgeCounts, maxLinks, i, e - 1);
      match PeerOf(links, i, e - 1)
      case NotConnected => before
      case At(j, f) => Add(before, Named(indices, SlotLink(i, e - 1, j, f)), maxLinks)
    else if i > 0 then Scanned(links, indices, edgeCounts, maxLinks, i - 1, edgeCounts[i - 1])
    else []
  }

  /** The loops of fillTopology. Too many panels, or none, give no topology. */
  method FillTopology(panels: seq<Panel>, ghost indices: seq<nat>, ghost counts: seq<nat>,
                      ghost tree: seq<SlotLink>, maxLinks: nat)
    returns (total: nat, outIndices: seq<nat>, edgeCounts: seq<nat>, links: seq<TopoLink>)
    requires Built(panels, indices, counts) && Wired(panels, tree) && PeersExist(tree, |panels|)
    ensures total == if |panels| > MAX_PANELS then 0 else |panels|
    ensures total == 0 ==> links == []
    ensures total > 0 ==> outIndices == indices && edgeCounts == counts
    ensures total > 0 ==> links == Scanned(tree, indices, counts, maxLinks, |panels|, 0)
  {
    hide PeerOf, Scanned, PeersExist;
    outIndices, edgeCounts, links := [], [], [];
    total := |panels|;
    if total == 0 || total > MAX_PANELS {
      total := 0;
      return;
    }
    ScanStarts(tree, indices, counts, maxLinks);
    for i := 0 to |panels|
      invariant outIndices == indices[..i] && edgeCounts == counts[..i]
      invariant links == Scanned(tree, indices, counts, maxLinks, i, 0)
    {
      var panel := panels[i];
      outIndices := outIndices + [panel.index];
      edgeCounts := edgeCounts + [|panel.edges|];
      for e := 0 to |panel.edges|
        invariant links == Scanned(tree, indices, counts, maxLinks, i, e)
      {
        links := ScanConnector(panels, indices, counts, tree, maxLinks, i, e, links);
      }
      NextPanelScan(tree, indices, counts, maxLinks, i);
    }
  }

  /** One connector: if it is plugged in and the pair is new, its link is added. */
  method ScanConnector(panels: seq<Panel>, ghost indices: seq<nat>, ghost counts: seq<nat>, ghost tree: seq<SlotLink>,
                       maxLinks: nat, i: nat, e: nat, links0: seq<TopoLink>)
    returns (links: seq<TopoLink>)
    requires Built(panels, indices, counts) && Wired(panels, tree) && PeersExist(tree, |panels|)
    requires i < |panels| && e < |panels[i].edges|
    requires links0 == Scanned(tree, indices, counts, maxLinks, i, e)
    ensures links == Scanned(tree, indices, counts, maxLinks, i, e + 1)
  {
    hide PeerOf, PeersExist;
    links := links0;
    var edge := panels[i].edges[e];
    assert PointsTo(panels, i, e, PeerOf(tree, i, e));
    if edge.connectedEdge == null {
      return;
    }
    var a, b := panels[i].index, edge.connectedEdge.panel.index;
    var l := TopoLink(a, edge.index, b, edge.connectedEdge.index);
    var seen := false;
    for k := 0 to |links|
      invariant !seen && forall m :: 0 <= m < k ==> !SamePanels(links[m], l)
    {
      if (links[k].panelA == a && links[k].panelB == b) || (links[k].panelA == b && links[k].panelB == a) {
        assert SamePanels(links[k], l);
        seen := true;
        break;
      }
    }
    assert seen == Seen(links, l);
    if seen || |links| >= maxLinks {
      return;
    }
    links := links + [l];
  }

  lemma ScanStarts(tree: seq<SlotLink>, indices: seq<nat>, counts: seq<nat>, maxLinks: nat)
    requires |indices| == |counts| && PeersExist(tree, |indices|)
    ensures Scanned(tree, indices, counts, maxLinks, 0, 0) == []
  {
  }

  lemma NextPanelScan(tree: seq<SlotLink>, indices: seq<nat>, counts: seq<nat>, maxLinks: nat, i: nat)
    requires |indices| == |counts| && i < |indices| && PeersExist(tree, |indices|)
    ensures Scanned(tree, indices, counts, maxLinks, i + 1, 0) == Scanned(tree, indices, counts, maxLinks, i, counts[i])
  {
  }

  // ------------------------------------------------------------------ round trip

  /** A discovered tree, as far as its links go: distinct panels, and room for every link. */
  predicate Given(tree: seq<SlotLink>, indices: seq<nat>, counts: seq<nat>, maxLinks: nat) {
    && |indices| == |counts| && NoRepeats(indices) && Discovered(tree, counts) && |tree| <= maxLinks
  }

  lemma GivenPeersExist(tree: seq<SlotLink>, indices: seq<nat>, counts: seq<nat>, maxLinks: nat)
    requires Given(tree, indices, counts, maxLinks)
    ensures PeersExist(tree, |indices|)
  {
    hide PeerOf;
    forall i: nat, e: nat | PeerOf(tree, i, e).At?
      ensures PeerOf(tree, i, e).slot < |indices|
    {
      PeerIsLinked(tree, i, e);
    }
  }

  function Turned(l: SlotLink): SlotLink {
    SlotLink(l.b, l.edgeB, l.a, l.edgeA)
  }

  /** `out` names the links of the tree listed in `from`, each once, whichever end comes first. */
  predicate Collected(tree: seq<SlotLink>, indices: seq<nat>, out: seq<TopoLink>, from: seq<nat>) {
    && |out| == |from| && NoRepeats(from)
    && (forall k :: 0 <= k < |tree| ==> tree[k].a < |indices| && tree[k].b < |indices|)
    && forall k :: 0 <= k < |from| ==>
         && from[k] < |tree|
         && (out[k] == Named(indices, tree[from[k]]) || out[k] == Named(indices, Turned(tree[from[k]])))
  }

  /** Distinct panels are told apart by their indices. */
  lemma PanelsAreSlots(indices: seq<nat>, x: SlotLink, y: SlotLink)
    requires NoRepeats(indices)
    requires x.a < |indices| && x.b < |indices| && y.a < |indices| && y.b < |indices|
    ensures SamePanels(Named(indices, x), Named(indices, y)) <==> SamePair(x, y)
  {
  }

  /** A link is among those collected just when its pair of panels has been seen. */
  lemma SeenIffCollected(tree: seq<SlotLink>, indices: seq<nat>, counts: seq<nat>, maxLinks: nat,
                         out: seq<TopoLink>, from: seq<nat>, c: SlotLink, l: nat)
    requires Given(tree, indices, counts, maxLinks) && Collected(tree, indices, out, from)
    requires l < |tree| && SameLink(c, tree[l])
    ensures c.a < |indices| && c.b < |indices|
    ensures Seen(out, Named(indices, c)) <==> l in from
  {
    hide SamePanels, Named, NoRepeats;
    if l in from {
      var k :| 0 <= k < |from| && from[k] == l;
      PanelsAreSlots(indices, tree[l], c);
      PanelsAreSlots(indices, Turned(tree[l]), c);
      assert SamePanels(out[k], Named(indices, c));
    }
    if Seen(out, Named(indices, c)) {
      var k :| 0 <= k < |out| && SamePanels(out[k], Named(indices, c));
      PanelsAreSlots(indices, tree[from[k]], c);
      PanelsAreSlots(indices, Turned(tree[from[k]]), c);
      assert SamePair(tree[from[k]], tree[l]);
      assert from[k] == l;
    }
  }

  predicate IsCollected(tree: seq<SlotLink>, from: seq<nat>, c: SlotLink) {
    exists k :: 0 <= k < |from| && from[k] < |tree| && SameLink(c, tree[from[k]])
  }

  predicate Before(i: nat, e: nat, i1: nat, e1: nat) {
    i < i1 || (i == i1 && e < e1)
  }

  /** Every plugged-in connector the scan has passed is an end of a link collected. */
  ghost predicate Covered(tree: seq<SlotLink>, counts: seq<nat>, from: seq<nat>, i: nat, e: nat) {
    forall i0: nat, e0: nat ::
      i0 < |counts| && e0 < counts[i0] && Before(i0, e0, i, e) && PeerOf(tree, i0, e0).At? ==>
        IsCollected(tree, from, SlotLink(i0, e0, PeerOf(tree, i0, e0).slot, PeerOf(tree, i0, e0).edge))
  }

  /** What one more connector adds. */
  lemma CollectOne(tree: seq<SlotLink>, indices: seq<nat>, counts: seq<nat>, maxLinks: nat,
                   out: seq<TopoLink>, from: seq<nat>, c: SlotLink, l: nat) returns (more: seq<nat>)
    requires Given(tree, indices, counts, maxLinks) && Collected(tree, indices, out, from)
    requires l < |tree| && SameLink(c, tree[l])
    ensures c.a < |indices| && c.b < |indices|
    ensures Collected(tree, indices, Add(out, Named(indices, c), maxLinks), more)
    ensures from <= more && IsCollected(tree, more, c)
  {
    SeenIffCollected(tree, indices, counts, maxLinks, out, from, c, l);
    if l in from {
      more := from;
      var k :| 0 <= k < |from| && from[k] == l;
    } else {
      more := from + [l];
      assert NoRepeats(more);
      NoRepeatsBound(more, |tree|);
      assert more[|from|] == l;
    }
  }

  lemma CoveredByMore(tree: seq<SlotLink>, from: seq<nat>, more: seq<nat>, c: SlotLink)
    requires from <= more && IsCollected(tree, from, c)
    ensures IsCollected(tree, more, c)
  {
    var k :| 0 <= k < |from| && from[k] < |tree| && SameLink(c, tree[from[k]]);
    assert more[k] == from[k];
  }

  lemma {:induction false} Collect(tree: seq<SlotLink>, indices: seq<nat>, counts: seq<nat>, maxLinks: nat,
                                   i: nat, e: nat)
    returns (from: seq<nat>)
    requires Given(tree, indices, counts, maxLinks) && PeersExist(tree, |indices|)
    requires i <= |indices| && (e > 0 ==> i < |indices| && e <= counts[i])
    ensures Collected(tree, indices, Scanned(tree, indices, counts, maxLinks, i, e), from)
    ensures Covered(tree, counts, from, i, e)
    decreases i, e
  {
    hide PeerOf, Add, Collected, IsCollected;
    if e > 0 {
      var before := Collect(tree, indices, counts, maxLinks, i, e - 1);
      from := CollectConnector(tree, indices, counts, maxLinks, i, e - 1, before);
    } else if i > 0 {
      from := Collect(tree, indices, counts, maxLinks, i - 1, counts[i - 1]);
    } else {
      from := [];
      NothingCollected(tree, indices, counts);
    }
  }

  lemma NothingCollected(tree: seq<SlotLink>, indices: seq<nat>, counts: seq<nat>)
    requires |indices| == |counts| && Discovered(tree, counts)
    ensures Collected(tree, indices, [], [])
  {
  }

  lemma CollectConnector(tree: seq<SlotLink>, indices: seq<nat>, counts: seq<nat>, maxLinks: nat, i: nat,
                         e: nat, before: seq<nat>)
    returns (from: seq<nat>)
    requires Given(tree, indices, counts, maxLinks) && PeersExist(tree, |indices|)
    requires i < |indices| && e < counts[i]
    requires Collected(tree, indices, Scanned(tree, indices, counts, maxLinks, i, e), before)
    requires Covered(tree, counts, before, i, e)
    ensures Collected(tree, indices, Scanned(tree, indices, counts, maxLinks, i, e + 1), from)
    ensures Covered(tree, counts, from, i, e + 1)
  {
    hide PeerOf, Add, Collected, IsCollected, SameLink;
    from := before;
    var p := PeerOf(tree, i, e);
    if p.At? {
      var c := SlotLink(i, e, p.slot, p.edge);
      PeerIsLinked(tree, i, e);
      var l :| 0 <= l < |tree| && SameLink(c, tree[l]);
      from := CollectOne(tree, indices, counts, maxLinks, Scanned(tree, indices, counts, maxLinks, i, e), before, c, l);
      forall i0: nat, e0: nat
        | i0 < |counts| && e0 < counts[i0] && Before(i0, e0, i, e + 1) && PeerOf(tree, i0, e0).At?
        ensures IsCollected(tree, from, SlotLink(i0, e0, PeerOf(tree, i0, e0).slot, PeerOf(tree, i0, e0).edge))
      {
        if Before(i0, e0, i, e) {
          CoveredByMore(tree, before, from, SlotLink(i0, e0, PeerOf(tree, i0, e0).slot, PeerOf(tree, i0, e0).edge));
        }
      }
    }
  }

  /**
   The round trip: of a discovered tree every link comes back exactly once, with both its panels and
   both its connectors, and nothing else comes back.
   */
  lemma LinksComeBack(tree: seq<SlotLink>, indices: seq<nat>, counts: seq<nat>, maxLinks: nat) returns (from: seq<nat>)
    requires Given(tree, indices, counts, maxLinks)
    ensures PeersExist(tree, |indices|)
    ensures Collected(tree, indices, Scanned(tree, indices, counts, maxLinks, |indices|, 0), from)
    ensures forall l :: 0 <= l < |tree| ==> l in from
  {
    hide PeerOf, Collected;
    GivenPeersExist(tree, indices, counts, maxLinks);
    from := Collect(tree, indices, counts, maxLinks, |indices|, 0);
    forall l | 0 <= l < |tree|
      ensures l in from
    {
      LinkedIsPeer(tree, counts, l);
      assert IsCollected(tree, from, tree[l]);
      var k :| 0 <= k < |from| && from[k] < |tree| && SameLink(tree[l], tree[from[k]]);
      assert SamePair(tree[l], tree[from[k]]);
    }
  }

  // ------------------------------------------------------------------ the graph built again

  function Names(indices: seq<nat>, links: seq<SlotLink>): (names: seq<TopoLink>)
    requires forall k :: 0 <= k < |links| ==> links[k].a < |indices| && links[k].b < |indices|
    ensures |names| == |links|
  {
    seq(|links|, k requires 0 <= k < |links| => Named(indices, links[k]))
  }

  lemma {:induction false} SlotOfOwnIndex(indices: seq<nat>, s: nat)
    requires NoRepeats(indices) && s < |indices|
    ensures SlotOf(indices, indices[s]) == s
  {
    if s < |indices| - 1 {
      SlotOfOwnIndex(indices[..|indices| - 1], s);
    }
  }

  /** Naming links and looking the names up again gives the links. */
  lemma {:induction false} KnownUndoesNames(indices: seq<nat>, links: seq<SlotLink>)
    requires NoRepeats(indices) && |indices| < NO_SLOT
    requires forall k :: 0 <= k < |links| ==> links[k].a < |indices| && links[k].b < |indices|
    ensures Known(indices, Names(indices, links)) == links
  {
    if links != [] {
      var rest, l := links[..|links| - 1], links[|links| - 1];
      KnownUndoesNames(indices, rest);
      assert Names(indices, links)[..|links| - 1] == Names(indices, rest);
      SlotOfOwnIndex(indices, l.a);
      SlotOfOwnIndex(indices, l.b);
    }
  }

  /**
   The graph built from the links that come back has the neighbours of the discovered tree: objects,
   provider and compressed adjacency lose and add nothing.
   */
  lemma GraphSurvives(tree: seq<SlotLink>, indices: seq<nat>, counts: seq<nat>, maxLinks: nat, s: nat, h: Half)
    requires Given(tree, indices, counts, maxLinks) && |indices| < NO_SLOT && PeersExist(tree, |indices|)
    ensures var back := Scanned(tree, indices, counts, maxLinks, |indices|, 0);
            h in Incident(Known(indices, back), s) <==> h in Incident(tree, s)
  {
    hide Scanned, PeersExist, Incident, Known, Discovered;
    var back := Scanned(tree, indices, counts, maxLinks, |indices|, 0);
    var from := LinksComeBack(tree, indices, counts, maxLinks);
    var links := Oriented(tree, indices, back, from);
    GivenIsDistinct(tree, indices, counts, maxLinks);
    KnownUndoesNames(indices, links);
    IncidentHoldsLinks(links, s, h);
    IncidentHoldsLinks(tree, s, h);
    SameLinksEitherWay(tree, links, from, SlotLink(s, h.myEdge, h.peer, h.peerEdge));
    SameLinksEitherWay(tree, links, from, SlotLink(h.peer, h.peerEdge, s, h.myEdge));
  }

  lemma GivenIsDistinct(tree: seq<SlotLink>, indices: seq<nat>, counts: seq<nat>, maxLinks: nat)
    requires Given(tree, indices, counts, maxLinks)
    ensures NoRepeats(indices)
  {
  }

  /** The links collected, each the way round it was collected. */
  lemma Oriented(tree: seq<SlotLink>, indices: seq<nat>, out: seq<TopoLink>,
                 from: seq<nat>) returns (links: seq<SlotLink>)
    requires Collected(tree, indices, out, from)
    ensures |links| == |from| && forall k :: 0 <= k < |links| ==> links[k].a < |indices| && links[k].b < |indices|
    ensures out == Names(indices, links)
    ensures forall k :: 0 <= k < |links| ==>
      from[k] < |tree| && (links[k] == tree[from[k]] || links[k] == Turned(tree[from[k]]))
  {
    links := seq(|from|, k requires 0 <= k < |from| =>
      if out[k] == Named(indices, tree[from[k]]) then tree[from[k]] else Turned(tree[from[k]]));
  }

  /** A link or its reverse is in the one list when it or its reverse is in the other. */
  lemma SameLinksEitherWay(tree: seq<SlotLink>, links: seq<SlotLink>, from: seq<nat>, x: SlotLink)
    requires |links| == |from|
    requires forall k :: 0 <= k < |links| ==>
      from[k] < |tree| && (links[k] == tree[from[k]] || links[k] == Turned(tree[from[k]]))
    requires forall l :: 0 <= l < |tree| ==> l in from
    ensures x in links || Turned(x) in links <==> x in tree || Turned(x) in tree
  {
    if x in tree || Turned(x) in tree {
      var l :| 0 <= l < |tree| && (tree[l] == x || tree[l] == Turned(x));
      assert l in from;
      var k :| 0 <= k < |from| && from[k] == l;
      assert links[k] == x || links[k] == Turned(x);
    }
  }
}
