/**
 PanelGraph (lib/Lightnet/Core/Controller/PanelGraph.hpp): the discovered links as an adjacency in
 compressed form, filled with one pass that counts and one that writes behind moving cursors.
 */
module PanelGraphs {
  const MAX_PANELS: nat := 100

  /** A link between two panels by their connectors, as discovered. */
  datatype TopoLink = TopoLink(panelA: nat, edgeA: nat, panelB: nat, edgeB: nat)

  /** A link seen from one of its ends. */
  datatype Half = Half(peer: nat, myEdge: nat, peerEdge: nat)

  /** A link between two slots. */
  datatype SlotLink = SlotLink(a: nat, edgeA: nat, b: nat, edgeB: nat)

  const NO_SLOT: nat := 0xFF

  /** The slot of a panel index: the last one listed, or none. */
  function SlotOf(indices: seq<nat>, panel: nat): (s: nat)
    ensures s == NO_SLOT || s < |indices|
    ensures s < |indices| ==> indices[s] == panel || s == NO_SLOT
  {
    if indices == [] then NO_SLOT
    else if indices[|indices| - 1] == panel then |indices| - 1
    else SlotOf(indices[..|indices| - 1], panel)
  }

  /** The links whose two panels are known, between their slots. */
  function Known(indices: seq<nat>, links: seq<TopoLink>): seq<SlotLink> {
    if links == [] then []
    else
      var before := Known(indices, links[..|links| - 1]);
      var l := links[|links| - 1];
      var a, b := SlotOf(indices, l.panelA), SlotOf(indices, l.panelB);
      if a == NO_SLOT || b == NO_SLOT then before else before + [SlotLink(a, l.edgeA, b, l.edgeB)]
  }

  /** What one link adds to the neighbours of slot `s`. */
  function Ends(l: SlotLink, s: nat): seq<Half> {
    (if l.a == s then [Half(l.b, l.edgeA, l.edgeB)] else []) +
    (if l.b == s then [Half(l.a, l.edgeB, l.edgeA)] else [])
  }

  /** The links incident to slot `s`, each seen from `s`, in the order of discovery. */
  function Incident(links: seq<SlotLink>, s: nat): seq<Half> {
    if links == [] then []
    else Incident(links[..|links| - 1], s) + Ends(links[|links| - 1], s)
  }

  lemma IncidentAppend(links: seq<SlotLink>, l: SlotLink, s: nat)
    ensures Incident(links + [l], s) == Incident(links, s) + Ends(l, s)
  {
    assert (links + [l])[..|links|] == links;
  }

  /** A slot's neighbour list holds a link seen from one end just when its peer's holds it from the other. */
  lemma {:induction false} IncidentIsSymmetric(links: seq<SlotLink>, s: nat, h: Half)
    ensures h in Incident(links, s) <==> Half(s, h.peerEdge, h.myEdge) in Incident(links, h.peer)
  {
    if links != [] {
      IncidentIsSymmetric(links[..|links| - 1], s, h);
    }
  }

  /** The neighbour lists hold the links that touch the slot and nothing else. */
  lemma {:induction false} IncidentHoldsLinks(links: seq<SlotLink>, s: nat, h: Half)
    ensures h in Incident(links, s) <==>
            SlotLink(s, h.myEdge, h.peer, h.peerEdge) in links || SlotLink(h.peer, h.peerEdge, s, h.myEdge) in links
  {
    if links != [] {
      IncidentHoldsLinks(links[..|links| - 1], s, h);
    }
  }

  predicate Within(links: seq<SlotLink>, n: nat) {
    forall i :: 0 <= i < |links| ==> links[i].a < n && links[i].b < n
  }

  lemma {:induction false} PeersAreSlots(links: seq<SlotLink>, n: nat, s: nat)
    requires Within(links, n)
    ensures forall i :: 0 <= i < |Incident(links, s)| ==> Incident(links, s)[i].peer < n
  {
    if links != [] {
      PeersAreSlots(links[..|links| - 1], n, s);
    }
  }

  // ------------------------------------------------------------------ segments

  function Degree(links: seq<SlotLink>, s: nat): nat {
    |Incident(links, s)|
  }

  /** Where the neighbours of slot `s` begin: behind those of the slots before it. */
  function Start(links: seq<SlotLink>, s: nat): nat {
    if s == 0 then 0 else Start(links, s - 1) + Degree(links, s - 1)
  }

  lemma {:induction false} SegmentsAreOrdered(links: seq<SlotLink>, s: nat, r: nat)
    requires s < r
    ensures Start(links, s) + Degree(links, s) <= Start(links, r)
  {
    if s + 1 < r {
      SegmentsAreOrdered(links, s, r - 1);
    }
  }

  /** Together the segments hold both ends of every link. */
  lemma {:induction false} SegmentsFill(links: seq<SlotLink>, n: nat)
    requires Within(links, n)
    ensures Start(links, n) == 2 * |links|
  {
    if links == [] {
      NoLinksNoSegments(n);
    } else {
      var before, l := links[..|links| - 1], links[|links| - 1];
      SegmentsFill(before, n);
      StartGrows(before, l, n);
      assert links == before + [l];
    }
  }

  lemma {:induction false} NoLinksNoSegments(n: nat)
    ensures Start([], n) == 0
  {
    if n > 0 {
      NoLinksNoSegments(n - 1);
    }
  }

  function Below(s: nat, n: nat): nat {
    if s < n then 1 else 0
  }

  lemma DegreeGrows(links: seq<SlotLink>, l: SlotLink, s: nat)
    ensures Degree(links + [l], s) == Degree(links, s) + (if l.a == s then 1 else 0) + (if l.b == s then 1 else 0)
  {
    IncidentAppend(links, l, s);
  }

  lemma {:induction false} StartGrows(links: seq<SlotLink>, l: SlotLink, n: nat)
    ensures Start(links + [l], n) == Start(links, n) + Below(l.a, n) + Below(l.b, n)
  {
    hide Degree;
    if n > 0 {
      StartGrows(links, l, n - 1);
      DegreeGrows(links, l, n - 1);
    }
  }

  lemma {:induction false} StartIsMonotone(links: seq<SlotLink>, s: nat, n: nat)
    requires s <= n
    ensures Start(links, s) <= Start(links, n)
  {
    if s < n {
      StartIsMonotone(links, s, n - 1);
    }
  }

  /** The arrays hold both ends of the known links exactly up to MAX_PANELS of them. */
  lemma FitsIff(links: seq<SlotLink>, n: nat)
    requires Within(links, n)
    ensures Start(links, n) <= 2 * MAX_PANELS <==> |links| <= MAX_PANELS
  {
    SegmentsFill(links, n);
  }

  lemma {:induction false} KnownIsBounded(indices: seq<nat>, links: seq<TopoLink>)
    ensures Within(Known(indices, links), |indices|) && |Known(indices, links)| <= |links|
  {
    if links != [] {
      KnownIsBounded(indices, links[..|links| - 1]);
    }
  }

  /** The known links among the first `l`, and with the next one. */
  lemma KnownStep(indices: seq<nat>, links: seq<TopoLink>, l: nat)
    requires l < |links|
    ensures var a, b := SlotOf(indices, links[l].panelA), SlotOf(indices, links[l].panelB);
            Known(indices, links[..l + 1])
            == if a == NO_SLOT || b == NO_SLOT then Known(indices, links[..l])
               else Known(indices, links[..l]) + [SlotLink(a, links[l].edgeA, b, links[l].edgeB)]
  {
    assert links[..l + 1][..l] == links[..l];
  }

  lemma {:induction false} KnownPrefix(indices: seq<nat>, links: seq<TopoLink>, l: nat)
    requires l <= |links|
    ensures Known(indices, links[..l]) <= Known(indices, links)
    decreases |links| - l
  {
    if l == |links| {
      assert links[..l] == links;
    } else {
      KnownPrefix(indices, links, l + 1);
      KnownStep(indices, links, l);
    }
  }

  lemma {:induction false} DegreePrefix(part: seq<SlotLink>, all: seq<SlotLink>, s: nat)
    requires part <= all
    ensures Degree(part, s) <= Degree(all, s)
    decreases |all|
  {
    if part != all {
      DegreePrefix(part, all[..|all| - 1], s);
    }
  }

  // ------------------------------------------------------------------ the arrays

  class PanelGraph {
    var n: nat
    /** Slot to panel index, and back. */
    const idx: array<nat>
    const slotByIndex: array<nat>
    /** The neighbours of slot s are adj[adjStart[s]..], deg[s] of them. */
    const deg: array<nat>
    const adjStart: array<nat>
    const adj: array<Half>

    constructor ()
      ensures Sized() && n == 0
      ensures fresh(idx) && fresh(slotByIndex) && fresh(deg) && fresh(adjStart) && fresh(adj)
    {
      n := 0;
      idx := new nat[MAX_PANELS](_ => 0);
      slotByIndex := new nat[256](_ => NO_SLOT);
      deg := new nat[MAX_PANELS](_ => 0);
      adjStart := new nat[MAX_PANELS](_ => 0);
      adj := new Half[2 * MAX_PANELS](_ => Half(0, 0, 0));
    }

    ghost predicate Sized()
      reads this
    {
      && n <= MAX_PANELS
      && idx.Length == deg.Length == adjStart.Length == MAX_PANELS
      && slotByIndex.Length == 256 && adj.Length == 2 * MAX_PANELS
      && idx != slotByIndex && idx != deg && idx != adjStart
      && slotByIndex != deg && slotByIndex != adjStart && deg != adjStart
    }

    /** The neighbour list of a slot, as the accessors read it. */
    ghost function Neighbours(s: nat): seq<Half>
      requires Sized() && s < n && adjStart[s] + deg[s] <= adj.Length
      reads this, deg, adjStart, adj
    {
      adj[adjStart[s]..adjStart[s] + deg[s]]
    }

    /** The arrays represent these links. */
    ghost predicate Represents(links: seq<SlotLink>)
      reads this, deg, adjStart, adj
    {
      && Sized() && Within(links, n)
      && forall s :: 0 <= s < n ==>
           adjStart[s] + deg[s] <= adj.Length && Neighbours(s) == Incident(links, s)
    }

    // The accessors: the neighbour count of a slot, and its i-th neighbour.

    function DegreeOf(s: nat): nat
      requires Sized() && s < n
      reads this, deg
    {
      deg[s]
    }

    function Neighbour(s: nat, i: nat): Half
      requires Sized() && s < n && i < deg[s] && adjStart[s] + deg[s] <= adj.Length
      reads this, deg, adjStart, adj
    {
      adj[adjStart[s] + i]
    }

    /**
     build: the slots of the panels, then the adjacency. Empty or too many panels are refused. Links
     to unknown panels may be any number; the known ones are not counted by the code, and more than
     there is room for (FitsIff) would run past its arrays.
     */
    method Build(panelIndices: seq<nat>, links: seq<TopoLink>) returns (ok: bool)
      requires Sized() && |Known(panelIndices, links)| <= MAX_PANELS
      requires forall i :: 0 <= i < |panelIndices| ==> panelIndices[i] < 256
      requires forall l :: 0 <= l < |links| ==> links[l].panelA < 256 && links[l].panelB < 256
      modifies this, idx, slotByIndex, deg, adjStart, adj
      ensures Sized() && ok == (0 < |panelIndices| <= MAX_PANELS)
      ensures !ok ==> n == 0
      ensures ok ==> n == |panelIndices| && idx[..n] == panelIndices
      ensures ok ==> forall p :: 0 <= p < 256 ==> slotByIndex[p] == SlotOf(panelIndices, p)
      ensures ok ==> Represents(Known(panelIndices, links))
    {
      n := 0;
      if |panelIndices| == 0 || |panelIndices| > MAX_PANELS {
        return false;
      }
      n := |panelIndices|;
      NumberSlots(panelIndices);
      BuildAdjacency(panelIndices, links);
      ok := true;
    }

    ghost predicate Numbered(indices: seq<nat>)
      reads this, slotByIndex
    {
      && n == |indices| && slotByIndex.Length == 256
      && forall p :: 0 <= p < 256 ==> slotByIndex[p] == SlotOf(indices, p)
    }

    method NumberSlots(indices: seq<nat>)
      requires Sized() && n == |indices|
      requires forall i :: 0 <= i < |indices| ==> indices[i] < 256
      modifies idx, slotByIndex
      ensures idx[..n] == indices && Numbered(indices)
    {
      for p := 0 to 256
        invariant forall q :: 0 <= q < p ==> slotByIndex[q] == NO_SLOT
      {
        slotByIndex[p] := NO_SLOT;
      }
      for s := 0 to n
        invariant idx[..s] == indices[..s]
        invariant forall p :: 0 <= p < 256 ==> slotByIndex[p] == SlotOf(indices[..s], p)
      {
        idx[s] := indices[s];
        slotByIndex[indices[s]] := s;
        assert indices[..s + 1][..s] == indices[..s];
      }
      assert indices[..n] == indices;
    }

    method BuildAdjacency(ghost indices: seq<nat>, links: seq<TopoLink>)
      requires Sized() && Numbered(indices) && |Known(indices, links)| <= MAX_PANELS
      requires forall l :: 0 <= l < |links| ==> links[l].panelA < 256 && links[l].panelB < 256
      modifies deg, adjStart, adj
      ensures Represents(Known(indices, links))
    {
      hide Incident, Known, Start;
      ghost var all := Known(indices, links);
      KnownIsBounded(indices, links);
      FitsIff(all, n);
      CountDegrees(indices, links);
      PlaceSegments(all);
      FillSegments(indices, links);
      forall s | 0 <= s < n
        ensures adjStart[s] + deg[s] <= adj.Length
      {
        StartStep(all, s);
        StartIsMonotone(all, s + 1, n);
      }
    }

    /** The first pass: how many neighbours each slot has. */
    method CountDegrees(ghost indices: seq<nat>, links: seq<TopoLink>)
      requires Sized() && Numbered(indices)
      requires forall l :: 0 <= l < |links| ==> links[l].panelA < 256 && links[l].panelB < 256
      modifies deg
      ensures forall s :: 0 <= s < n ==> deg[s] == Degree(Known(indices, links), s)
    {
      hide Known, SlotOf, Degree;
      for s := 0 to n
        invariant forall r :: 0 <= r < s ==> deg[r] == 0
      {
        deg[s] := 0;
      }
      NothingKnown(indices, links, n);
      for l := 0 to |links|
        invariant forall s :: 0 <= s < n ==> deg[s] == Degree(Known(indices, links[..l]), s)
      {
        KnownStep(indices, links, l);
        var a := slotByIndex[links[l].panelA];
        var b := slotByIndex[links[l].panelB];
        if a != NO_SLOT && b != NO_SLOT {
          SlotIsBelow(indices, links[l].panelA);
          SlotIsBelow(indices, links[l].panelB);
          forall s | 0 <= s < n
            ensures Degree(Known(indices, links[..l + 1]), s)
                 == deg[s] + (if a == s then 1 else 0) + (if b == s then 1 else 0)
          {
            DegreeGrows(Known(indices, links[..l]), SlotLink(a, links[l].edgeA, b, links[l].edgeB), s);
          }
          deg[a] := deg[a] + 1;
          deg[b] := deg[b] + 1;
        }
      }
      assert links[..|links|] == links;
    }

    /** Running totals; they fit the byte they are stored in. */
    method PlaceSegments(ghost all: seq<SlotLink>)
      requires Sized() && Start(all, n) <= 2 * MAX_PANELS
      requires forall s :: 0 <= s < n ==> deg[s] == Degree(all, s)
      modifies adjStart
      ensures forall s :: 0 <= s < n ==> adjStart[s] == Start(all, s)
    {
      hide Degree, Start;
      StartsAtZero(all);
      var acc := 0;
      for s := 0 to n
        invariant acc == Start(all, s)
        invariant forall r :: 0 <= r < s ==> adjStart[r] == Start(all, r)
      {
        StartIsMonotone(all, s, n);
        StartStep(all, s);
        adjStart[s] := acc % 256;
        acc := acc + deg[s];
      }
    }

    /** How far each segment has been filled: `part[s]` lies at its beginning, and the cursor behind it. */
    ghost predicate Filled(cursor: array<nat>, all: seq<SlotLink>, part: seq<seq<Half>>)
      reads this, cursor, adj
    {
      && Sized() && cursor.Length == MAX_PANELS && |part| == n
      && Start(all, n) <= adj.Length
      && forall s :: 0 <= s < n ==>
           && |part[s]| <= Degree(all, s)
           && cursor[s] == Start(all, s) + |part[s]|
           && cursor[s] <= adj.Length
           && adj[Start(all, s)..cursor[s]] == part[s]
    }

    /** The second pass: both ends of every link, behind the cursors of their slots. */
    method FillSegments(ghost indices: seq<nat>, links: seq<TopoLink>)
      requires Sized() && Numbered(indices)
      requires forall l :: 0 <= l < |links| ==> links[l].panelA < 256 && links[l].panelB < 256
      requires Start(Known(indices, links), n) <= adj.Length
      requires forall s :: 0 <= s < n ==> adjStart[s] == Start(Known(indices, links), s)
      modifies adj
      ensures forall s :: 0 <= s < n ==>
        var all := Known(indices, links);
        && Start(all, s) + Degree(all, s) <= adj.Length
        && adj[Start(all, s)..Start(all, s) + Degree(all, s)] == Incident(all, s)
    {
      hide Incident, Known, SlotOf, Start;
      ghost var all := Known(indices, links);
      var cursor := new nat[MAX_PANELS](_ => 0);
      for s := 0 to n
        invariant forall r :: 0 <= r < s ==> cursor[r] == adjStart[r]
      {
        cursor[s] := adjStart[s];
      }
      ghost var part := StartFilling(indices, links, cursor);
      for l := 0 to |links|
        invariant Filled(cursor, all, part)
        invariant part == Parts(Known(indices, links[..l]), n)
      {
        part := FillOne(cursor, indices, links, l, part);
      }
      assert links[..|links|] == links;
    }

    lemma StartFilling(indices: seq<nat>, links: seq<TopoLink>, cursor: array<nat>)
      returns (part: seq<seq<Half>>)
      requires Sized() && cursor.Length == MAX_PANELS
      requires Start(Known(indices, links), n) <= adj.Length
      requires forall s :: 0 <= s < n ==> cursor[s] == Start(Known(indices, links), s)
      ensures part == Parts(Known(indices, links[..0]), n) && Filled(cursor, Known(indices, links), part)
    {
      hide Start;
      var all := Known(indices, links);
      part := Parts(Known(indices, links[..0]), n);
      forall s | 0 <= s < n
        ensures Start(all, s) <= adj.Length && part[s] == []
      {
        StartIsMonotone(all, s, n);
      }
    }

    method FillOne(cursor: array<nat>, ghost indices: seq<nat>, links: seq<TopoLink>, l: nat,
                   ghost part0: seq<seq<Half>>)
      returns (ghost part: seq<seq<Half>>)
      requires Sized() && Numbered(indices) && l < |links|
      requires links[l].panelA < 256 && links[l].panelB < 256
      requires Filled(cursor, Known(indices, links), part0) && part0 == Parts(Known(indices, links[..l]), n)
      requires cursor != idx && cursor != slotByIndex && cursor != deg && cursor != adjStart
      modifies cursor, adj
      ensures Filled(cursor, Known(indices, links), part) && part == Parts(Known(indices, links[..l + 1]), n)
    {
      hide Incident, Known, SlotOf, Start, Parts;
      ghost var all, done := Known(indices, links), Known(indices, links[..l]);
      KnownStep(indices, links, l);
      part := part0;
      var a := slotByIndex[links[l].panelA];
      var b := slotByIndex[links[l].panelB];
      if a == NO_SLOT || b == NO_SLOT {
        return;
      }
      SlotIsBelow(indices, links[l].panelA);
      SlotIsBelow(indices, links[l].panelB);
      ghost var link := SlotLink(a, links[l].edgeA, b, links[l].edgeB);
      KnownPrefix(indices, links, l + 1);
      PartsGrow(done, link, all, n);
      Put(cursor, all, part, a, Half(b, links[l].edgeA, links[l].edgeB));
      part := part[a := part[a] + [Half(b, links[l].edgeA, links[l].edgeB)]];
      Put(cursor, all, part, b, Half(a, links[l].edgeB, links[l].edgeA));
      part := part[b := part[b] + [Half(a, links[l].edgeB, links[l].edgeA)]];
    }

    /** One neighbour is written behind its slot's cursor; the other segments are not touched. */
    method Put(cursor: array<nat>, ghost all: seq<SlotLink>, ghost part: seq<seq<Half>>, s: nat, h: Half)
      requires Filled(cursor, all, part) && s < n && |part[s]| < Degree(all, s)
      requires cursor != idx && cursor != slotByIndex && cursor != deg && cursor != adjStart
      modifies cursor, adj
      ensures Filled(cursor, all, part[s := part[s] + [h]])
    {
      hide Degree, Start;
      ghost var before, at := adj[..], cursor[s];
      StartStep(all, s);
      StartIsMonotone(all, s + 1, n);
      adj[cursor[s]] := h;
      cursor[s] := cursor[s] + 1;
      ghost var next := part[s := part[s] + [h]];
      forall r | 0 <= r < n
        ensures |next[r]| <= Degree(all, r) && cursor[r] == Start(all, r) + |next[r]| && cursor[r] <= adj.Length
        ensures adj[Start(all, r)..cursor[r]] == next[r]
      {
        if r < s {
          SegmentsAreOrdered(all, r, s);
        } else if r > s {
          SegmentsAreOrdered(all, s, r);
        }
      }
    }
  }

  /** The neighbour lists of all slots. */
  function Parts(links: seq<SlotLink>, n: nat): (p: seq<seq<Half>>)
    ensures |p| == n
  {
    seq(n, s requires 0 <= s < n => Incident(links, s))
  }

  /** One more link adds one neighbour to the list of its first slot and one to that of its second. */
  lemma PartsGrow(done: seq<SlotLink>, l: SlotLink, all: seq<SlotLink>, n: nat)
    requires l.a < n && l.b < n && done + [l] <= all
    ensures var p := Parts(done, n);
            var q := p[l.a := p[l.a] + [Half(l.b, l.edgeA, l.edgeB)]];
            var r := q[l.b := q[l.b] + [Half(l.a, l.edgeB, l.edgeA)]];
            && |p[l.a]| < Degree(all, l.a) && |q[l.b]| < Degree(all, l.b)
            && Parts(done + [l], n) == r
  {
    hide Incident;
    var p := Parts(done, n);
    var q := p[l.a := p[l.a] + [Half(l.b, l.edgeA, l.edgeB)]];
    var r := q[l.b := q[l.b] + [Half(l.a, l.edgeB, l.edgeA)]];
    DegreePrefix(done + [l], all, l.a);
    DegreePrefix(done + [l], all, l.b);
    DegreeGrows(done, l, l.a);
    DegreeGrows(done, l, l.b);
    forall s | 0 <= s < n
      ensures Incident(done + [l], s) == r[s]
    {
      IncidentAppend(done, l, s);
    }
  }

  lemma StartsAtZero(links: seq<SlotLink>)
    ensures Start(links, 0) == 0
  {
  }

  lemma StartStep(links: seq<SlotLink>, s: nat)
    ensures Start(links, s + 1) == Start(links, s) + Degree(links, s)
  {
  }

  lemma NothingKnown(indices: seq<nat>, links: seq<TopoLink>, n: nat)
    ensures forall s :: 0 <= s < n ==> Degree(Known(indices, links[..0]), s) == 0
  {
  }

  lemma SlotIsBelow(indices: seq<nat>, p: nat)
    ensures SlotOf(indices, p) != NO_SLOT ==> SlotOf(indices, p) < |indices|
  {
  }
}
