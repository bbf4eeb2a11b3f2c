/**
 The rooted view of the panel graph: the breadth-first walk of bfsParents
 (lib/Lightnet/Core/Controller/PanelGeometry.hpp), which gives every panel its parent, the two
 connectors between them, and an order in which parents come first.
 */
module PanelGeometries {
  import opened PanelGraphs

  const NO_PARENT: nat := 0xFF

  ghost predicate Adjacent(links: seq<SlotLink>, u: nat, v: nat) {
    exists h :: h in Incident(links, u) && h.peer == v
  }

  /** `v` is `k` links away from the root along some walk. */
  ghost predicate Walk(links: seq<SlotLink>, root: nat, v: nat, k: nat)
    decreases k
  {
    if k == 0 then v == root else exists u: nat :: Walk(links, root, u, k - 1) && Adjacent(links, u, v)
  }

  /** What the walk has found so far; `depth` is defined on the slots found. */
  datatype Tree = Tree(order: seq<nat>, depth: map<nat, nat>, parent: seq<nat>, myEdge: seq<nat>, peerEdge: seq<nat>)

  predicate NoRepeats(s: seq<nat>) {
    forall i, j :: 0 <= i < j < |s| ==> s[i] != s[j]
  }

  /** The order lists the found slots once each, by increasing depth, starting with the root. */
  ghost predicate Ordered(t: Tree, n: nat, root: nat) {
    && NoRepeats(t.order) && t.order != [] && t.order[0] == root
    && (forall i :: 0 <= i < |t.order| ==> t.order[i] < n && t.order[i] in t.depth)
    && (forall v :: v in t.depth ==> v in t.order)
    && (forall i, j :: 0 <= i <= j < |t.order| ==> t.depth[t.order[i]] <= t.depth[t.order[j]])
  }

  /** The slot at position `j` was found from a slot before it, over a link that both remember. */
  ghost predicate FoundFrom(links: seq<SlotLink>, t: Tree, j: nat)
    requires j < |t.order| && t.order[j] < |t.parent| == |t.myEdge| == |t.peerEdge|
  {
    var v := t.order[j];
    var p := t.parent[v];
    && p in t.order[..j] && p in t.depth && v in t.depth && t.depth[v] == t.depth[p] + 1
    && Half(v, t.peerEdge[v], t.myEdge[v]) in Incident(links, p)
  }

  /** No parent and no connectors: the root's entries, and those of a slot that has not been found. */
  predicate Unset(t: Tree, v: nat)
    requires v < |t.parent| == |t.myEdge| == |t.peerEdge|
  {
    t.parent[v] == NO_PARENT && t.myEdge[v] == 0 && t.peerEdge[v] == 0
  }

  ghost predicate Parented(links: seq<SlotLink>, t: Tree, n: nat, root: nat) {
    && |t.parent| == |t.myEdge| == |t.peerEdge| == n
    && root < n && root in t.depth && t.depth[root] == 0
    && (forall v: nat :: v < n && (v == root || v !in t.depth) ==> Unset(t, v))
    && (forall j :: 0 <= j < |t.order| ==> t.order[j] < n)
    && (forall j :: 0 < j < |t.order| ==> FoundFrom(links, t, j))
  }

  ghost predicate Reached(links: seq<SlotLink>, t: Tree, root: nat) {
    forall v :: v in t.depth ==> Walk(links, root, v, t.depth[v])
  }

  /** Everything next to the slot at position `i` has been found, one deeper at most. */
  ghost predicate Explored(links: seq<SlotLink>, t: Tree, i: nat) {
    i < |t.order| && t.order[i] in t.depth &&
    forall h :: h in Incident(links, t.order[i]) ==>
      h.peer in t.depth && t.depth[h.peer] <= t.depth[t.order[i]] + 1
  }

  ghost predicate Sound(links: seq<SlotLink>, t: Tree, n: nat, root: nat) {
    Ordered(t, n, root) && Parented(links, t, n, root) && Reached(links, t, root)
  }

  /** The slot `h.peer` is found from the slot `u` over the link `h`. */
  function Found(t: Tree, u: nat, h: Half): Tree
    requires u in t.depth && h.peer < |t.parent| == |t.myEdge| == |t.peerEdge|
  {
    var v := h.peer;
    Tree(t.order + [v], t.depth[v := t.depth[u] + 1],
         t.parent[v := u], t.myEdge[v := h.peerEdge], t.peerEdge[v := h.myEdge])
  }

  lemma FoundStaysOrdered(links: seq<SlotLink>, t: Tree, n: nat, root: nat, q: nat, h: Half)
    requires Ordered(t, n, root) && Parented(links, t, n, root) && q < |t.order|
    requires h.peer < n && h.peer !in t.depth
    requires t.depth[t.order[|t.order| - 1]] <= t.depth[t.order[q]] + 1
    ensures Ordered(Found(t, t.order[q], h), n, root)
  {
    var u := t.order[q];
    var s := Found(t, u, h);
    forall i | 0 <= i < |s.order|
      ensures s.order[i] < n && s.order[i] in s.depth
      ensures i < |t.order| ==> s.order[i] == t.order[i] != h.peer && s.depth[s.order[i]] == t.depth[t.order[i]]
      ensures s.depth[s.order[i]] <= t.depth[u] + 1
    {
      if i < |t.order| {
        assert t.depth[t.order[i]] <= t.depth[t.order[|t.order| - 1]];
      }
    }
    assert s.order[|t.order|] == h.peer;
  }

  lemma FoundStaysParented(links: seq<SlotLink>, t: Tree, n: nat, root: nat, q: nat, h: Half)
    requires Ordered(t, n, root) && Parented(links, t, n, root) && q < |t.order|
    requires h.peer < n && h.peer !in t.depth && h in Incident(links, t.order[q])
    ensures Parented(links, Found(t, t.order[q], h), n, root)
  {
    var u := t.order[q];
    var s := Found(t, u, h);
    forall j | 0 < j < |s.order|
      ensures FoundFrom(links, s, j)
    {
      if j < |t.order| {
        assert t.order[j] in t.depth;
        EarlierStaysFound(links, t, n, u, h, j);
      } else {
        assert s.order[..j] == t.order;
      }
    }
  }

  lemma EarlierStaysFound(links: seq<SlotLink>, t: Tree, n: nat, u: nat, h: Half, j: nat)
    requires |t.parent| == |t.myEdge| == |t.peerEdge| == n && j < |t.order| && t.order[j] < n
    requires u in t.depth && h.peer < n && h.peer !in t.depth && t.order[j] in t.depth && FoundFrom(links, t, j)
    ensures FoundFrom(links, Found(t, u, h), j)
  {
    assert Found(t, u, h).order[..j] == t.order[..j];
  }

  lemma WalkStep(links: seq<SlotLink>, root: nat, u: nat, v: nat, k: nat)
    requires Walk(links, root, u, k) && Adjacent(links, u, v)
    ensures Walk(links, root, v, k + 1)
  {
    hide Adjacent;
  }

  lemma FoundStaysReached(links: seq<SlotLink>, t: Tree, root: nat, u: nat, h: Half)
    requires Reached(links, t, root) && u in t.depth && h in Incident(links, u)
    requires h.peer < |t.parent| == |t.myEdge| == |t.peerEdge|
    ensures Reached(links, Found(t, u, h), root)
  {
    hide Walk;
    WalkStep(links, root, u, h.peer, t.depth[u]) by {
      assert Adjacent(links, u, h.peer);
    }
  }

  lemma FoundStaysExplored(links: seq<SlotLink>, t: Tree, u: nat, h: Half, i: nat)
    requires u in t.depth && h.peer < |t.parent| == |t.myEdge| == |t.peerEdge| && h.peer !in t.depth
    requires Explored(links, t, i)
    ensures Explored(links, Found(t, u, h), i)
  {
  }

  /** When everything found has been explored, no walk is shorter than the depth. */
  lemma {:induction false} DepthIsShortest(links: seq<SlotLink>, t: Tree, n: nat, root: nat, v: nat, k: nat)
    requires Sound(links, t, n, root) && Walk(links, root, v, k)
    requires forall i :: 0 <= i < |t.order| ==> Explored(links, t, i)
    ensures v in t.depth && t.depth[v] <= k
    decreases k
  {
    if k > 0 {
      var u: nat :| Walk(links, root, u, k - 1) && Adjacent(links, u, v);
      DepthIsShortest(links, t, n, root, u, k - 1);
      var i: nat :| i < |t.order| && t.order[i] == u;
      assert Explored(links, t, i);
      var h :| h in Incident(links, u) && h.peer == v;
    }
  }

  lemma {:induction false} NoRepeatsBound(s: seq<nat>, n: nat)
    requires NoRepeats(s) && forall i :: 0 <= i < |s| ==> s[i] < n
    ensures |s| <= n
    decreases n
  {
    if s != [] {
      assert s[0] < n;
      if n - 1 in s {
        var k: nat :| k < |s| && s[k] == n - 1;
        var rest := s[..k] + s[k + 1..];
        NoRepeatsBound(rest, n - 1);
      } else {
        assert forall i :: 0 <= i < |s| ==> s[i] in s;
        NoRepeatsBound(s, n - 1);
      }
    }
  }

  class PanelGeometry {
    var n: nat
    var bfsCount: nat
    const parent: array<nat>
    const parentMyEdge: array<nat>
    const parentPeerEdge: array<nat>
    const bfsOrder: array<nat>

    constructor ()
      ensures Sized() && n == 0
      ensures fresh(parent) && fresh(parentMyEdge) && fresh(parentPeerEdge) && fresh(bfsOrder)
    {
      n, bfsCount := 0, 0;
      parent := new nat[MAX_PANELS](_ => 0);
      parentMyEdge := new nat[MAX_PANELS](_ => 0);
      parentPeerEdge := new nat[MAX_PANELS](_ => 0);
      bfsOrder := new nat[MAX_PANELS](_ => 0);
    }

    ghost predicate Sized()
      reads this
    {
      && parent.Length == parentMyEdge.Length == parentPeerEdge.Length == bfsOrder.Length == MAX_PANELS
      && n <= MAX_PANELS && bfsCount <= MAX_PANELS
      && parent != parentMyEdge && parent != parentPeerEdge && parent != bfsOrder
      && parentMyEdge != parentPeerEdge && parentMyEdge != bfsOrder && parentPeerEdge != bfsOrder
    }

    /** The arrays, the queue and the visited flags spell out the tree found so far. */
    ghost predicate Spells(t: Tree, queue: array<nat>, visited: array<bool>)
      reads this, parent, parentMyEdge, parentPeerEdge, bfsOrder, queue, visited
    {
      && Sized() && queue.Length == visited.Length == MAX_PANELS
      && queue != parent && queue != parentMyEdge && queue != parentPeerEdge && queue != bfsOrder
      && bfsCount == |t.order| && bfsOrder[..bfsCount] == t.order && queue[..bfsCount] == t.order
      && parent[..n] == t.parent && parentMyEdge[..n] == t.myEdge && parentPeerEdge[..n] == t.peerEdge
      && forall v :: 0 <= v < n ==> (visited[v] <==> v in t.depth)
    }

    /**
     bfsParents. The result lists every slot the root is linked to, directly or not, exactly once and
     each after its parent; parents and connectors are those of real links, and the number of steps
     to the root is the smallest possible. The queue never outgrows its buffer.
     */
    method BfsParents(graph: PanelGraph, ghost links: seq<SlotLink>, rootSlot: nat) returns (ghost t: Tree)
      requires Sized() && graph.Represents(links) && graph.n == n && rootSlot < n
      modifies this`bfsCount, parent, parentMyEdge, parentPeerEdge, bfsOrder
      requires {parent, parentMyEdge, parentPeerEdge, bfsOrder} !!
               {graph.idx, graph.slotByIndex, graph.deg, graph.adjStart}
      ensures Sized() && Sound(links, t, n, rootSlot)
      ensures bfsCount == |t.order| <= n && bfsOrder[..bfsCount] == t.order
      ensures parent[..n] == t.parent && parentMyEdge[..n] == t.myEdge && parentPeerEdge[..n] == t.peerEdge
      ensures forall i :: 0 <= i < |t.order| ==> Explored(links, t, i)
    {
      hide Ordered, Parented, Reached, Explored, Incident, Spells, Shallow, Sound;
      var visited := new bool[MAX_PANELS](_ => false);
      var queue := new nat[MAX_PANELS](_ => 0);
      t := PlantRoot(links, queue, visited, rootSlot);
      var qh, qt := 0, bfsCount;
      while qh < qt
        invariant Sound(links, t, n, rootSlot) && Spells(t, queue, visited)
        invariant qh <= qt == bfsCount == |t.order|
        invariant forall i :: 0 <= i < qh ==> Explored(links, t, i)
        invariant qh < qt ==> Shallow(t, qh)
        decreases n - qh
      {
        SoundIsBounded(links, t, n, rootSlot);
        QueueIsOrder(t, queue, visited, qh);
        var u := queue[qh];
        qh := qh + 1;
        qt, t := Visit(graph, links, rootSlot, queue, visited, qt, u, qh - 1, t);
      }
      SoundIsBounded(links, t, n, rootSlot);
      ArraysSpell(t, queue, visited);
    }

    lemma QueueIsOrder(t: Tree, queue: array<nat>, visited: array<bool>, q: nat)
      requires Spells(t, queue, visited) && q < bfsCount
      ensures q < |t.order| && q < queue.Length && queue[q] == t.order[q]
    {
    }

    lemma ArraysSpell(t: Tree, queue: array<nat>, visited: array<bool>)
      requires Spells(t, queue, visited)
      ensures Sized() && bfsCount == |t.order| && bfsOrder[..bfsCount] == t.order
      ensures parent[..n] == t.parent && parentMyEdge[..n] == t.myEdge && parentPeerEdge[..n] == t.peerEdge
    {
    }

    /** No slot has a parent yet, and the root is the first in the queue. */
    method PlantRoot(ghost links: seq<SlotLink>, queue: array<nat>, visited: array<bool>,
                     rootSlot: nat) returns (ghost t: Tree)
      requires Sized() && rootSlot < n && queue.Length == visited.Length == MAX_PANELS
      requires queue !in {parent, parentMyEdge, parentPeerEdge, bfsOrder}
      modifies this`bfsCount, parent, parentMyEdge, parentPeerEdge, bfsOrder, queue, visited
      ensures Sound(links, t, n, rootSlot) && Spells(t, queue, visited) && Shallow(t, 0) && bfsCount == 1 == |t.order|
    {
      hide Ordered, Parented, Reached;
      ClearParents(visited);
      visited[rootSlot] := true;
      queue[0] := rootSlot;
      bfsOrder[0] := rootSlot;
      bfsCount := 1;
      t := Tree([rootSlot], map[rootSlot := 0], parent[..n], parentMyEdge[..n], parentPeerEdge[..n]);
      RootIsSound(links, t, n, rootSlot);
    }

    method ClearParents(visited: array<bool>)
      requires Sized() && visited.Length == MAX_PANELS
      modifies parent, parentMyEdge, parentPeerEdge, visited
      ensures forall s :: 0 <= s < n ==>
        parent[s] == NO_PARENT && parentMyEdge[s] == 0 && parentPeerEdge[s] == 0 && !visited[s]
    {
      for s := 0 to n
        invariant forall r :: 0 <= r < s ==>
          parent[r] == NO_PARENT && parentMyEdge[r] == 0 && parentPeerEdge[r] == 0 && !visited[r]
      {
        parent[s] := NO_PARENT;
        parentMyEdge[s] := 0;
        parentPeerEdge[s] := 0;
        visited[s] := false;
      }
    }

    /** The inner loop: everything next to `u` that has not been seen yet is found from it. */
    method Visit(graph: PanelGraph, ghost links: seq<SlotLink>, ghost root: nat, queue: array<nat>,
                 visited: array<bool>,
                 qt0: nat, u: nat, ghost q: nat, ghost t0: Tree)
      returns (qt: nat, ghost t: Tree)
      requires graph.Represents(links) && graph.n == n && u < n
      requires {parent, parentMyEdge, parentPeerEdge, bfsOrder, queue} !! {graph.deg, graph.adjStart}
      requires Sound(links, t0, n, root) && Spells(t0, queue, visited) && qt0 == bfsCount
      requires Shallow(t0, q) && t0.order[q] == u
      requires forall i :: 0 <= i < q ==> Explored(links, t0, i)
      modifies this`bfsCount, parent, parentMyEdge, parentPeerEdge, bfsOrder, queue, visited
      ensures Sound(links, t, n, root) && Spells(t, queue, visited) && qt == bfsCount == |t.order|
      ensures q < |t.order| && forall i :: 0 <= i <= q ==> Explored(links, t, i)
      ensures q + 1 < |t.order| ==> Shallow(t, q + 1)
    {
      hide Ordered, Parented, Reached, Explored, Incident, Spells, NearFound, Found;
      qt, t := qt0, t0;
      NoneNear(t0, q, Incident(links, u));
      ghost var near := Incident(links, u);
      assert graph.Neighbours(u) == near;
      PeersAreSlots(links, n, u);
      var degree := graph.DegreeOf(u);
      for i := 0 to degree
        invariant graph.Represents(links) && graph.deg[u] == degree == |near|
        invariant Sound(links, t, n, root) && Spells(t, queue, visited) && qt == bfsCount
        invariant Shallow(t, q) && t.order[q] == u
        invariant forall j :: 0 <= j < q ==> Explored(links, t, j)
        invariant NearFound(t, u, near, i)
      {
        var h := graph.Neighbour(u, i);
        assert h == graph.Neighbours(u)[i] == near[i];
        SpellsVisited(t, queue, visited, h.peer);
        if visited[h.peer] {
          SeenIsShallow(t, n, root, q, near, i);
        } else {
          FoundNear(links, t, n, root, q, h, near, i);
          qt, t := Discover(links, root, queue, visited, qt, u, q, h, t);
        }
      }
      ArraysSpell(t, queue, visited);
      AllNearIsExplored(links, t, q);
      NextIsShallow(t, n, root, q);
    }

    lemma SpellsVisited(t: Tree, queue: array<nat>, visited: array<bool>, v: nat)
      requires Spells(t, queue, visited) && v < n
      ensures visited.Length > v && (visited[v] <==> v in t.depth)
    {
    }

    /** A new slot is noted and queued. */
    method Discover(ghost links: seq<SlotLink>, ghost root: nat, queue: array<nat>, visited: array<bool>,
                    qt0: nat, u: nat, ghost q: nat, h: Half, ghost t0: Tree)
      returns (qt: nat, ghost t: Tree)
      requires Sound(links, t0, n, root) && Spells(t0, queue, visited) && qt0 == bfsCount
      requires Shallow(t0, q) && t0.order[q] == u
      requires h in Incident(links, u) && h.peer < n && h.peer !in t0.depth
      modifies this`bfsCount, parent, parentMyEdge, parentPeerEdge, bfsOrder, queue, visited
      ensures t == Found(t0, u, h) && Sound(links, t, n, root) && Spells(t, queue, visited) && qt == bfsCount
    {
      hide Ordered, Parented, Reached, Incident;
      ParentsCover(links, t0, n, root);
      RoomForOneMore(t0, n, root, h.peer);
      SoundWithOneMore(links, t0, n, root, q, h);
      t := Found(t0, u, h);
      var v := h.peer;
      visited[v] := true;
      parent[v] := u;
      parentMyEdge[v] := h.peerEdge;
      parentPeerEdge[v] := h.myEdge;
      queue[qt0] := v;
      qt := qt0 + 1;
      bfsOrder[bfsCount] := v;
      bfsCount := bfsCount + 1;
    }
  }

  /** Nothing found so far is more than one deeper than the slot at position `q`. */
  ghost predicate Shallow(t: Tree, q: nat) {
    && q < |t.order| && t.order[q] in t.depth && t.order[|t.order| - 1] in t.depth
    && t.depth[t.order[|t.order| - 1]] <= t.depth[t.order[q]] + 1
  }

  lemma SoundIsBounded(links: seq<SlotLink>, t: Tree, n: nat, root: nat)
    requires Sound(links, t, n, root)
    ensures |t.order| <= n && forall i :: 0 <= i < |t.order| ==> t.order[i] < n
  {
    hide Ordered;
    OrderIsBounded(t, n, root);
  }

  lemma OrderIsBounded(t: Tree, n: nat, root: nat)
    requires Ordered(t, n, root)
    ensures |t.order| <= n
    ensures forall i :: 0 <= i < |t.order| ==> t.order[i] < n
  {
    NoRepeatsBound(t.order, n);
  }

  lemma RootIsSound(links: seq<SlotLink>, t: Tree, n: nat, root: nat)
    requires t.order == [root] && t.depth == map[root := 0] && root < n
    requires |t.parent| == |t.myEdge| == |t.peerEdge| == n && forall v: nat :: v < n ==> Unset(t, v)
    ensures Sound(links, t, n, root) && Shallow(t, 0)
  {
  }

  /** The first `i` neighbours of `u` have been found, one deeper at most. */
  ghost predicate NearFound(t: Tree, u: nat, near: seq<Half>, i: nat) {
    && u in t.depth && i <= |near|
    && forall j :: 0 <= j < i ==> near[j].peer in t.depth && t.depth[near[j].peer] <= t.depth[u] + 1
  }

  lemma NoneNear(t: Tree, q: nat, near: seq<Half>)
    requires Shallow(t, q)
    ensures NearFound(t, t.order[q], near, 0)
  {
  }

  lemma SeenIsShallow(t: Tree, n: nat, root: nat, q: nat, near: seq<Half>, i: nat)
    requires Ordered(t, n, root) && Shallow(t, q)
    requires i < |near| && NearFound(t, t.order[q], near, i) && near[i].peer in t.depth
    ensures NearFound(t, t.order[q], near, i + 1)
  {
    var v := near[i].peer;
    var j: nat :| j < |t.order| && t.order[j] == v;
    assert t.depth[t.order[j]] <= t.depth[t.order[|t.order| - 1]];
  }

  /** What one more find leaves as it was, and adds. */
  lemma FoundNear(links: seq<SlotLink>, t: Tree, n: nat, root: nat, q: nat, h: Half, near: seq<Half>, i: nat)
    requires Parented(links, t, n, root) && Shallow(t, q) && h.peer < n && h.peer !in t.depth
    requires i < |near| && near[i] == h && NearFound(t, t.order[q], near, i)
    ensures var s := Found(t, t.order[q], h);
            && Shallow(s, q) && s.order[q] == t.order[q] && NearFound(s, t.order[q], near, i + 1)
            && forall j :: 0 <= j < |t.order| && Explored(links, t, j) ==> Explored(links, s, j)
  {
    hide Incident;
    var u := t.order[q];
    var s := Found(t, u, h);
    assert s.order[|t.order|] == h.peer;
    forall j | 0 <= j < |t.order| && Explored(links, t, j)
      ensures Explored(links, s, j)
    {
      FoundStaysExplored(links, t, u, h, j);
    }
  }

  lemma AllNearIsExplored(links: seq<SlotLink>, t: Tree, q: nat)
    requires q < |t.order|
    requires NearFound(t, t.order[q], Incident(links, t.order[q]), |Incident(links, t.order[q])|)
    ensures Explored(links, t, q)
  {
  }

  lemma NextIsShallow(t: Tree, n: nat, root: nat, q: nat)
    requires Ordered(t, n, root) && Shallow(t, q)
    ensures q + 1 < |t.order| ==> Shallow(t, q + 1)
  {
  }

  lemma ParentsCover(links: seq<SlotLink>, t: Tree, n: nat, root: nat)
    requires Parented(links, t, n, root)
    ensures |t.parent| == |t.myEdge| == |t.peerEdge| == n
  {
  }

  /** The queue has room: a slot that is not in it is one of fewer than `n`. */
  lemma RoomForOneMore(t: Tree, n: nat, root: nat, v: nat)
    requires Ordered(t, n, root) && v < n && v !in t.depth
    ensures |t.order| < n
  {
    var more := t.order + [v];
    assert forall i :: 0 <= i < |t.order| ==> more[i] == t.order[i] && t.order[i] in t.depth;
    NoRepeatsBound(more, n);
  }

  lemma SoundWithOneMore(links: seq<SlotLink>, t: Tree, n: nat, root: nat, q: nat, h: Half)
    requires Sound(links, t, n, root) && Shallow(t, q)
    requires h in Incident(links, t.order[q]) && h.peer < n && h.peer !in t.depth
    requires |t.parent| == |t.myEdge| == |t.peerEdge| == n
    ensures Sound(links, Found(t, t.order[q], h), n, root)
  {
    hide Ordered, Parented, Reached, Incident;
    FoundStaysOrdered(links, t, n, root, q, h);
    FoundStaysParented(links, t, n, root, q, h);
    FoundStaysReached(links, t, root, t.order[q], h);
  }

  // ------------------------------------------------------------------ what the walk guarantees

  /** Following parents from `v`, the root is reached after exactly `k` steps. */
  predicate Chain(parent: seq<nat>, root: nat, v: nat, k: nat)
    decreases k
  {
    if k == 0 then v == root else v != root && v < |parent| && Chain(parent, root, parent[v], k - 1)
  }

  lemma {:induction false} ParentsLeadToRoot(links: seq<SlotLink>, t: Tree, n: nat, root: nat, j: nat)
    requires Sound(links, t, n, root) && j < |t.order|
    ensures t.order[j] in t.depth && Chain(t.parent, root, t.order[j], t.depth[t.order[j]])
    decreases j
  {
    if j > 0 {
      assert FoundFrom(links, t, j);
      var p := t.parent[t.order[j]];
      var i: nat :| i < j && t.order[..j][i] == p;
      ParentsLeadToRoot(links, t, n, root, i);
    }
  }

  ghost predicate Linked(links: seq<SlotLink>, root: nat, v: nat) {
    exists k: nat :: Walk(links, root, v, k)
  }

  /** A slot is listed exactly when some walk from the root reaches it. */
  lemma ListedIffLinked(links: seq<SlotLink>, t: Tree, n: nat, root: nat, v: nat)
    requires Sound(links, t, n, root) && forall i :: 0 <= i < |t.order| ==> Explored(links, t, i)
    ensures v in t.order <==> Linked(links, root, v)
  {
    if v in t.order {
      assert Walk(links, root, v, t.depth[v]);
    }
    if Linked(links, root, v) {
      var k: nat :| Walk(links, root, v, k);
      DepthIsShortest(links, t, n, root, v, k);
    }
  }

  /** The parent chain of a listed slot is as long as its shortest walk from the root. */
  lemma ParentChainIsShortest(links: seq<SlotLink>, t: Tree, n: nat, root: nat, j: nat)
    requires Sound(links, t, n, root) && forall i :: 0 <= i < |t.order| ==> Explored(links, t, i)
    requires j < |t.order|
    ensures exists k: nat ::
      && Chain(t.parent, root, t.order[j], k) && Walk(links, root, t.order[j], k)
      && forall m: nat :: Walk(links, root, t.order[j], m) ==> k <= m
  {
    ParentsLeadToRoot(links, t, n, root, j);
    var v := t.order[j];
    var k := t.depth[v];
    forall m: nat | Walk(links, root, v, m)
      ensures k <= m
    {
      DepthIsShortest(links, t, n, root, v, m);
    }
    assert Chain(t.parent, root, v, k) && Walk(links, root, v, k);
  }

  /** In a connected graph the order is a permutation of the slots. */
  lemma {:induction false} EverySlotListedOnce(links: seq<SlotLink>, t: Tree, n: nat, root: nat)
    requires Sound(links, t, n, root) && forall i :: 0 <= i < |t.order| ==> Explored(links, t, i)
    requires forall v :: 0 <= v < n ==> Linked(links, root, v)
    ensures NoRepeats(t.order) && forall v :: v in t.order <==> 0 <= v < n
    ensures |t.order| == n
  {
    forall v | 0 <= v < n
      ensures v in t.order
    {
      ListedIffLinked(links, t, n, root, v);
    }
    SoundIsBounded(links, t, n, root);
    CoverNeedsRoom(t.order, n);
  }

  lemma {:induction false} CoverNeedsRoom(s: seq<nat>, n: nat)
    requires forall v :: 0 <= v < n ==> v in s
    ensures |s| >= n
    decreases n
  {
    if n > 0 {
      assert n - 1 in s;
      var k: nat :| k < |s| && s[k] == n - 1;
      var rest := s[..k] + s[k + 1..];
      forall v | 0 <= v < n - 1
        ensures v in rest
      {
        assert v in s;
        var i: nat :| i < |s| && s[i] == v;
        assert if i < k then rest[i] == v else rest[i - 1] == v;
      }
      CoverNeedsRoom(rest, n - 1);
    }
  }
}
