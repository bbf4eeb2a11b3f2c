/**
 Hop-level acknowledgement between two neighbouring panels: the stop-and-wait sender of
 lib/Lightnet/Panel/ArqEdgeLink.cpp, and the receiver that acks every copy but dispatches a frame
 only when lib/Lightnet/Core/Relay/LinkArq.hpp has not seen it within its window.
 */
module LinkArq {
  const LINK_ACK_TIMEOUT_MS: nat := 4
  const LINK_RETRANSMITS: nat := 2
  const LINK_DEDUP_WINDOW_MS: nat := 12
  const CLOCK: nat := 0x1_0000_0000

  /** One edge's memory: the last frame seen there, and when. */
  datatype Entry = Entry(armed: bool, frameCrc: nat, seenAtMs: nat)

  /** Milliseconds since a stamp, by 32-bit unsigned subtraction. */
  function Since(now: nat, then_: nat): nat {
    (now - then_) % CLOCK
  }

  predicate IsDuplicate(entry: Entry, frameCrc: nat, now: nat) {
    entry.armed && entry.frameCrc == frameCrc && Since(now, entry.seenAtMs) < LINK_DEDUP_WINDOW_MS
  }

  class LinkDedup {
    const entries: array<Entry>

    constructor (edgeCount: nat)
      ensures fresh(entries) && entries.Length == edgeCount
      ensures forall e :: 0 <= e < edgeCount ==> !entries[e].armed
    {
      entries := new Entry[edgeCount](_ => Entry(false, 0, 0));
    }

    /** A repeat is reported; every sighting is noted, so a burst of repeats extends its window. */
    method CheckAndNote(edge: nat, frameCrc: nat, now: nat) returns (duplicate: bool)
      modifies entries
      ensures duplicate == (edge < entries.Length && IsDuplicate(old(entries[edge]), frameCrc, now))
      ensures edge < entries.Length ==> entries[edge] == Entry(true, frameCrc, now)
      ensures forall e :: 0 <= e < entries.Length && e != edge ==> entries[e] == old(entries[e])
    {
      if edge >= entries.Length {
        return false;
      }
      var entry := entries[edge];
      duplicate := entry.armed && entry.frameCrc == frameCrc && Since(now, entry.seenAtMs) < LINK_DEDUP_WINDOW_MS;
      entries[edge] := Entry(true, frameCrc, now);
    }
  }

  /** What is on the wire and what the peer made of it; frames are known by their number. */
  datatype Wire = Wire(
    frames: seq<nat>,      // the checksum of every frame sent so far
    toPeer: seq<nat>,      // copies on their way to the peer, oldest first
    acks: seq<nat>,        // acks on their way back, oldest first
    entry: Entry,          // the peer's memory for this edge
    dispatched: seq<nat>,  // the frames the peer has dispatched, in order
    sent: seq<nat>,        // every copy put on the wire
    received: seq<nat>,    // every copy the peer has taken, and acked
    lost: multiset<nat>,   // the copies that got lost
    heard: seq<nat>,       // every ack the sender has read
    lostAcks: multiset<nat>)

  predicate Ascending(s: seq<nat>) {
    forall i, j :: 0 <= i < j < |s| ==> s[i] <= s[j]
  }

  predicate StrictlyAscending(s: seq<nat>) {
    forall i, j :: 0 <= i < j < |s| ==> s[i] < s[j]
  }

  function Last(s: seq<nat>): nat
    requires s != []
  {
    s[|s| - 1]
  }

  /**
   Frames are dispatched in the order they were sent and never twice, what is acked has been
   dispatched, and the peer remembers the last frame it saw, which no copy in flight precedes.
   */
  predicate Sound(w: Wire) {
    && Ascending(w.toPeer) && StrictlyAscending(w.dispatched)
    && (forall i :: 0 <= i < |w.toPeer| ==> w.toPeer[i] < |w.frames|)
    && (forall i :: 0 <= i < |w.dispatched| ==> w.dispatched[i] < |w.frames|)
    && (forall i :: 0 <= i < |w.acks| ==> w.acks[i] in w.dispatched)
    && (w.entry.armed <==> w.dispatched != [])
    && (w.dispatched != [] ==>
         && w.entry.seenAtMs < CLOCK && w.entry.frameCrc == w.frames[Last(w.dispatched)]
         && forall i :: 0 <= i < |w.toPeer| ==> Last(w.dispatched) <= w.toPeer[i])
  }

  /** No copy and no ack comes from nowhere or goes nowhere. */
  ghost predicate Balanced(w: Wire) {
    && (forall i :: 0 <= i < |w.sent| ==> w.sent[i] < |w.frames|)
    && multiset(w.sent) == multiset(w.toPeer) + multiset(w.received) + w.lost
    && multiset(w.received) == multiset(w.acks) + multiset(w.heard) + w.lostAcks
  }

  /**
   The two assumptions on the link, for the copy that arrives next: another copy of the frame seen
   last arrives within the window, and a different frame either has another checksum or arrives
   after the window.
   */
  predicate InTime(w: Wire, now: nat)
    requires Sound(w) && w.toPeer != []
  {
    && now < CLOCK
    && (w.dispatched != [] ==>
         var since := Since(now, w.entry.seenAtMs);
         if w.toPeer[0] == Last(w.dispatched) then since < LINK_DEDUP_WINDOW_MS
         else w.frames[w.toPeer[0]] != w.frames[Last(w.dispatched)] || since >= LINK_DEDUP_WINDOW_MS)
  }

  lemma SomeTimeIsInTime(w: Wire) returns (now: nat)
    requires Sound(w) && w.toPeer != []
    ensures InTime(w, now)
  {
    now := 0;
    if w.dispatched != [] {
      var at := w.entry.seenAtMs;
      now := if w.toPeer[0] == Last(w.dispatched) then at else (at + LINK_DEDUP_WINDOW_MS) % CLOCK;
    }
  }

  /** The peer takes the next copy: it acks first, then dispatches unless the frame is a duplicate. */
  function Received(w: Wire, now: nat): Wire
    requires w.toPeer != [] && w.toPeer[0] < |w.frames|
  {
    var copy := w.toPeer[0];
    var crc := w.frames[copy];
    w.(toPeer := w.toPeer[1..], acks := w.acks + [copy], received := w.received + [copy], entry := Entry(true, crc, now),
       dispatched := if IsDuplicate(w.entry, crc, now) then w.dispatched else w.dispatched + [copy])
  }

  /** A frame dispatched unless it was before. */
  function WithFrame(dispatched: seq<nat>, frame: nat): seq<nat> {
    if frame in dispatched then dispatched else dispatched + [frame]
  }

  /**
   Under the assumptions a copy is dispatched exactly when its frame has not been before. It is acked
   in either case, so the loss of an ack costs a repetition and never a frame.
   */
  lemma ReceivedStaysSound(w: Wire, now: nat)
    requires Sound(w) && w.toPeer != [] && InTime(w, now)
    ensures Sound(Received(w, now))
    ensures Received(w, now).acks == w.acks + [w.toPeer[0]] && w.toPeer[0] in Received(w, now).dispatched
    ensures Received(w, now).dispatched == WithFrame(w.dispatched, w.toPeer[0])
  {
    var copy := w.toPeer[0];
    var r := Received(w, now);
    if w.dispatched != [] && copy != Last(w.dispatched) {
      assert copy !in w.dispatched by {
        assert forall i :: 0 <= i < |w.dispatched| ==> w.dispatched[i] <= Last(w.dispatched);
      }
    }
    if w.dispatched != [] && copy == Last(w.dispatched) {
      assert copy in w.dispatched;
    }
    assert copy in r.dispatched;
  }

  /**
   The assumptions are exactly what is needed: the peer dispatches a frame on its first copy and on
   no other if and only if the copies arrive in time.
   */
  lemma RightDispatchIffInTime(w: Wire, now: nat)
    requires Sound(w) && w.toPeer != [] && now < CLOCK
    ensures InTime(w, now) <==>
            Received(w, now).dispatched == WithFrame(w.dispatched, w.toPeer[0])
  {
    if InTime(w, now) {
      ReceivedStaysSound(w, now);
    } else {
      assert forall i :: 0 <= i < |w.dispatched| ==> w.dispatched[i] <= Last(w.dispatched);
      assert Last(w.dispatched) in w.dispatched;
    }
  }

  /** Numbers in flight, in either direction, that carry this checksum, are all `k`. */
  ghost predicate OnlyCarrier(w: Wire, crc: nat, k: nat)
    requires Sound(w)
  {
    && (forall i :: 0 <= i < |w.toPeer| && w.frames[w.toPeer[i]] == crc ==> w.toPeer[i] == k)
    && (forall i :: 0 <= i < |w.acks| && CrcOf(w, w.acks[i]) == crc ==> w.acks[i] == k)
  }

  function CrcOf(w: Wire, frame: nat): nat {
    if frame < |w.frames| then w.frames[frame] else 0
  }

  lemma AcksAreNumbered(w: Wire, i: nat)
    requires Sound(w) && i < |w.acks|
    ensures w.acks[i] < |w.frames|
  {
    assert w.acks[i] in w.dispatched;
  }

  function Without(s: seq<nat>, i: nat): (r: seq<nat>)
    requires i < |s|
    ensures |r| == |s| - 1
    ensures forall j :: 0 <= j < |r| ==> r[j] == if j < i then s[j] else s[j + 1]
  {
    s[..i] + s[i + 1..]
  }

  lemma WithoutLosesOne(s: seq<nat>, i: nat)
    requires i < |s|
    ensures multiset(s) == multiset(Without(s, i)) + multiset{s[i]}
  {
    assert s == s[..i] + ([s[i]] + s[i + 1..]);
  }

  function LoseCopy(w: Wire, i: nat): Wire
    requires i < |w.toPeer|
  {
    w.(toPeer := Without(w.toPeer, i), lost := w.lost + multiset{w.toPeer[i]})
  }

  function LoseAck(w: Wire, i: nat): Wire
    requires i < |w.acks|
  {
    w.(acks := Without(w.acks, i), lostAcks := w.lostAcks + multiset{w.acks[i]})
  }

  /** The sender reads the oldest ack. */
  function HearAck(w: Wire): Wire
    requires w.acks != []
  {
    w.(acks := w.acks[1..], heard := w.heard + [w.acks[0]])
  }

  /** A copy of the newest frame goes out. */
  function SendCopy(w: Wire): Wire
    requires w.frames != []
  {
    w.(toPeer := w.toPeer + [|w.frames| - 1], sent := w.sent + [|w.frames| - 1])
  }

  lemma FirstAndRest(s: seq<nat>)
    requires s != []
    ensures multiset(s) == multiset{s[0]} + multiset(s[1..])
  {
    assert s == [s[0]] + s[1..];
  }

  // Every step of peer, wire and sender keeps the balance.

  lemma ReceivingKeepsBalance(w: Wire, now: nat)
    requires Balanced(w) && w.toPeer != [] && w.toPeer[0] < |w.frames|
    ensures Balanced(Received(w, now))
  {
    FirstAndRest(w.toPeer);
  }

  lemma LosingCopyKeepsBalance(w: Wire, i: nat)
    requires Balanced(w) && i < |w.toPeer|
    ensures Balanced(LoseCopy(w, i)) && w.lost <= LoseCopy(w, i).lost
  {
    hide Without;
    WithoutLosesOne(w.toPeer, i);
  }

  lemma LosingAckKeepsBalance(w: Wire, i: nat)
    requires Balanced(w) && i < |w.acks|
    ensures Balanced(LoseAck(w, i)) && w.lostAcks <= LoseAck(w, i).lostAcks
  {
    hide Without;
    WithoutLosesOne(w.acks, i);
  }

  lemma HearingKeepsBalance(w: Wire)
    requires Balanced(w) && w.acks != []
    ensures Balanced(HearAck(w))
  {
    FirstAndRest(w.acks);
  }

  lemma SendingKeepsBalance(w: Wire)
    requires Balanced(w) && w.frames != []
    ensures Balanced(SendCopy(w))
  {
  }

  /** What the sender can rely on across any number of steps. */
  ghost predicate Later(w: Wire, v: Wire, crc: nat, k: nat) {
    && Sound(v) && Balanced(v) && v.frames == w.frames
    && w.dispatched <= v.dispatched && w.received <= v.received && w.lost <= v.lost && w.lostAcks <= v.lostAcks
    && OnlyCarrier(v, crc, k)
  }

  /** Peer and wire neither send copies nor read acks. */
  predicate NotSender(w: Wire, v: Wire) {
    v.sent == w.sent && v.heard == w.heard
  }

  /** The histories do not matter for soundness. */
  lemma HistoriesDoNotMatter(w: Wire, v: Wire, crc: nat, k: nat)
    requires Sound(w) && OnlyCarrier(w, crc, k)
    requires v == w.(sent := v.sent, received := v.received, lost := v.lost, heard := v.heard, lostAcks := v.lostAcks)
    ensures Sound(v) && OnlyCarrier(v, crc, k)
  {
  }

  lemma FewerCopies(w: Wire, i: nat, crc: nat, k: nat)
    requires Sound(w) && OnlyCarrier(w, crc, k) && i < |w.toPeer|
    ensures var u := w.(toPeer := Without(w.toPeer, i)); Sound(u) && OnlyCarrier(u, crc, k)
  {
  }

  lemma FewerAcks(w: Wire, i: nat, crc: nat, k: nat)
    requires Sound(w) && OnlyCarrier(w, crc, k) && i < |w.acks|
    ensures var u := w.(acks := Without(w.acks, i)); Sound(u) && OnlyCarrier(u, crc, k)
  {
  }

  lemma LosingCopyStaysSound(w: Wire, i: nat, crc: nat, k: nat)
    requires Sound(w) && Balanced(w) && OnlyCarrier(w, crc, k) && i < |w.toPeer|
    ensures Later(w, LoseCopy(w, i), crc, k)
  {
    hide Balanced, Sound, OnlyCarrier;
    LosingCopyKeepsBalance(w, i);
    var u := w.(toPeer := Without(w.toPeer, i));
    FewerCopies(w, i, crc, k);
    HistoriesDoNotMatter(u, LoseCopy(w, i), crc, k);
  }

  lemma LosingAckStaysSound(w: Wire, i: nat, crc: nat, k: nat)
    requires Sound(w) && Balanced(w) && OnlyCarrier(w, crc, k) && i < |w.acks|
    ensures Later(w, LoseAck(w, i), crc, k)
  {
    hide Balanced, Sound, OnlyCarrier;
    LosingAckKeepsBalance(w, i);
    var u := w.(acks := Without(w.acks, i));
    FewerAcks(w, i, crc, k);
    HistoriesDoNotMatter(u, LoseAck(w, i), crc, k);
  }

  lemma HearingAckStaysSound(w: Wire, crc: nat, k: nat)
    requires Sound(w) && Balanced(w) && OnlyCarrier(w, crc, k) && w.acks != []
    ensures Later(w, HearAck(w), crc, k)
  {
    hide Balanced, Sound, OnlyCarrier;
    HearingKeepsBalance(w);
    var u := w.(acks := Without(w.acks, 0));
    FewerAcks(w, 0, crc, k);
    assert Without(w.acks, 0) == w.acks[1..];
    HistoriesDoNotMatter(u, HearAck(w), crc, k);
  }

  lemma ReceivingStaysSound(w: Wire, now: nat, crc: nat, k: nat)
    requires Sound(w) && Balanced(w) && OnlyCarrier(w, crc, k) && w.toPeer != [] && InTime(w, now)
    ensures Later(w, Received(w, now), crc, k)
  {
    hide Sound, InTime, Balanced;
    ReceivedStaysSound(w, now);
    CarriersAfterReceiving(w, now, crc, k);
    CopyIsNumbered(w);
    ReceivingKeepsBalance(w, now);
  }

  lemma CopyIsNumbered(w: Wire)
    requires Sound(w) && w.toPeer != []
    ensures w.toPeer[0] < |w.frames|
  {
  }

  lemma CarriersAfterReceiving(w: Wire, now: nat, crc: nat, k: nat)
    requires Sound(w) && OnlyCarrier(w, crc, k) && w.toPeer != [] && Sound(Received(w, now))
    ensures OnlyCarrier(Received(w, now), crc, k)
  {
  }

  /** A copy of the newest frame is put on the wire. */
  lemma TransmitStaysSound(w: Wire, crc: nat)
    requires Sound(w) && Balanced(w) && w.frames != [] && OnlyCarrier(w, crc, |w.frames| - 1)
    ensures Later(w, SendCopy(w), crc, |w.frames| - 1)
  {
    hide Balanced;
    SendingKeepsBalance(w);
    CopyAtTheEnd(w, crc);
    var u := w.(toPeer := w.toPeer + [|w.frames| - 1]);
    HistoriesDoNotMatter(u, SendCopy(w), crc, |w.frames| - 1);
  }

  lemma CopyAtTheEnd(w: Wire, crc: nat)
    requires Sound(w) && w.frames != [] && OnlyCarrier(w, crc, |w.frames| - 1)
    ensures var u := w.(toPeer := w.toPeer + [|w.frames| - 1]); Sound(u) && OnlyCarrier(u, crc, |w.frames| - 1)
  {
  }

  /** A new frame gets the next number. */
  lemma NumberingStaysSound(w: Wire, crc: nat)
    requires Sound(w) && Balanced(w) && OnlyCarrier(w, crc, |w.frames|)
    ensures var v := w.(frames := w.frames + [crc]); Sound(v) && Balanced(v) && OnlyCarrier(v, crc, |w.frames|)
  {
    forall i | 0 <= i < |w.acks|
      ensures w.acks[i] < |w.frames|
    {
      AcksAreNumbered(w, i);
    }
  }

  /** An ack with this checksum is among those read since `from`. */
  ghost predicate AckRead(w: Wire, from: nat, crc: nat) {
    exists i :: from <= i < |w.heard| && CrcOf(w, w.heard[i]) == crc
  }

  /** The sender's side of the hop. The peer and the wire act between any two of its statements. */
  class ArqEdgeLink {
    var wire: Wire
    var linkRetransmits: nat
    var linkAckTimeouts: nat

    ghost predicate Valid()
      reads this
    {
      Sound(wire) && Balanced(wire)
    }

    constructor ()
      ensures Valid() && wire.dispatched == [] && wire.frames == [] && wire.sent == [] && wire.heard == []
      ensures linkRetransmits == 0 && linkAckTimeouts == 0
    {
      wire := Wire([], [], [], Entry(false, 0, 0), [], [], [], multiset{}, [], multiset{});
      linkRetransmits, linkAckTimeouts := 0, 0;
    }

    /** Any number of steps of the peer and the wire. */
    method Environment(ghost crc: nat, ghost k: nat)
      requires Valid() && OnlyCarrier(wire, crc, k)
      modifies this`wire
      ensures Later(old(wire), wire, crc, k) && NotSender(old(wire), wire)
    {
      hide Sound, OnlyCarrier, Balanced;
      var steps: nat :| true;
      for n := 0 to steps
        invariant Later(old(wire), wire, crc, k) && NotSender(old(wire), wire)
      {
        OneStep(crc, k);
      }
    }

    method OneStep(ghost crc: nat, ghost k: nat)
      requires Valid() && OnlyCarrier(wire, crc, k)
      modifies this`wire
      ensures Later(old(wire), wire, crc, k) && NotSender(old(wire), wire)
    {
      hide OnlyCarrier, Balanced;
      ghost var before := wire;
      if
      case true =>
      case wire.toPeer != [] =>
        ghost var some := SomeTimeIsInTime(wire);
        var now: nat :| now < CLOCK && InTime(wire, now);
        ReceivingStaysSound(wire, now, crc, k);
        wire := Received(wire, now);
      case wire.toPeer != [] =>
        var i: nat :| i < |wire.toPeer|;
        LosingCopyStaysSound(wire, i, crc, k);
        wire := LoseCopy(wire, i);
      case wire.acks != [] =>
        var i: nat :| i < |wire.acks|;
        LosingAckStaysSound(wire, i, crc, k);
        wire := LoseAck(wire, i);
    }

    /** transport.sendOnEdge: one copy of the newest frame goes out. */
    method Transmit(ghost crc: nat)
      requires Valid() && wire.frames != [] && OnlyCarrier(wire, crc, |wire.frames| - 1)
      modifies this`wire
      ensures wire.frames == old(wire.frames)
      ensures Later(old(wire), wire, crc, |wire.frames| - 1)
      ensures wire.sent == old(wire.sent) + [|wire.frames| - 1] && wire.heard == old(wire.heard)
    {
      hide Sound, OnlyCarrier, Balanced;
      TransmitStaysSound(wire, crc);
      wire := SendCopy(wire);
      Environment(crc, |wire.frames| - 1);
    }

    /**
     Listens until an ack with the frame's checksum arrives or the window closes, after so many
     polls. A poll that finds an ack reads it; other acks are ignored.
     */
    method AwaitLinkAck(frameCrc: nat, polls: nat) returns (acked: bool)
      requires Valid() && wire.frames != [] && wire.frames[|wire.frames| - 1] == frameCrc
      requires OnlyCarrier(wire, frameCrc, |wire.frames| - 1)
      modifies this`wire
      ensures wire.frames == old(wire.frames)
      ensures Later(old(wire), wire, frameCrc, |wire.frames| - 1)
      ensures wire.sent == old(wire.sent) && old(wire.heard) <= wire.heard
      ensures acked <==> AckRead(wire, |old(wire.heard)|, frameCrc)
      ensures polls > 0 ==> wire.acks == [] || |wire.heard| > |old(wire.heard)|
      ensures acked ==> |wire.frames| - 1 in wire.dispatched
    {
      hide OnlyCarrier, Balanced;
      ghost var k := |wire.frames| - 1;
      for n := 0 to polls
        invariant Later(old(wire), wire, frameCrc, k)
        invariant wire.sent == old(wire.sent) && old(wire.heard) <= wire.heard
        invariant !AckRead(wire, |old(wire.heard)|, frameCrc)
        invariant n > 0 ==> wire.acks == [] || |wire.heard| > |old(wire.heard)|
      {
        Environment(frameCrc, k);
        if wire.acks != [] {
          var ack := wire.acks[0];
          AckNamesFrame(wire, frameCrc, k);
          HearingAckStaysSound(wire, frameCrc, k);
          ghost var before := wire;
          wire := HearAck(wire);
          assert wire.heard[|wire.heard| - 1] == ack;
          if CrcOf(wire, ack) == frameCrc {
            return true;
          }
          assert forall i :: 0 <= i < |before.heard| ==> wire.heard[i] == before.heard[i];
        }
      }
      acked := false;
    }

    /**
     Sends a frame and waits for its ack, retransmitting at most twice. As many copies go out as
     are counted, no more than three and no more once an ack with the frame's checksum has been
     read; an accepted ack means that the peer has dispatched the frame, and nothing it was owed
     before is lost.
     */
    method SendOnEdge(frameCrc: nat) returns (acked: bool, transmissions: nat)
      requires Valid() && OnlyCarrier(wire, frameCrc, |wire.frames|)
      requires linkRetransmits < 0x1_0000 && linkAckTimeouts < 0x1_0000
      modifies this
      ensures Valid() && wire.frames == old(wire.frames) + [frameCrc]
      ensures old(wire.dispatched) <= wire.dispatched
      ensures wire.sent == old(wire.sent) + seq(transmissions, _ => |old(wire.frames)|)
      ensures old(wire.heard) <= wire.heard && (acked <==> AckRead(wire, |old(wire.heard)|, frameCrc))
      ensures acked ==> |old(wire.frames)| in wire.dispatched
      ensures 1 <= transmissions <= 3
      ensures !acked ==> transmissions == 3
      ensures linkRetransmits == (old(linkRetransmits) + transmissions - 1) % 0x1_0000
      ensures linkAckTimeouts == if acked then old(linkAckTimeouts) else (old(linkAckTimeouts) + 1) % 0x1_0000
    {
      hide Sound, OnlyCarrier, Balanced, AckRead;
      ghost var k, before := |wire.frames|, wire;
      NumberingStaysSound(wire, frameCrc);
      wire := wire.(frames := wire.frames + [frameCrc]);
      Transmit(frameCrc);
      transmissions := 1;
      NothingRead(wire, |before.heard|, frameCrc);
      var attempt := 0;
      while true
        invariant wire.frames == before.frames + [frameCrc]
        invariant Later(before.(frames := wire.frames), wire, frameCrc, k)
        invariant wire.sent == before.sent + seq(transmissions, _ => k)
        invariant before.heard <= wire.heard && !AckRead(wire, |before.heard|, frameCrc)
        invariant attempt <= LINK_RETRANSMITS && transmissions == attempt + 1
        invariant linkRetransmits == (old(linkRetransmits) + attempt) % 0x1_0000
        invariant linkAckTimeouts == old(linkAckTimeouts)
        decreases LINK_RETRANSMITS - attempt
      {
        ghost var mid := wire;
        var polls: nat :| true;
        acked := AwaitLinkAck(frameCrc, polls);
        ReadSince(mid, wire, |before.heard|, frameCrc);
        if acked {
          return;
        }
        if attempt >= LINK_RETRANSMITS {
          linkAckTimeouts := (linkAckTimeouts + 1) % 0x1_0000;
          return;
        }
        linkRetransmits := (linkRetransmits + 1) % 0x1_0000;
        ghost var unread := wire;
        Transmit(frameCrc);
        SameRead(unread, wire, |before.heard|, frameCrc);
        transmissions := transmissions + 1;
        attempt := attempt + 1;
      }
    }
  }

  lemma NothingRead(w: Wire, from: nat, crc: nat)
    requires from == |w.heard|
    ensures !AckRead(w, from, crc)
  {
  }

  lemma SameRead(w: Wire, v: Wire, from: nat, crc: nat)
    requires v.heard == w.heard && v.frames == w.frames
    ensures AckRead(v, from, crc) <==> AckRead(w, from, crc)
  {
  }

  lemma ReadSince(w: Wire, v: Wire, from: nat, crc: nat)
    requires w.heard <= v.heard && v.frames == w.frames && from <= |w.heard| && !AckRead(w, from, crc)
    ensures AckRead(v, from, crc) <==> AckRead(v, |w.heard|, crc)
  {
    assert forall i :: 0 <= i < |w.heard| ==> v.heard[i] == w.heard[i];
  }

  lemma NeverHeard(s: seq<nat>, k: nat)
    requires multiset(s)[k] == 0
    ensures forall i :: 0 <= i < |s| ==> s[i] != k
  {
    forall i | 0 <= i < |s| ensures s[i] != k {
      assert s[i] in s;
    }
  }

  /**
   When a send is over, nothing is under way and nothing has been lost since it began, then its ack
   has been read: a frame is given up only for a loss or because something is still under way.
   */
  lemma LossOrDelayOnly(before: Wire, after: Wire, crc: nat, transmissions: nat)
    requires Balanced(before) && Balanced(after) && after.frames == before.frames + [crc] && transmissions >= 1
    requires after.sent == before.sent + seq(transmissions, _ => |before.frames|)
    requires before.heard <= after.heard
    requires after.toPeer == [] && after.acks == [] && after.lost == before.lost && after.lostAcks == before.lostAcks
    ensures AckRead(after, |before.heard|, crc)
  {
    var k := |before.frames|;
    assert k !in before.sent;
    assert multiset(before.sent)[k] == 0 && multiset(before.received)[k] == 0;
    assert after.sent[|before.sent|] == k;
    assert k in multiset(after.sent) && k in multiset(after.received) && k in multiset(after.heard);
    var i :| 0 <= i < |after.heard| && after.heard[i] == k;
    assert forall j :: 0 <= j < |before.heard| ==> after.heard[j] == before.heard[j];
    NeverHeard(before.heard, k);
  }

  lemma AckNamesFrame(w: Wire, crc: nat, k: nat)
    requires Sound(w) && OnlyCarrier(w, crc, k) && w.acks != []
    ensures CrcOf(w, w.acks[0]) == crc ==> k in w.dispatched
  {
  }

  /** However acks and copies are lost, no frame is dispatched twice or out of order. */
  lemma DispatchedAtMostOnce(w: Wire, k: nat)
    requires Sound(w)
    ensures multiset(w.dispatched)[k] <= 1
  {
    AscendingHasNoRepeats(w.dispatched, k);
  }

  lemma {:induction false} AscendingHasNoRepeats(s: seq<nat>, k: nat)
    requires StrictlyAscending(s)
    ensures multiset(s)[k] <= 1
  {
    if s != [] {
      var rest := s[..|s| - 1];
      assert s == rest + [Last(s)];
      AscendingHasNoRepeats(rest, k);
      if k == Last(s) {
        assert k !in rest;
      }
    }
  }
}
