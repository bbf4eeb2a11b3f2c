/**
 The wake-interrupt gating protocol of a panel (lib/Lightnet/Panel/LightnetPanel.cpp and
 lib/Lightnet/Panel/EdgeUartTransport.cpp). Three pieces of state have to agree: the wakes
 latched by the interrupt handler, the pin-change mask of the hardware, and the software mirror
 of that mask. The handler can run between any two statements of the main loop, and between
 the load and the store of a read-modify-write of the mask; every such gap is a call of
 `Preempt`, which does whatever interrupts can do there.
 */
module WakeGate {
  import Bytes
  import LinkArq

  type Edge = e: nat | e < 3

  const ALL: set<Edge> := {0, 1, 2}
  const NO_EDGE := 0xFF
  const FRAME_TIMEOUT_MS := 20
  const MAX_CLAIM_MS := 100
  const MAX_BYTES_PER_POLL := 32

  /** Which edge the receiver is parked on, and since when (lib/Lightnet/Core/Relay/EdgeFrameReceiver.cpp). */
  class EdgeFrameReceiver {
    var activeEdge: nat
    var lastActivityMs: nat
    var claimStartMs: nat
    /** The edge of the last whole frame: fromEdge(). */
    var completedEdge: nat

    ghost predicate Valid()
      reads this
    {
      activeEdge < 3 || activeEdge == NO_EDGE
    }

    predicate Claimed()
      reads this
    {
      activeEdge != NO_EDGE
    }

    constructor ()
      ensures Valid() && !Claimed()
    {
      activeEdge, lastActivityMs, claimStartMs, completedEdge := NO_EDGE, 0, 0, NO_EDGE;
    }

    method OnEdgeWake(edge: Edge, now: nat) returns (granted: bool)
      requires Valid()
      modifies this`activeEdge, this`lastActivityMs, this`claimStartMs
      ensures Valid() && Claimed()
      ensures granted <==> !old(Claimed())
      ensures granted ==> activeEdge == edge && lastActivityMs == claimStartMs == now
      ensures !granted ==> unchanged(this)
    {
      if activeEdge != NO_EDGE {
        return false;
      }
      activeEdge, lastActivityMs, claimStartMs := edge, now, now;
      return true;
    }

    method PreemptClaim(edge: Edge, now: nat) returns (moved: bool)
      requires Valid()
      modifies this`activeEdge, this`lastActivityMs, this`claimStartMs
      ensures Valid() && activeEdge == edge
      ensures moved <==> old(activeEdge) != edge
      ensures moved ==> lastActivityMs == claimStartMs == now
      ensures !moved ==> unchanged(this)
    {
      if activeEdge == edge {
        return false;
      }
      activeEdge, lastActivityMs, claimStartMs := edge, now, now;
      return true;
    }

    /** `completes` says whether the framer found a whole valid frame with this byte. */
    method OnByte(now: nat, completes: bool) returns (frame: bool)
      requires Valid()
      modifies this
      ensures Valid() && claimStartMs == old(claimStartMs)
      ensures frame <==> old(Claimed()) && completes
      ensures activeEdge == if frame then NO_EDGE else old(activeEdge)
      ensures completedEdge == if frame then old(activeEdge) else old(completedEdge)
      ensures old(Claimed()) ==> lastActivityMs == now
    {
      if activeEdge == NO_EDGE {
        return false;
      }
      lastActivityMs := now;
      if !completes {
        return false;
      }
      completedEdge := activeEdge;
      activeEdge := NO_EDGE;
      return true;
    }

    method Tick(now: nat)
      requires Valid()
      modifies this`activeEdge
      ensures Valid()
      ensures activeEdge == if LinkArq.Since(now, old(lastActivityMs)) >= 20
                               || LinkArq.Since(now, old(claimStartMs)) >= 100
                            then NO_EDGE else old(activeEdge)
    {
      if activeEdge == NO_EDGE {
        return;
      }
      if LinkArq.Since(now, lastActivityMs) >= FRAME_TIMEOUT_MS {
        activeEdge := NO_EDGE;
        return;
      }
      if LinkArq.Since(now, claimStartMs) >= MAX_CLAIM_MS {
        activeEdge := NO_EDGE;
      }
    }
  }

  // ------------------------------------------------------------------ bytes, frames and what is done about them

  /** A frame: a hop ack, or a frame of a type with or without hop acks, by its checksum. */
  datatype Frame = Frame(linkAck: bool, ackedType: bool, crc: nat)

  /** What the framer makes of a byte: no frame ends with it, or this one. */
  datatype RxByte = Within | Ends(frame: Frame)

  /** A byte taken from the ring, and the edge that held the claim then. */
  datatype Read = Read(edge: Edge, value: RxByte)

  /** A packet sent: the hop ack of a frame, or anything else, of a type with hop acks or not. */
  datatype Packet = LinkAck(crc: nat) | Other(ackedType: bool)

  datatype Act = Sent(edge: Edge, packet: Packet) | Dispatched(edge: Edge, frame: Frame)

  /** What was done about incoming frames: all but what routing and handling sent on their own account. */
  function Kept(log: seq<Act>): seq<Act> {
    if log == [] then []
    else
      var before, a := Kept(log[..|log| - 1]), log[|log| - 1];
      if a.Sent? && a.packet.Other? then before else before + [a]
  }

  lemma KeptAppend(log: seq<Act>, a: Act)
    ensures Kept(log + [a]) == if a.Sent? && a.packet.Other? then Kept(log) else Kept(log) + [a]
  {
    assert (log + [a])[..|log|] == log;
  }

  /** A byte belongs to the edge that holds the claim, or else to the lowest that has woken us, if any has. */
  ghost predicate OnItsEdge(r: Read, activeEdge: nat, pending: set<Edge>) {
    if activeEdge != NO_EDGE then r.edge == activeEdge else forall e :: e in pending ==> r.edge <= e
  }

  /** What a byte calls for: an ack for every frame that is owed one, before anything else is done with it. */
  function Reaction(entries: seq<LinkArq.Entry>, r: Read, now: nat): seq<Act>
    requires |entries| == 3
  {
    if r.value.Within? || r.value.frame.linkAck then []
    else if !r.value.frame.ackedType then [Dispatched(r.edge, r.value.frame)]
    else
      var ack := Sent(r.edge, LinkAck(r.value.frame.crc));
      if LinkArq.IsDuplicate(entries[r.edge], r.value.frame.crc, now) then [ack]
      else [ack] + [Dispatched(r.edge, r.value.frame)]
  }

  /** The duplicate filter's memory behind a byte. */
  function Noted(entries: seq<LinkArq.Entry>, r: Read, now: nat): (e: seq<LinkArq.Entry>)
    requires |entries| == 3
    ensures |e| == 3
  {
    if r.value.Within? || r.value.frame.linkAck || !r.value.frame.ackedType then entries
    else entries[r.edge := LinkArq.Entry(true, r.value.frame.crc, now)]
  }

  function NotedAll(entries: seq<LinkArq.Entry>, taken: seq<Read>, now: nat): (e: seq<LinkArq.Entry>)
    requires |entries| == 3
    ensures |e| == 3
  {
    if taken == [] then entries
    else Noted(NotedAll(entries, taken[..|taken| - 1], now), taken[|taken| - 1], now)
  }

  function Reactions(entries: seq<LinkArq.Entry>, taken: seq<Read>, now: nat): seq<Act>
    requires |entries| == 3
  {
    if taken == [] then []
    else
      var before := taken[..|taken| - 1];
      Reactions(entries, before, now) + Reaction(NotedAll(entries, before, now), taken[|taken| - 1], now)
  }

  lemma OneMoreRead(entries: seq<LinkArq.Entry>, taken: seq<Read>, r: Read, now: nat)
    requires |entries| == 3
    ensures NotedAll(entries, taken + [r], now) == Noted(NotedAll(entries, taken, now), r, now)
    ensures Reactions(entries, taken + [r], now)
         == Reactions(entries, taken, now) + Reaction(NotedAll(entries, taken, now), r, now)
  {
    assert (taken + [r])[..|taken|] == taken;
  }

  lemma {:induction false} MoreReads(entries: seq<LinkArq.Entry>, taken: seq<Read>, more: seq<Read>, now: nat)
    requires |entries| == 3
    ensures NotedAll(entries, taken + more, now) == NotedAll(NotedAll(entries, taken, now), more, now)
    ensures Reactions(entries, taken + more, now)
         == Reactions(entries, taken, now) + Reactions(NotedAll(entries, taken, now), more, now)
    decreases |more|
  {
    hide Reaction, Noted;
    if more == [] {
      assert taken + more == taken;
    } else {
      var before, r := more[..|more| - 1], more[|more| - 1];
      assert taken + more == (taken + before) + [r] && more == before + [r];
      MoreReads(entries, taken, before, now);
      OneMoreRead(entries, taken + before, r, now);
      OneMoreRead(NotedAll(entries, taken, now), before, r, now);
    }
  }

  /** What the interrupt handler and the main loop share. */
  datatype Gate = Gate(
    pending: set<Edge>,  // pendingWakeMask
    mask: set<Edge>,     // PCMSK0 & WAKE_PCINT_BITS: the lines that may interrupt
    suppressed: bool,    // wakeInterruptsSuppressed: the mirror of an empty mask
    flag: bool,          // PCIF0: a change on an unmasked line, not served yet
    due: bool)           // ... seen at the end of the previous gap, so it cannot wait any longer

  /** One entry of the handler: `changed` lists the lines that differ from the last entry. */
  function Handler(g: Gate, transmitting: bool, changed: set<Edge>): Gate {
    if transmitting || changed == {} then g
    else g.(pending := g.pending + changed, mask := {}, suppressed := true)
  }

  /** What a gap can do, in any number of line changes and handler entries. */
  ghost predicate Preempted(g: Gate, h: Gate, transmitting: bool, enabled: bool) {
    && h.due == (h.flag && enabled)
    && (h.flag ==> g.mask != {} || (g.flag && !g.due) || !enabled)
    && (!enabled ==> h == g.(flag := h.flag, due := false) && (h.flag ==> g.flag || g.mask != {}))
    && (enabled ==>
      || h == g.(flag := h.flag, due := h.due)
      || (!transmitting && (g.flag || g.mask != {})
          && g.pending <= h.pending && h.pending != {} && h.mask == {} && h.suppressed))
  }

  /** Somewhere inside a gap that began in `g`. */
  ghost predicate Midway(g: Gate, h: Gate, transmitting: bool, enabled: bool) {
    && (h.flag ==> g.mask != {} || (g.flag && !g.due) || !enabled)
    && (h.flag ==> g.flag || g.mask != {})
    && (!enabled ==> h == g.(flag := h.flag, due := h.due))
    && (enabled ==>
      || h == g.(flag := h.flag, due := h.due)
      || (!transmitting && (g.flag || g.mask != {})
          && g.pending <= h.pending && h.pending != {} && h.mask == {} && h.suppressed))
  }

  class Panel {
    var gate: Gate
    var enabled: bool        // the global interrupt flag: cleared by cli, set by sei
    var transmitting: bool
    var rxEdge: Edge         // the line the receive multiplexer listens to
    const receiver: EdgeFrameReceiver
    const linkDedup: LinkArq.LinkDedup
    /** Frames sent and dispatched, in order. */
    ghost var log: seq<Act>

    ghost predicate Valid()
      reads this, receiver
    {
      && receiver.Valid() && linkDedup.entries.Length == 3
      && (gate.mask == {} || gate.mask == ALL)
      && gate.due == (gate.flag && enabled)
    }

    /** The hardware mask is what the mirror says. */
    predicate Mirrored()
      reads this
    {
      gate.mask == if gate.suppressed then {} else ALL
    }

    /** Wakes are off only while a claim, or a latched wake that will claim, turns them on again. */
    predicate Alive()
      reads this, receiver
    {
      gate.suppressed ==> receiver.Claimed() || gate.pending != {}
    }

    /** A claim that is held at this time began less than 100 ms ago. */
    predicate Young(now: nat)
      reads receiver
    {
      receiver.Claimed() ==> LinkArq.Since(now, receiver.claimStartMs) < 100
    }

    /** The claim is on the line the multiplexer listens to. */
    predicate Tuned()
      reads this, receiver
    {
      receiver.Claimed() ==> receiver.activeEdge == rxEdge
    }

    /** What holds whenever the main loop is neither in a send nor in a link window. */
    ghost predicate AtRest()
      reads this, receiver
    {
      Valid() && enabled && !transmitting && Mirrored() && Alive() && Muted()
    }

    /** While a claim is held the wakes are off. */
    predicate Muted()
      reads this, receiver
    {
      receiver.Claimed() ==> gate.suppressed
    }

    constructor ()
      ensures AtRest() && fresh(receiver) && !receiver.Claimed() && gate.mask == ALL
      ensures fresh(linkDedup) && fresh(linkDedup.entries) && log == []
      ensures forall e :: 0 <= e < 3 ==> !linkDedup.entries[e].armed
    {
      log := [];
      gate := Gate({}, ALL, false, false, false);
      enabled, transmitting, rxEdge := true, false, 0;
      receiver := new EdgeFrameReceiver();
      linkDedup := new LinkArq.LinkDedup(3);
    }

    // -------------------------------------------------------------- interrupts

    /** onEdgeWakeIsr, for every changed line: ISR(PCINT0_vect). Runs with interrupts off. */
    method PinChangeIsr(changed: set<Edge>)
      modifies this`gate
      ensures gate == Handler(old(gate), transmitting, changed)
    {
      var todo := changed;
      while todo != {}
        invariant todo <= changed
        invariant gate == Handler(old(gate), transmitting, changed - todo)
        decreases todo
      {
        var edge :| edge in todo;
        todo := todo - {edge};
        assert changed - todo != {};
        assert changed - todo == changed - (todo + {edge}) + {edge};
        if !transmitting {
          gate := gate.(pending := gate.pending + {edge});
          gate := gate.(mask := {});
          gate := gate.(suppressed := true);
        }
      }
      assert changed - todo == changed;
    }

    /** The handler runs once; meanwhile an unmasked line may change again. */
    method Serve() returns (changed: set<Edge>, again: bool)
      modifies this`gate
      ensures again ==> old(gate).mask != {}
      ensures gate == Handler(old(gate), transmitting, changed).(flag := again, due := false)
    {
      changed := *;
      again := *;
      again := again && gate.mask != {};
      gate := gate.(flag := false, due := false);
      PinChangeIsr(changed);
      gate := gate.(flag := again);
    }

    /** A line may change, and the handler may run if the hardware lets it. */
    method Round(ghost start: Gate)
      requires Midway(start, gate, transmitting, enabled)
      modifies this`gate
      ensures Midway(start, gate, transmitting, enabled)
    {
      var moves: bool, served: bool := *, *;
      if moves && gate.mask != {} {
        gate := gate.(flag := true);
      }
      if served && gate.flag && enabled {
        var changed, again := Serve();
      }
    }

    /**
     A gap: lines change at will, and the handler runs when the hardware lets it. A flag that was
     already up when the previous gap ended is served now: the processor runs a single
     instruction before a pending interrupt.
     */
    method Preempt()
      requires receiver.Valid() && linkDedup.entries.Length == 3 && (gate.mask == {} || gate.mask == ALL)
      requires gate.due ==> gate.flag && enabled
      modifies this`gate
      ensures Valid()
      ensures Preempted(old(gate), gate, transmitting, enabled)
    {
      if gate.due && enabled {
        var changed, again := Serve();
      }
      var rounds: nat :| true;
      for i := 0 to rounds
        invariant Midway(old(gate), gate, transmitting, enabled)
      {
        Round(old(gate));
      }
      gate := gate.(due := gate.flag && enabled);
    }

    method Cli()
      requires Valid() && enabled
      modifies this`gate, this`enabled
      ensures Valid() && !enabled
      ensures gate == old(gate).(flag := gate.flag, due := false)
      ensures gate.flag ==> old(gate).flag || old(gate).mask != {}
    {
      enabled := false;
      gate := gate.(due := false);
      Preempt();
    }

    method Sei()
      requires Valid() && !enabled
      modifies this`gate, this`enabled
      ensures Valid() && enabled
      ensures Preempted(old(gate), gate, transmitting, true)
    {
      enabled := true;
      Preempt();
    }

    // -------------------------------------------------------------- the mask

    /** `PCMSK0 |= bits`: load, then store. */
    method Unmask(bits: set<Edge>)
      requires Valid() && (bits == {} || bits == ALL)
      requires enabled && gate.mask == {} && !gate.flag
      modifies this`gate
      ensures Valid()
      ensures Preempted(old(gate).(mask := bits), gate, transmitting, true)
    {
      var loaded := gate.mask;
      Preempt();
      gate := gate.(mask := loaded + bits);
      Preempt();
    }

    /** `PCMSK0 &= ~bits` for all wake lines: load, then store. */
    method Mask()
      requires Valid() && enabled
      modifies this`gate
      ensures Valid()
      ensures gate.mask == {} && !gate.flag
      ensures old(gate).pending <= gate.pending
      ensures gate.suppressed == old(gate).suppressed
              || (gate.suppressed && gate.pending != {} && !transmitting)
      ensures gate.suppressed == old(gate).suppressed ==>
        gate.pending == old(gate).pending || (gate.pending != {} && !transmitting)
      ensures transmitting ==> gate.pending == old(gate).pending
    {
      var loaded := gate.mask;
      Preempt();
      gate := gate.(mask := loaded - ALL);
      Preempt();
    }

    method SetWakeInterruptsEnabled(on: bool)
      requires Valid() && enabled && !transmitting
      requires on ==> gate.mask == {} && !gate.flag
      modifies this`gate
      ensures Valid()
      ensures on ==> Preempted(old(gate).(mask := ALL), gate, false, true)
      ensures !on ==> gate.mask == {} && !gate.flag && old(gate).pending <= gate.pending
      ensures !on ==> gate.suppressed == old(gate).suppressed || gate.suppressed
    {
      if on {
        Unmask(ALL);
      } else {
        Mask();
      }
    }

    /** Makes the mask and its mirror follow the claim. */
    method SyncWakeInterruptSuppression()
      requires Valid() && enabled && !transmitting && Mirrored()
      modifies this`gate
      ensures AtRest()
      ensures receiver.Claimed() ==> gate.suppressed
      ensures receiver.Claimed() && old(gate.mask) == {} && !old(gate.flag) ==> gate.pending == old(gate.pending)
    {
      var shouldSuppress := receiver.activeEdge != NO_EDGE;
      Preempt();
      var same := shouldSuppress == gate.suppressed;
      Preempt();
      if same {
        return;
      }
      gate := gate.(suppressed := shouldSuppress);
      Preempt();
      SetWakeInterruptsEnabled(!shouldSuppress);
    }

    method ClearPendingWakes()
      requires Valid() && enabled && gate.mask == {} && !gate.flag
      modifies this`gate, this`enabled
      ensures Valid() && enabled
      ensures gate == old(gate).(pending := {}, due := false)
    {
      Cli();
      gate := gate.(pending := {});
      Preempt();
      Sei();
    }

    // -------------------------------------------------------------- wakes and bytes

    /**
     Turns latched wakes into a claim. A wake that was latched on entry is never lost, and wakes
     that were off on entry are not off for nothing: either way a claim is held on return, and
     ReleaseStalledClaim bounds how long.
     */
    method PollWake(now: nat)
      requires AtRest()
      modifies this`gate, this`enabled, this`rxEdge, receiver
      ensures AtRest()
      ensures old(gate.suppressed) || old(gate).pending != {} ==> receiver.Claimed()
      ensures old(receiver.Claimed()) ==> receiver.activeEdge == old(receiver.activeEdge)
      ensures old(receiver.Claimed()) ==> receiver.claimStartMs == old(receiver.claimStartMs)
      ensures old(Young(now)) ==> Young(now)
      ensures old(Tuned()) ==> Tuned()
      ensures old(receiver.Claimed()) ==> rxEdge == old(rxEdge)
      ensures !old(receiver.Claimed()) ==> forall e :: e in old(gate).pending ==> receiver.activeEdge <= e
    {
      var nothing := gate.pending == {};
      Preempt();
      if nothing {
        return;
      }
      Cli();
      var mask := gate.pending;
      Preempt();
      gate := gate.(pending := {});
      Preempt();
      Sei();
      GrantClaim(mask, now);
      SyncWakeInterruptSuppression();
    }

    /** The lowest latched edge gets the claim, unless one is held already. */
    method GrantClaim(mask: set<Edge>, now: nat)
      requires Valid() && enabled && !transmitting && Mirrored()
      requires mask <= ALL && mask != {}
      modifies this`gate, this`rxEdge, receiver
      ensures Valid() && Mirrored() && receiver.Claimed()
      ensures old(receiver.Claimed()) ==> receiver.activeEdge == old(receiver.activeEdge)
      ensures old(receiver.Claimed()) ==> receiver.claimStartMs == old(receiver.claimStartMs)
      ensures old(receiver.Claimed()) ==> rxEdge == old(rxEdge)
      ensures !old(receiver.Claimed()) ==> receiver.activeEdge in mask && rxEdge == receiver.activeEdge
      ensures !old(receiver.Claimed()) ==> forall e :: e in mask ==> receiver.activeEdge <= e
      ensures !old(receiver.Claimed()) ==> receiver.claimStartMs == now
    {
      var edge := 0;
      while edge < 3
        invariant Valid() && Mirrored()
        invariant receiver.activeEdge == old(receiver.activeEdge)
        invariant receiver.claimStartMs == old(receiver.claimStartMs)
        invariant rxEdge == old(rxEdge)
        invariant !receiver.Claimed() ==> forall e :: e in mask ==> edge <= e
      {
        if edge in mask {
          var granted := receiver.OnEdgeWake(edge, now);
          Preempt();
          if granted {
            rxEdge := edge;
            return;
          }
        }
        edge := edge + 1;
      }
    }

    // -------------------------------------------------------------- sending

    /**
     EdgeUartTransport::sendOnEdge. The mask is saved and restored, the handler is deaf in
     between, so a send leaves the protocol where it found it; only wakes that came before it
     took effect are new.
     */
    method SendOnEdge(edge: Edge, packet: Packet)
      requires AtRest()
      modifies this`gate, this`transmitting, this`log
      ensures AtRest() && log == old(log) + [Sent(edge, packet)]
      ensures old(gate).pending <= gate.pending
    {
      transmitting := true;
      Preempt();
      var saved := gate.mask;
      Preempt();
      Mask();
      var bytesSent: nat :| true;
      for i := 0 to bytesSent
        invariant Valid() && enabled && transmitting
        invariant gate.mask == {} && !gate.flag
        invariant saved == (if gate.suppressed then {} else ALL) && Alive()
        invariant old(gate).pending <= gate.pending && log == old(log)
      {
        Preempt();
      }
      log := log + [Sent(edge, packet)];
      transmitting := false;
      Preempt();
      Unmask(saved);
    }

    method OnLinkWindowBegin()
      requires AtRest()
      modifies this`gate, this`enabled
      ensures Valid() && enabled && Mirrored()
      ensures gate.suppressed && gate.pending == {} && !gate.flag
    {
      SetWakeInterruptsEnabled(false);
      gate := gate.(suppressed := true);
      Preempt();
      ClearPendingWakes();
    }

    method OnLinkWindowEnd()
      requires Valid() && enabled && !transmitting && Mirrored()
      requires gate.suppressed && !gate.flag
      modifies this`gate, this`enabled
      ensures AtRest()
      ensures receiver.Claimed() ==> gate.suppressed && gate.pending == {}
    {
      ClearPendingWakes();
      SyncWakeInterruptSuppression();
    }

    /** ArqEdgeLink::awaitLinkAck: the window in which the wakes are off without a claim. */
    method AwaitLinkAck(edge: Edge) returns (acked: bool)
      requires AtRest()
      modifies this`gate, this`enabled, this`rxEdge
      ensures AtRest() && rxEdge == edge
    {
      OnLinkWindowBegin();
      rxEdge := edge;
      var polls: nat :| true;
      for i := 0 to polls
        invariant Valid() && enabled && Mirrored()
        invariant gate.suppressed && gate.pending == {} && !gate.flag && rxEdge == edge
      {
        Preempt();
      }
      OnLinkWindowEnd();
      acked := *;
    }

    /** ArqEdgeLink::sendOnEdge: one copy, and as many more as acks stay away, up to three in all. */
    method LinkSend(edge: Edge, packet: Packet) returns (copies: nat, acked: bool)
      requires AtRest()
      modifies this`gate, this`enabled, this`transmitting, this`rxEdge, this`log
      ensures AtRest()
      ensures log == old(log) + seq(copies, _ => Sent(edge, packet))
      ensures packet == Other(true) ==> rxEdge == edge && 1 <= copies && (acked || copies == 3)
      ensures packet == Other(true) ==> copies <= 3
      ensures packet != Other(true) ==> copies == 1 && !acked && rxEdge == old(rxEdge)
    {
      SendOnEdge(edge, packet);
      copies, acked := 1, false;
      if packet != Other(true) {
        return;
      }
      var attempt := 0;
      while true
        invariant AtRest() && attempt <= LinkArq.LINK_RETRANSMITS && copies == attempt + 1
        invariant log == old(log) + seq(copies, _ => Sent(edge, packet))
        decreases LinkArq.LINK_RETRANSMITS - attempt
      {
        acked := AwaitLinkAck(edge);
        if acked || attempt >= LinkArq.LINK_RETRANSMITS {
          return;
        }
        SendOnEdge(edge, packet);
        attempt, copies := attempt + 1, copies + 1;
      }
    }

    lemma {:induction false} CopiesAreNotKept(before: seq<Act>, edge: Edge, ackedType: bool, copies: nat)
      ensures Kept(before + seq(copies, _ => Sent(edge, Other(ackedType)))) == Kept(before)
    {
      var all := before + seq(copies, _ => Sent(edge, Other(ackedType)));
      if copies == 0 {
        assert all == before;
      } else {
        CopiesAreNotKept(before, edge, ackedType, copies - 1);
        var most := before + seq(copies - 1, _ => Sent(edge, Other(ackedType)));
        assert all == most + [Sent(edge, Other(ackedType))];
        KeptAppend(most, Sent(edge, Other(ackedType)));
      }
    }

    /** Routing, the discovery driver and local handling: any number of sends of either kind. */
    method Dispatch()
      requires AtRest()
      modifies this`gate, this`enabled, this`transmitting, this`rxEdge, this`log
      ensures AtRest() && Kept(log) == old(Kept(log))
    {
      var sends: nat :| true;
      for i := 0 to sends
        invariant AtRest() && Kept(log) == old(Kept(log))
      {
        var edge: Edge := *;
        var ackedType: bool := *;
        ghost var before := log;
        var copies, acked := LinkSend(edge, Other(ackedType));
        CopiesAreNotKept(before, edge, ackedType, copies);
      }
    }

    // -------------------------------------------------------------- the main loop

    /**
     Drains up to MAX_BYTES_PER_POLL of the bytes that are there when they are asked for. Each is
     read under a claim, on the line listened to, and called for exactly the acks and dispatches
     of the frame it ends.
     */
    method PollBytes(now: nat, incoming: seq<RxByte>) returns (ghost taken: seq<Read>)
      requires AtRest()
      modifies this, receiver, linkDedup.entries
      ensures AtRest()
      ensures old(Young(now)) ==> Young(now)
      ensures old(Tuned()) ==> Tuned()
      ensures TakenFrom(taken, incoming)
      ensures taken != [] ==> OnItsEdge(taken[0], old(receiver.activeEdge), old(gate.pending))
      ensures linkDedup.entries[..] == NotedAll(old(linkDedup.entries[..]), taken, now)
      ensures Kept(log) == old(Kept(log)) + Reactions(old(linkDedup.entries[..]), taken, now)
    {
      var processed := 0;
      taken := [];
      hide Reaction, Noted, Kept, OnItsEdge;
      while processed < |incoming| && processed < MAX_BYTES_PER_POLL
        invariant AtRest()
        invariant old(Young(now)) ==> Young(now)
        invariant old(Tuned()) ==> Tuned()
        invariant processed == |taken| <= |incoming| && processed <= MAX_BYTES_PER_POLL
        invariant forall i :: 0 <= i < |taken| ==> taken[i].value == incoming[i]
        invariant taken == [] ==> receiver.activeEdge == old(receiver.activeEdge) && gate.pending == old(gate.pending)
        invariant taken != [] ==> OnItsEdge(taken[0], old(receiver.activeEdge), old(gate.pending))
        invariant linkDedup.entries[..] == NotedAll(old(linkDedup.entries[..]), taken, now)
        invariant Kept(log) == old(Kept(log)) + Reactions(old(linkDedup.entries[..]), taken, now)
      {
        ghost var read := ReadOne(now, incoming[processed]);
        OneMoreRead(old(linkDedup.entries[..]), taken, read, now);
        taken := taken + [read];
        processed := processed + 1;
      }
    }

    /** One byte of the loop. */
    method ReadOne(now: nat, value: RxByte) returns (ghost read: Read)
      requires AtRest()
      modifies this, receiver, linkDedup.entries
      ensures AtRest()
      ensures old(Young(now)) ==> Young(now)
      ensures old(Tuned()) ==> Tuned()
      ensures read.value == value && OnItsEdge(read, old(receiver.activeEdge), old(gate.pending))
      ensures linkDedup.entries[..] == Noted(old(linkDedup.entries[..]), read, now)
      ensures Kept(log) == old(Kept(log)) + Reaction(old(linkDedup.entries[..]), read, now)
    {
      PollWake(now);
      if receiver.activeEdge == NO_EDGE {
        var granted := receiver.OnEdgeWake(rxEdge, now);
        Preempt();
        SyncWakeInterruptSuppression();
      }
      read := Read(receiver.activeEdge, value);
      var frame := receiver.OnByte(now, value.Ends?);
      Preempt();
      if frame {
        SyncWakeInterruptSuppression();
        HandleFrame(receiver.completedEdge, value.frame, now);
      }
    }

    /** Ack before dispatch; drop hop acks and duplicates. */
    method HandleFrame(fromEdge: Edge, frame: Frame, now: nat)
      requires AtRest()
      modifies this`gate, this`enabled, this`transmitting, this`rxEdge, this`log, linkDedup.entries
      ensures AtRest()
      ensures linkDedup.entries[..] == Noted(old(linkDedup.entries[..]), Read(fromEdge, Ends(frame)), now)
      ensures Kept(log) == old(Kept(log)) + Reaction(old(linkDedup.entries[..]), Read(fromEdge, Ends(frame)), now)
    {
      if frame.linkAck {
        return;
      }
      ghost var before := log;
      if frame.ackedType {
        var copies, acked := LinkSend(fromEdge, LinkAck(frame.crc));
        assert log == before + [Sent(fromEdge, LinkAck(frame.crc))];
        KeptAppend(before, Sent(fromEdge, LinkAck(frame.crc)));
        ghost var entries := linkDedup.entries[..];
        var duplicate := linkDedup.CheckAndNote(fromEdge, frame.crc, now);
        assert linkDedup.entries[..] == entries[fromEdge := LinkArq.Entry(true, frame.crc, now)];
        if duplicate {
          return;
        }
      }
      KeptAppend(log, Dispatched(fromEdge, frame));
      log := log + [Dispatched(fromEdge, frame)];
      Dispatch();
    }

    /** While a neighbour is probed, its line gets the claim, whoever held it. */
    method PollProbeClaim(now: nat, probing: bool, edge: Edge)
      requires AtRest()
      modifies this`gate, this`rxEdge, receiver
      ensures AtRest()
      ensures old(Young(now)) ==> Young(now)
      ensures old(Tuned()) ==> Tuned()
      ensures receiver.activeEdge == if probing then edge else old(receiver.activeEdge)
      ensures rxEdge == if probing && old(receiver.activeEdge) != edge then edge else old(rxEdge)
    {
      if !probing {
        return;
      }
      var moved := receiver.PreemptClaim(edge, now);
      Preempt();
      if moved {
        rxEdge := edge;
        SyncWakeInterruptSuppression();
      }
    }

    /** receiver.tick and the reconcile behind it: a claim never outlives 100 ms. */
    method ReleaseStalledClaim(now: nat)
      requires AtRest()
      modifies this`gate, receiver
      ensures AtRest()
      ensures LinkArq.Since(now, old(receiver.claimStartMs)) >= 100 ==> !receiver.Claimed()
      ensures Young(now)
      ensures !receiver.Claimed() && gate.pending == {} ==> gate.mask == ALL
    {
      receiver.Tick(now);
      Preempt();
      SyncWakeInterruptSuppression();
    }

    /**
     One iteration of the main loop, with the bytes that are there at its two polls. If wakes were
     off or latched on entry, they have become a claim when the first poll returns; and no claim is
     older than 100 ms in the end. So wakes are never off for longer than that without being
     on, or claimed anew, in between.
     */
    method Tick(now: nat, first: seq<RxByte>, later: seq<RxByte>, probing: bool, edge: Edge)
      returns (ghost claimed: bool, ghost taken: seq<Read>, ghost more: seq<Read>)
      requires AtRest()
      modifies this, receiver, linkDedup.entries
      ensures AtRest() && Young(now)
      ensures old(gate.suppressed) || old(gate).pending != {} ==> claimed
      ensures TakenFrom(taken, first) && TakenFrom(more, later)
      ensures probing && more != [] ==> more[0].edge == edge
      ensures linkDedup.entries[..] == NotedAll(old(linkDedup.entries[..]), taken + more, now)
      ensures Kept(log) == old(Kept(log)) + Reactions(old(linkDedup.entries[..]), taken + more, now)
    {
      hide NotedAll, Reactions, Kept, Reaction, Noted, TakenFrom;
      PollWake(now);
      claimed := receiver.Claimed();
      taken := PollBytes(now, first);
      Housekeeping(now, probing, edge);
      if later != [] {
        PollWake(now);
        more := PollBytes(now, later);
      } else {
        more := [];
        NothingTaken(linkDedup.entries[..], now);
      }
      MoreReads(old(linkDedup.entries[..]), taken, more, now);
      Bytes.Assoc(old(Kept(log)), Reactions(old(linkDedup.entries[..]), taken, now),
                  Reactions(NotedAll(old(linkDedup.entries[..]), taken, now), more, now));
    }

    /** What the loop does between its two polls. */
    method Housekeeping(now: nat, probing: bool, edge: Edge)
      requires AtRest()
      modifies this, receiver
      ensures AtRest() && Young(now) && Kept(log) == old(Kept(log))
      ensures probing ==> receiver.activeEdge == edge
    {
      hide Kept;
      Dispatch();
      ReleaseStalledClaim(now);
      PollProbeClaim(now, probing, edge);
      Preempt();
    }

    /** Any number of iterations, at any clock readings, with any bytes, under any interrupts. */
    method MainLoop(rounds: seq<Round>)
      requires AtRest()
      modifies this, receiver, linkDedup.entries
      ensures AtRest()
      ensures rounds != [] ==> Young(rounds[|rounds| - 1].now)
    {
      for i := 0 to |rounds|
        invariant AtRest()
        invariant i > 0 ==> Young(rounds[i - 1].now)
      {
        ghost var claimed, taken, more :=
          Tick(rounds[i].now, rounds[i].first, rounds[i].later, rounds[i].probing, rounds[i].edge);
      }
    }
  }

  datatype Round = Round(now: nat, first: seq<RxByte>, later: seq<RxByte>, probing: bool, edge: Edge)

  /** One poll takes the bytes that are there, up to its bound. */
  predicate TakenFrom(taken: seq<Read>, incoming: seq<RxByte>) {
    && |taken| == (if |incoming| < 32 then |incoming| else 32)
    && forall i :: 0 <= i < |taken| ==> taken[i].value == incoming[i]
  }

  lemma NothingTaken(entries: seq<LinkArq.Entry>, now: nat)
    requires |entries| == 3
    ensures TakenFrom([], []) && NotedAll(entries, [], now) == entries && Reactions(entries, [], now) == []
  {
  }
}
