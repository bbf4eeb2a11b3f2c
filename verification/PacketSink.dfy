/**
 The controller's end of the trunk (lib/Lightnet/Controller/Relay/ControllerRelayPacketSink.cpp):
 one loop that retransmits an unacked frame, acks what the neighbour relays up, and returns the
 reply it was asked to wait for.
 */
module PacketSinks {
  import opened Bytes
  import opened LinkArq

  const PACKET_ACK: nat := 1

  /** A frame that arrives: a hop ack, or any other packet with its kind and whether it is hop-acked. */
  datatype Inbound =
    | HopAck(frameCrc: nat)
    | Packet(kind: nat, linkAcked: bool, crc: nat, bytes: seq<byte>)

  /** What is waited for: the hop ack of the frame just sent, or a packet of some kind. */
  datatype Expected = ForHopAck | ForKind(kind: nat)

  /** One turn of the outer loop: whether an ack is overdue by then, and what has arrived. */
  datatype Turn = Turn(overdue: bool, inbound: seq<Inbound>)

  /** What happens on the trunk. */
  datatype Event = SentFrame | SentAck(crc: nat) | Heard(inbound: Inbound)

  /** The frame in flight and how often it may still be repeated; none for types without hop acks. */
  datatype Tx = NoArq | Tx(frameCrc: nat, attemptsLeft: nat, acked: bool)

  function AllInbound(turns: seq<Turn>): seq<Inbound> {
    if turns == [] then [] else turns[0].inbound + AllInbound(turns[1..])
  }

  /** This is what the wait was for. */
  predicate Answers(x: Inbound, expected: Expected, arq: Tx) {
    match expected
    case ForHopAck => x.HopAck? && arq.Tx? && !arq.acked && x.frameCrc == arq.frameCrc
    case ForKind(kind) => IsKind(x, kind)
  }

  predicate IsKind(x: Inbound, kind: nat) {
    x.Packet? && x.kind == kind
  }

  predicate AcksFrame(x: Inbound, arq: Tx) {
    x.HopAck? && arq.Tx? && x.frameCrc == arq.frameCrc
  }

  function HeardIn(log: seq<Event>): seq<Inbound> {
    if log == [] then []
    else
      var before, e := HeardIn(log[..|log| - 1]), log[|log| - 1];
      if e.Heard? then before + [e.inbound] else before
  }

  /** The acks sent, and the acks owed: one for every hop-acked packet heard, in order. */
  function AcksSent(log: seq<Event>): seq<nat> {
    if log == [] then []
    else
      var before, e := AcksSent(log[..|log| - 1]), log[|log| - 1];
      if e.SentAck? then before + [e.crc] else before
  }

  function AcksOwed(heard: seq<Inbound>): seq<nat> {
    if heard == [] then []
    else
      var before, x := AcksOwed(heard[..|heard| - 1]), heard[|heard| - 1];
      if OwesAck(x) then before + [x.crc] else before
  }

  predicate OwesAck(x: Inbound) {
    x.Packet? && x.linkAcked
  }

  function FramesSent(log: seq<Event>): nat {
    if log == [] then 0
    else FramesSent(log[..|log| - 1]) + if log[|log| - 1].SentFrame? then 1 else 0
  }

  predicate AckHeard(log: seq<Event>, arq: Tx) {
    log != [] && (AckHeard(log[..|log| - 1], arq) ||
                  (log[|log| - 1].Heard? && AcksFrame(log[|log| - 1].inbound, arq)))
  }

  /** The frame is never sent again once its ack has been heard. */
  predicate QuietOnceAcked(log: seq<Event>, arq: Tx) {
    log == [] || (QuietOnceAcked(log[..|log| - 1], arq) &&
                  (log[|log| - 1].SentFrame? ==> !AckHeard(log[..|log| - 1], arq)))
  }

  lemma LogAppend(log: seq<Event>, e: Event, arq: Tx)
    ensures HeardIn(log + [e]) == if e.Heard? then HeardIn(log) + [e.inbound] else HeardIn(log)
    ensures AcksSent(log + [e]) == if e.SentAck? then AcksSent(log) + [e.crc] else AcksSent(log)
    ensures FramesSent(log + [e]) == FramesSent(log) + if e.SentFrame? then 1 else 0
    ensures AckHeard(log + [e], arq) <==> AckHeard(log, arq) || (e.Heard? && AcksFrame(e.inbound, arq))
    ensures QuietOnceAcked(log + [e], arq) <==> QuietOnceAcked(log, arq) && (e.SentFrame? ==> !AckHeard(log, arq))
  {
    assert (log + [e])[..|log|] == log;
  }

  lemma OwedAppend(heard: seq<Inbound>, x: Inbound)
    ensures AcksOwed(heard + [x]) == if OwesAck(x) then AcksOwed(heard) + [x.crc] else AcksOwed(heard)
  {
    assert (heard + [x])[..|heard|] == heard;
  }

  /** Every packet owed an ack has one. */
  predicate AcksPaid(log: seq<Event>) {
    AcksSent(log) == AcksOwed(HeardIn(log))
  }

  /**
   How the frame stands, given how it stood at the start and what happened since: repeats use up
   the attempts, and none follows the ack.
   */
  predicate Accounted(log: seq<Event>, start: Tx, arq: Tx) {
    && QuietOnceAcked(log, start)
    && match start
       case NoArq => arq == NoArq && FramesSent(log) == 0
       case Tx(frameCrc, attempts, acked) =>
         && arq.Tx? && arq == Tx(frameCrc, arq.attemptsLeft, acked || AckHeard(log, start))
         && FramesSent(log) + arq.attemptsLeft == attempts
         && (acked ==> FramesSent(log) == 0)
  }

  lemma RepeatIsAccounted(log: seq<Event>, start: Tx, arq: Tx)
    requires AcksPaid(log) && Accounted(log, start, arq)
    requires arq.Tx? && !arq.acked && arq.attemptsLeft > 0
    ensures AcksPaid(log + [SentFrame]) && HeardIn(log + [SentFrame]) == HeardIn(log)
    ensures Accounted(log + [SentFrame], start, arq.(attemptsLeft := arq.attemptsLeft - 1))
  {
    LogAppend(log, SentFrame, start);
  }

  function AfterHearing(arq: Tx, x: Inbound): Tx {
    if AcksFrame(x, arq) then arq.(acked := true) else arq
  }

  lemma HopAckIsAccounted(log: seq<Event>, start: Tx, arq: Tx, x: Inbound)
    requires AcksPaid(log) && Accounted(log, start, arq) && !OwesAck(x)
    ensures AcksPaid(log + [Heard(x)]) && HeardIn(log + [Heard(x)]) == HeardIn(log) + [x]
    ensures Accounted(log + [Heard(x)], start, AfterHearing(arq, x))
  {
    LogAppend(log, Heard(x), start);
    OwedAppend(HeardIn(log), x);
  }

  lemma PacketIsAccounted(log: seq<Event>, start: Tx, arq: Tx, x: Inbound)
    requires AcksPaid(log) && Accounted(log, start, arq) && OwesAck(x)
    ensures var next := log + [Heard(x)] + [SentAck(x.crc)];
            AcksPaid(next) && HeardIn(next) == HeardIn(log) + [x] && Accounted(next, start, arq)
  {
    LogAppend(log, Heard(x), start);
    LogAppend(log + [Heard(x)], SentAck(x.crc), start);
    OwedAppend(HeardIn(log), x);
  }

  predicate NoneAnswers(heard: seq<Inbound>, expected: Expected, arq: Tx) {
    forall i :: 0 <= i < |heard| ==> !Answers(heard[i], expected, arq)
  }

  /** While a wait for the hop ack has no answer, the ack has not been heard. */
  lemma {:induction false} UnansweredIsUnacked(log: seq<Event>, start: Tx)
    requires start.Tx? && !start.acked && NoneAnswers(HeardIn(log), ForHopAck, start)
    ensures !AckHeard(log, start)
    decreases |log|
  {
    if log != [] {
      var before, e := log[..|log| - 1], log[|log| - 1];
      var heard := HeardIn(log);
      assert e.Heard? ==> heard[|heard| - 1] == e.inbound;
      assert forall i :: 0 <= i < |HeardIn(before)| ==> HeardIn(before)[i] == heard[i];
      UnansweredIsUnacked(before, start);
    }
  }

  function FirstBytes(bytes: seq<byte>, n: nat): seq<byte> {
    if n < |bytes| then bytes[..n] else bytes
  }

  /** The last frame heard is the first answer, and `reply` is as much of it as was asked for. */
  predicate EndsWithAnswer(heard: seq<Inbound>, expected: Expected, outSize: nat, start: Tx, reply: seq<byte>) {
    && heard != [] && Answers(heard[|heard| - 1], expected, start)
    && NoneAnswers(heard[..|heard| - 1], expected, start)
    && reply == if expected.ForKind? then FirstBytes(heard[|heard| - 1].bytes, outSize) else []
  }

  lemma NextTurn(turns: seq<Turn>, t: nat, done: seq<Inbound>)
    requires t < |turns| && AllInbound(turns) == done + AllInbound(turns[t..])
    ensures AllInbound(turns) == (done + turns[t].inbound) + AllInbound(turns[t + 1..])
  {
    assert turns[t..][1..] == turns[t + 1..];
    Assoc(done, turns[t].inbound, AllInbound(turns[t + 1..]));
  }

  // ------------------------------------------------------------------ how often a frame is repeated

  predicate EndsRepeats(x: Inbound, expected: Expected, start: Tx) {
    Answers(x, expected, start) || AcksFrame(x, start)
  }

  /** Something that has arrived ends the wait or acks the frame. */
  predicate SomeEnds(inbound: seq<Inbound>, expected: Expected, start: Tx) {
    exists i :: 0 <= i < |inbound| && EndsRepeats(inbound[i], expected, start)
  }

  /** The turns that begin before the hop ack is heard or the wait ends. */
  function Begun(turns: seq<Turn>, expected: Expected, start: Tx): (n: nat)
    ensures n <= |turns|
  {
    if turns == [] then 0
    else if SomeEnds(turns[0].inbound, expected, start) then 1
    else 1 + Begun(turns[1..], expected, start)
  }

  function OverdueIn(turns: seq<Turn>): (n: nat)
    ensures n <= |turns|
  {
    if turns == [] then 0
    else OverdueIn(turns[..|turns| - 1]) + if turns[|turns| - 1].overdue then 1 else 0
  }

  /** How often the frame is repeated, by what happens in the turns alone. */
  function Repeats(turns: seq<Turn>, expected: Expected, start: Tx): nat {
    if start.NoArq? || start.acked then 0
    else
      var n := OverdueIn(turns[..Begun(turns, expected, start)]);
      if n < start.attemptsLeft then n else start.attemptsLeft
  }

  /** With nothing inbound a frame is repeated for every overdue turn, as long as there are attempts. */
  lemma {:induction false} SilenceIsAllBegun(turns: seq<Turn>, expected: Expected, start: Tx)
    requires forall i :: 0 <= i < |turns| ==> turns[i].inbound == []
    ensures Begun(turns, expected, start) == |turns|
  {
    if turns != [] {
      assert turns[0].inbound == [];
      SilenceIsAllBegun(turns[1..], expected, start);
    }
  }

  lemma {:induction false} AllOverdue(turns: seq<Turn>)
    requires forall i :: 0 <= i < |turns| ==> turns[i].overdue
    ensures OverdueIn(turns) == |turns|
  {
    if turns != [] {
      AllOverdue(turns[..|turns| - 1]);
    }
  }

  /** On a dead trunk every overdue turn costs an attempt. */
  lemma RepeatsOnDeadTrunk(turns: seq<Turn>, expected: Expected, frameCrc: nat, attempts: nat)
    requires forall i :: 0 <= i < |turns| ==> turns[i] == Turn(true, [])
    ensures Repeats(turns, expected, Tx(frameCrc, attempts, false)) == if |turns| < attempts then |turns| else attempts
  {
    SilenceIsAllBegun(turns, expected, Tx(frameCrc, attempts, false));
    AllOverdue(turns);
    assert turns[..|turns|] == turns;
  }

  /** Before turn `t`: how often the frame has been repeated, and what its state says about the turns so far. */
  predicate Counted(turns: seq<Turn>, expected: Expected, start: Tx, t: nat, log: seq<Event>, arq: Tx) {
    && t <= |turns|
    && (start.Tx? && !start.acked ==>
         && arq.Tx?
         && if arq.acked then FramesSent(log) == Repeats(turns, expected, start)
            else
              var n := OverdueIn(turns[..t]);
              && Begun(turns, expected, start) == t + Begun(turns[t..], expected, start)
              && FramesSent(log) == (if n < start.attemptsLeft then n else start.attemptsLeft)
              && arq == start.(attemptsLeft := start.attemptsLeft - FramesSent(log)))
    && (start.Tx? && start.acked ==> arq.Tx? && arq.acked && FramesSent(log) == 0)
    && (start.NoArq? ==> arq.NoArq? && FramesSent(log) == 0)
  }

  lemma CountingStarts(turns: seq<Turn>, expected: Expected, start: Tx)
    ensures Counted(turns, expected, start, 0, [], start)
  {
    assert turns[0..] == turns && turns[..0] == [];
  }

  lemma CountingEnds(turns: seq<Turn>, expected: Expected, start: Tx, log: seq<Event>, arq: Tx)
    requires Counted(turns, expected, start, |turns|, log, arq)
    ensures FramesSent(log) == Repeats(turns, expected, start)
  {
  }

  /** What a repeat and a drain make of the state in one turn. */
  lemma CountingSteps(turns: seq<Turn>, expected: Expected, start: Tx, t: nat,
                      log: seq<Event>, arq: Tx, log2: seq<Event>, arq2: Tx)
    requires t < |turns| && Counted(turns, expected, start, t, log, arq)
    requires FramesSent(log2) == FramesSent(log) + if turns[t].overdue && MayRepeat(arq) then 1 else 0
    requires arq.NoArq? ==> arq2.NoArq?
    requires arq.Tx? ==>
      && arq2.Tx? && arq2.attemptsLeft + FramesSent(log2) == arq.attemptsLeft + FramesSent(log)
      && arq2 == arq.(attemptsLeft := arq2.attemptsLeft, acked := arq2.acked)
    requires arq.Tx? && arq.acked ==> arq2.acked
    requires arq.Tx? && !arq.acked && arq2.acked ==> SomeEnds(turns[t].inbound, expected, start)
    ensures SomeEnds(turns[t].inbound, expected, start) ==> FramesSent(log2) == Repeats(turns, expected, start)
    ensures !SomeEnds(turns[t].inbound, expected, start) || arq2.NoArq? || arq2.acked ==>
      Counted(turns, expected, start, t + 1, log2, arq2)
  {
    hide SomeEnds;
    assert turns[..t + 1][..t] == turns[..t];
    assert turns[t..][0] == turns[t] && turns[t..][1..] == turns[t + 1..];
  }

  predicate MayRepeat(arq: Tx) {
    arq.Tx? && !arq.acked && arq.attemptsLeft > 0
  }

  class PacketSink {
    /** Everything that happened on the trunk since this wait began. */
    var log: seq<Event>
    /** How many frames other than hop acks have been put on the trunk in all. */
    var framesOut: nat

    constructor ()
      ensures log == [] && framesOut == 0
    {
      log, framesOut := [], 0;
    }

    /** transport.sendOnEdge, for the frame in hand. */
    method Transmit()
      modifies this`framesOut
      ensures framesOut == old(framesOut) + 1
    {
      framesOut := framesOut + 1;
    }

    /**
     awaitFrame. It ends with the first answer or, when the time is up, without one. Until then it
     has heard every frame in order, acked every packet that is owed an ack, and repeated the
     unacked frame in every turn that began with its ack overdue, while attempts were left.
     */
    method AwaitFrame(expected: Expected, outSize: nat, turns: seq<Turn>, start: Tx)
      returns (found: bool, reply: seq<byte>, arq: Tx)
      modifies this
      ensures AcksPaid(log) && Accounted(log, start, arq)
      ensures FramesSent(log) == Repeats(turns, expected, start)
      ensures framesOut == old(framesOut) + FramesSent(log)
      ensures HeardIn(log) <= AllInbound(turns)
      ensures found ==> EndsWithAnswer(HeardIn(log), expected, outSize, start, reply)
      ensures !found ==> HeardIn(log) == AllInbound(turns) && NoneAnswers(HeardIn(log), expected, start)
    {
      hide AcksPaid, Accounted, EndsWithAnswer, NoneAnswers, Counted, Repeats, SomeEnds, MayRepeat;
      log, arq, found, reply := [], start, false, [];
      StartIsAccounted(start, expected);
      CountingStarts(turns, expected, start);
      ghost var done: seq<Inbound> := [];
      for t := 0 to |turns|
        invariant AcksPaid(log) && Accounted(log, start, arq)
        invariant HeardIn(log) == done && AllInbound(turns) == done + AllInbound(turns[t..])
        invariant NoneAnswers(done, expected, start)
        invariant Counted(turns, expected, start, t, log, arq) && framesOut == old(framesOut) + FramesSent(log)
      {
        ghost var log0, arq0 := log, arq;
        NextTurn(turns, t, done);
        found, reply, arq := TakeTurn(expected, outSize, turns[t], start, arq);
        CountingSteps(turns, expected, start, t, log0, arq0, log, arq);
        done := done + turns[t].inbound;
        if found {
          return;
        }
      }
      CountingEnds(turns, expected, start, log, arq);
    }

    /** One turn of the outer loop. */
    method TakeTurn(expected: Expected, outSize: nat, turn: Turn, start: Tx, arq0: Tx)
      returns (found: bool, reply: seq<byte>, arq: Tx)
      requires AcksPaid(log) && Accounted(log, start, arq0) && NoneAnswers(HeardIn(log), expected, start)
      modifies this
      ensures AcksPaid(log) && Accounted(log, start, arq)
      ensures old(HeardIn(log)) <= HeardIn(log) <= old(HeardIn(log)) + turn.inbound
      ensures found ==> EndsWithAnswer(HeardIn(log), expected, outSize, start, reply)
      ensures !found ==> HeardIn(log) == old(HeardIn(log)) + turn.inbound && NoneAnswers(HeardIn(log), expected, start)
      ensures FramesSent(log) == old(FramesSent(log)) + if turn.overdue && MayRepeat(arq0) then 1 else 0
      ensures framesOut == old(framesOut) + FramesSent(log) - old(FramesSent(log))
      ensures arq0.NoArq? ==> arq.NoArq?
      ensures arq0.Tx? ==>
        && arq.Tx? && arq.attemptsLeft + FramesSent(log) == arq0.attemptsLeft + old(FramesSent(log))
        && arq == arq0.(attemptsLeft := arq.attemptsLeft, acked := arq.acked)
      ensures arq0.Tx? && arq0.acked ==> arq.acked
      ensures (arq0.Tx? && !arq0.acked && arq.acked) || found ==> SomeEnds(turn.inbound, expected, start)
      ensures SomeEnds(turn.inbound, expected, start) && !found ==> arq.NoArq? || arq.acked
    {
      hide AcksPaid, EndsWithAnswer, NoneAnswers;
      SameFrame(log, start, arq0);
      ghost var before := HeardIn(log);
      arq := RepeatIfOverdue(turn.overdue, start, arq0);
      found, reply, arq := DrainInbound(expected, outSize, turn.inbound, start, arq);
      if found {
        AnswerIsInbound(before, HeardIn(log), turn.inbound, expected, outSize, start, reply);
      } else if SomeEnds(turn.inbound, expected, start) {
        UnansweredEndIsAck(before, turn.inbound, expected, start);
      }
    }

    /** send: the frame goes out once, and again only as hop retransmission while a wait lasts. */
    method Send(frameCrc: nat, linkAcked: bool, wantAck: bool, outSize: nat, turns: seq<Turn>)
      returns (ghost transmissions: nat)
      modifies this
      ensures framesOut == old(framesOut) + transmissions
      ensures transmissions == 1 +
        if !linkAcked then 0
        else Repeats(turns, if wantAck then ForKind(PACKET_ACK) else ForHopAck, Tx(frameCrc, 2, false))
      ensures transmissions <= if linkAcked then 3 else 1
      ensures AcksPaid(log) && (!wantAck && !linkAcked ==> log == [])
      ensures wantAck || linkAcked ==> HeardIn(log) <= AllInbound(turns)
    {
      log := [];
      Transmit();
      var arq := if linkAcked then Tx(frameCrc, LINK_RETRANSMITS, false) else NoArq;
      StartIsAccounted(arq, ForHopAck);
      if wantAck {
        var found, reply, end := AwaitFrame(ForKind(PACKET_ACK), outSize, turns, arq);
      } else if linkAcked {
        var found, reply, end := AwaitFrame(ForHopAck, outSize, turns, arq);
      }
      transmissions := 1 + FramesSent(log);
    }

    /** requestReply: the reply, if one came, is the first packet of the expected kind. */
    method RequestReply(frameCrc: nat, linkAcked: bool, kind: nat, outSize: nat, turns: seq<Turn>)
      returns (found: bool, reply: seq<byte>)
      modifies this
      ensures framesOut == old(framesOut) + 1 +
        if linkAcked then Repeats(turns, ForKind(kind), Tx(frameCrc, 2, false)) else 0
      ensures AcksPaid(log) && HeardIn(log) <= AllInbound(turns)
      ensures found <==> exists i :: 0 <= i < |AllInbound(turns)| && IsKind(AllInbound(turns)[i], kind)
      ensures found ==> EndsWithAnswer(HeardIn(log), ForKind(kind), outSize, NoArq, reply)
    {
      Transmit();
      var arq := if linkAcked then Tx(frameCrc, LINK_RETRANSMITS, false) else NoArq;
      var end: Tx;
      found, reply, end := AwaitFrame(ForKind(kind), outSize, turns, arq);
      ghost var heard, all := HeardIn(log), AllInbound(turns);
      if found {
        assert IsKind(all[|heard| - 1], kind);
      }
    }

    /** The frame is repeated while its ack is overdue and attempts are left. */
    method RepeatIfOverdue(overdue: bool, start: Tx, arq0: Tx) returns (arq: Tx)
      requires AcksPaid(log) && Accounted(log, start, arq0)
      modifies this
      ensures AcksPaid(log) && Accounted(log, start, arq) && HeardIn(log) == old(HeardIn(log))
      ensures FramesSent(log) == old(FramesSent(log)) + if overdue && MayRepeat(arq0) then 1 else 0
      ensures framesOut == old(framesOut) + FramesSent(log) - old(FramesSent(log))
      ensures arq == if overdue && MayRepeat(arq0) then arq0.(attemptsLeft := arq0.attemptsLeft - 1) else arq0
    {
      hide AcksPaid, Accounted;
      arq := arq0;
      if overdue && arq.Tx? && !arq.acked && arq.attemptsLeft > 0 {
        RepeatIsAccounted(log, start, arq);
        LogAppend(log, SentFrame, start);
        Transmit();
        log := log + [SentFrame];
        arq := arq.(attemptsLeft := arq.attemptsLeft - 1);
      }
    }

    /** The inner loop: everything that has arrived so far. */
    method DrainInbound(expected: Expected, outSize: nat, inbound: seq<Inbound>, start: Tx, arq0: Tx)
      returns (found: bool, reply: seq<byte>, arq: Tx)
      requires AcksPaid(log) && Accounted(log, start, arq0) && NoneAnswers(HeardIn(log), expected, start)
      modifies this`log
      ensures AcksPaid(log) && Accounted(log, start, arq) && FramesSent(log) == old(FramesSent(log))
      ensures old(HeardIn(log)) <= HeardIn(log) <= old(HeardIn(log)) + inbound
      ensures found ==> EndsWithAnswer(HeardIn(log), expected, outSize, start, reply)
      ensures found ==> |HeardIn(log)| > |old(HeardIn(log))|
      ensures !found ==> HeardIn(log) == old(HeardIn(log)) + inbound && NoneAnswers(HeardIn(log), expected, start)
      ensures arq0.NoArq? ==> arq.NoArq?
      ensures arq0.Tx? ==> arq.Tx? && arq == arq0.(acked := arq.acked)
      ensures arq0.Tx? && arq.acked ==> arq0.acked || exists i :: 0 <= i < |inbound| && AcksFrame(inbound[i], arq0)
      ensures arq0.Tx? && arq0.acked ==> arq.acked
      ensures arq0.Tx? && !found && (exists i :: 0 <= i < |inbound| && AcksFrame(inbound[i], arq0)) ==> arq.acked
    {
      hide AcksPaid, Accounted;
      arq, found, reply := arq0, false, [];
      ghost var before := HeardIn(log);
      for i := 0 to |inbound|
        invariant AcksPaid(log) && Accounted(log, start, arq) && FramesSent(log) == old(FramesSent(log))
        invariant HeardIn(log) == before + inbound[..i] && NoneAnswers(HeardIn(log), expected, start)
        invariant arq0.NoArq? ==> arq.NoArq?
        invariant arq0.Tx? ==> arq.Tx? && arq == arq0.(acked := arq.acked)
        invariant arq0.Tx? ==> (arq.acked <==> arq0.acked || exists j :: 0 <= j < i && AcksFrame(inbound[j], arq0))
      {
        ghost var heard := HeardIn(log);
        found, reply, arq := Hear(expected, outSize, inbound[i], start, arq);
        assert before + inbound[..i + 1] == heard + [inbound[i]];
        if found {
          return;
        }
      }
    }

    /** One frame of the inner loop. */
    method Hear(expected: Expected, outSize: nat, x: Inbound, start: Tx, arq0: Tx)
      returns (found: bool, reply: seq<byte>, arq: Tx)
      requires AcksPaid(log) && Accounted(log, start, arq0) && NoneAnswers(HeardIn(log), expected, start)
      modifies this`log
      ensures AcksPaid(log) && Accounted(log, start, arq) && FramesSent(log) == old(FramesSent(log))
      ensures HeardIn(log) == old(HeardIn(log)) + [x]
      ensures found == Answers(x, expected, start)
      ensures found ==> reply == if expected.ForKind? then FirstBytes(x.bytes, outSize) else []
      ensures arq == AfterHearing(arq0, x)
    {
      arq, found, reply := arq0, false, [];
      ghost var before := log;
      LogAppend(before, Heard(x), start);
      log := log + [Heard(x)];
      if x.HopAck? {
        HopAckIsAccounted(before, start, arq, x);
        if expected == ForHopAck && start.Tx? && !start.acked {
          UnansweredIsUnacked(before, start);
        }
        if arq.Tx? && !arq.acked && x.frameCrc == arq.frameCrc {
          arq := arq.(acked := true);
          if expected == ForHopAck {
            found := true;
          }
        }
        return;
      }
      if x.linkAcked {
        PacketIsAccounted(before, start, arq, x);
        LogAppend(log, SentAck(x.crc), start);
        log := log + [SentAck(x.crc)];
      } else {
        HopAckIsAccounted(before, start, arq, x);
      }
      if ForKind(x.kind) != expected {
        return;
      }
      found, reply := true, FirstBytes(x.bytes, outSize);
    }
  }

  lemma SameFrame(log: seq<Event>, start: Tx, arq: Tx)
    requires Accounted(log, start, arq)
    ensures arq.NoArq? <==> start.NoArq?
    ensures arq.Tx? ==> arq.frameCrc == start.frameCrc
  {
  }

  lemma AnswerIsInbound(before: seq<Inbound>, heard: seq<Inbound>, inbound: seq<Inbound>,
                        expected: Expected, outSize: nat, start: Tx, reply: seq<byte>)
    requires before <= heard <= before + inbound && |heard| > |before|
    requires EndsWithAnswer(heard, expected, outSize, start, reply)
    ensures SomeEnds(inbound, expected, start)
  {
    var i := |heard| - 1 - |before|;
    assert heard[|heard| - 1] == (before + inbound)[|heard| - 1] == inbound[i];
    assert EndsRepeats(inbound[i], expected, start);
  }

  lemma UnansweredEndIsAck(before: seq<Inbound>, inbound: seq<Inbound>, expected: Expected, start: Tx)
    requires NoneAnswers(before + inbound, expected, start) && SomeEnds(inbound, expected, start)
    ensures exists i :: 0 <= i < |inbound| && AcksFrame(inbound[i], start)
  {
    var i :| 0 <= i < |inbound| && EndsRepeats(inbound[i], expected, start);
    assert (before + inbound)[|before| + i] == inbound[i];
  }

  lemma StartIsAccounted(start: Tx, expected: Expected)
    ensures AcksPaid([]) && Accounted([], start, start) && NoneAnswers([], expected, start)
  {
  }
}
