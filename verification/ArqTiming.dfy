/**
 When the duplicate window of lib/Lightnet/Core/Relay/LinkArq.hpp really covers a sender's
 retransmissions. Times are microseconds; the receiver reads a millisecond clock.
 */
module ArqTiming {
  import opened LinkArq

  /**
   One frame's three transmissions, none of them acked in time: how long the sender listened after
   the first two, how much later than its last bit the receiver saw each copy, and which were lost.
   */
  datatype Schedule = Schedule(start: nat, wait0: nat, wait1: nat, late0: nat, late1: nat, late2: nat,
                               lost0: bool, lost1: bool, lost2: bool)

  /** When each copy is seen, if sending one takes `air`. */
  function Seen0(s: Schedule, air: nat): nat {
    s.start + air + s.late0
  }

  function Seen1(s: Schedule, air: nat): nat {
    s.start + air + s.wait0 + air + s.late1
  }

  function Seen2(s: Schedule, air: nat): nat {
    s.start + air + s.wait0 + air + s.wait1 + air + s.late2
  }

  /** The sender listens for up to `wait`, the receiver is up to `jitter` late, nothing overtakes. */
  predicate Possible(s: Schedule, air: nat, wait: nat, jitter: nat) {
    && s.wait0 <= wait && s.wait1 <= wait
    && s.late0 <= jitter && s.late1 <= jitter && s.late2 <= jitter
    && Seen0(s, air) <= Seen1(s, air) <= Seen2(s, air)
  }

  function Ms(us: nat): nat {
    us / 1000
  }

  /** The millisecond stamps of the copies that arrive. */
  function Stamps(s: Schedule, air: nat): seq<nat> {
    (if s.lost0 then [] else [Ms(Seen0(s, air))])
    + (if s.lost1 then [] else [Ms(Seen1(s, air))])
    + (if s.lost2 then [] else [Ms(Seen2(s, air))])
  }

  /** How often a frame seen at these times is dispatched: every sighting outside the window counts. */
  function Dispatches(entry: Entry, crc: nat, stamps: seq<nat>): nat
    decreases |stamps|
  {
    if stamps == [] then 0
    else
      (if IsDuplicate(entry, crc, stamps[0]) then 0 else 1)
      + Dispatches(Entry(true, crc, stamps[0]), crc, stamps[1..])
  }

  /** However copies are lost and delayed, the frame is dispatched once at most. */
  ghost predicate NeverTwice(air: nat, wait: nat, jitter: nat) {
    forall s: Schedule, entry: Entry, crc: nat ::
      Possible(s, air, wait, jitter) && Seen2(s, air) < CLOCK && entry.frameCrc != crc ==>
        Dispatches(entry, crc, Stamps(s, air)) <= 1
  }

  /** Eleven milliseconds by a finer clock are less than twelve by the receiver's. */
  lemma SpanInMs(a: nat, b: nat)
    requires a <= b <= a + 11000 && b < CLOCK
    ensures Since(Ms(b), Ms(a)) < LINK_DEDUP_WINDOW_MS
  {
  }

  predicate Close(stamps: seq<nat>) {
    forall i :: 0 <= i < |stamps| - 1 ==> Since(stamps[i + 1], stamps[i]) < LINK_DEDUP_WINDOW_MS
  }

  /** Sightings that follow each other closely are all dropped after the first. */
  lemma {:induction false} CloseRepeatsAreDropped(crc: nat, stamps: seq<nat>)
    requires Close(stamps) && stamps != []
    ensures Dispatches(Entry(true, crc, stamps[0]), crc, stamps[1..]) == 0
    decreases |stamps|
  {
    var rest := stamps[1..];
    if rest != [] {
      assert Since(stamps[0 + 1], stamps[0]) < LINK_DEDUP_WINDOW_MS;
      CloseRepeatsAreDropped(crc, rest);
    }
  }

  lemma StampsAreClose(s: Schedule, air: nat, wait: nat, jitter: nat)
    requires Possible(s, air, wait, jitter) && Seen2(s, air) < CLOCK
    requires 2 * (air + wait) + jitter <= 11000
    ensures Close(Stamps(s, air))
  {
    hide Ms, Since;
    SpanInMs(Seen0(s, air), Seen1(s, air));
    SpanInMs(Seen1(s, air), Seen2(s, air));
    SpanInMs(Seen0(s, air), Seen2(s, air));
  }

  /** A schedule that dispatches twice: the second copy is lost and the first ack with it. */
  function LateThird(air: nat, wait: nat, jitter: nat): Schedule {
    Schedule(1000 * (air + 1) - 1 - air, wait, wait, 0, jitter, jitter, false, true, false)
  }

  lemma TwoFarApart(a: nat, c: nat)
    requires Since(c, a) >= LINK_DEDUP_WINDOW_MS
    ensures Dispatches(Entry(false, 0, 0), 1, [a, c]) == 2
  {
    assert [a, c][1..] == [c];
    assert Dispatches(Entry(true, 1, a), 1, [c]) == 1;
  }

  lemma LateThirdIsDispatchedAgain(air: nat, wait: nat, jitter: nat)
    requires 2 * (air + wait) + jitter > 11000
    requires Seen2(LateThird(air, wait, jitter), air) < CLOCK
    ensures Possible(LateThird(air, wait, jitter), air, wait, jitter)
    ensures Since(Ms(Seen2(LateThird(air, wait, jitter), air)), Ms(Seen0(LateThird(air, wait, jitter), air)))
         >= LINK_DEDUP_WINDOW_MS
    ensures Dispatches(Entry(false, 0, 0), 1, Stamps(LateThird(air, wait, jitter), air)) == 2
  {
    var s := LateThird(air, wait, jitter);
    var a, c := Ms(Seen0(s, air)), Ms(Seen2(s, air));
    assert Seen0(s, air) == 1000 * (air + 1) - 1;
    assert a == air;
    assert c >= air + 12;
    assert Stamps(s, air) == [a, c];
    TwoFarApart(a, c);
  }

  /**
   Exactly when the window covers the retransmissions: two transmissions, two waits and the
   receiver's jitter must fit into eleven milliseconds.
   */
  lemma WindowCoversSpanIff(air: nat, wait: nat, jitter: nat)
    requires Seen2(LateThird(air, wait, jitter), air) < CLOCK
    ensures NeverTwice(air, wait, jitter) <==> 2 * (air + wait) + jitter <= 11000
  {
    if 2 * (air + wait) + jitter <= 11000 {
      forall s: Schedule, entry: Entry, crc: nat
        | Possible(s, air, wait, jitter) && Seen2(s, air) < CLOCK && entry.frameCrc != crc
        ensures Dispatches(entry, crc, Stamps(s, air)) <= 1
      {
        StampsAreClose(s, air, wait, jitter);
        if Stamps(s, air) != [] {
          CloseRepeatsAreDropped(crc, Stamps(s, air));
        }
      }
    } else {
      LateThirdIsDispatchedAgain(air, wait, jitter);
    }
  }

  const MICROSECONDS_PER_BYTE: nat := 40
  const PREAMBLE_BYTES: nat := 2

  function AirTime(size: nat): nat {
    MICROSECONDS_PER_BYTE * (PREAMBLE_BYTES + size)
  }

  /**
   At 250 kbaud and with a receiver that is never late, frames of up to 35 bytes are safe; a longer
   one, such as the 72 bytes of a palette, can be dispatched twice.
   */
  lemma LongFramesCanRunTwice(size: nat)
    requires size <= 80
    ensures NeverTwice(AirTime(size), 1000 * LINK_ACK_TIMEOUT_MS, 0) <==> size <= 35
  {
    WindowCoversSpanIff(AirTime(size), 1000 * LINK_ACK_TIMEOUT_MS, 0);
  }
}
