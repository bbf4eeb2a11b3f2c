/**
 The firmware campaign: RelayBootloaderClient writes pages chunk by chunk over a link that loses and
 garbles what it likes, and PanelFlasher takes the panels one by one, leaves first and the root last.
 */
module OtaCampaign {
  import opened Bytes
  import opened Bootloaders

  const WRITE_ATTEMPTS: nat := 3
  const MAX_FIRMWARE: nat := 28 * 1024

  // ------------------------------------------------------------------ one page, chunk by chunk

  function ChunkOf(image: seq<byte>, k: nat, c: nat): (data: seq<byte>)
    requires PAGE_SIZE * (k + 1) <= |image| && c < 2
    ensures |data| == CHUNK_SIZE
  {
    if c == 0 then PageOf(image, k)[..CHUNK_SIZE] else PageOf(image, k)[CHUNK_SIZE..]
  }

  /** How far page `k` has come: not begun, first chunk in the buffer, or in flash. */
  predicate Stage(p: Panel, image: seq<byte>, k: nat, s: nat) {
    && PAGE_SIZE * (k + 1) <= |image|
    && if s == 0 then PagesDone(p, image, k)
       else if s == 1 then HalfDone(p, image, k)
       else PagesDone(p, image, k + 1) && HalfDone(p, image, k)
  }

  /** A chunk that arrives, for the first time or again, takes the page to the next stage. */
  lemma ChunkAdvances(p: Panel, image: seq<byte>, k: nat, c: nat)
    requires c < 2 && p.resident && (Stage(p, image, k, c) || Stage(p, image, k, c + 1))
    ensures var r := HandleChunk(p, PAGE_SIZE * k + CHUNK_SIZE * c, ChunkOf(image, k, c), true);
            r.1 == WriteOk && r.0.resident && Stage(r.0, image, k, c + 1)
  {
    hide HandleChunk, PagesDone, HalfDone;
    if c == 0 {
      FirstChunk(p, image, k);
    } else {
      SecondChunk(p, image, k);
    }
  }

  /** Leaving the bootloader undoes nothing. */
  lemma LeavingKeepsStage(p: Panel, image: seq<byte>, k: nat, s: nat)
    requires Stage(p, image, k, s)
    ensures Stage(Left(p), image, k, s)
  {
    if p.resident && p.pageStart != NO_PAGE {
      CommitElsewhere(p, if p.pageStart < PAGE_SIZE * k then p.pageStart else PAGE_SIZE * k);
    }
  }

  lemma LeavingKeepsPages(p: Panel, image: seq<byte>, k: nat)
    requires PagesDone(p, image, k) && PAGE_SIZE * (k + 1) <= |image|
    ensures PagesDone(Left(p), image, k)
  {
    LeavingKeepsStage(p, image, k, 0);
  }

  lemma LeavingKeepsFinished(p: Panel, image: seq<byte>)
    requires Finished(p, image)
    ensures Finished(Left(p), image)
  {
  }

  /** What happens to a panel nobody is talking to: nothing, or its bootloader gives up. */
  predicate Drifted(a: Panel, b: Panel) {
    WellFormed(a) && (b == a || b == Left(a))
  }

  ghost predicate OthersDrift(before: seq<Panel>, after: seq<Panel>, i: int) {
    |before| == |after| && forall j :: 0 <= j < |before| && j != i ==> Drifted(before[j], after[j])
  }

  ghost predicate AllWellFormed(panels: seq<Panel>) {
    forall j :: 0 <= j < |panels| ==> WellFormed(panels[j])
  }

  lemma OthersDriftAgain(a: seq<Panel>, b: seq<Panel>, c: seq<Panel>, i: int)
    requires OthersDrift(a, b, i) && OthersDrift(b, c, i)
    ensures OthersDrift(a, c, i)
  {
  }

  datatype Reply = NoReply | Garbled | Ack(status: WriteStatus)

  /**
   What happens to one request: its copies that arrive, each intact or not, what becomes of the last
   ack, and whether bootloaders give up meanwhile.
   */
  datatype Weather = Weather(arrivals: seq<bool>, ackLost: bool, ackGarbled: bool, gaveUp: bool)

  /** What the client hears from a panel, if no bootloader gives up. */
  function Heard(w: Weather, resident: bool): Reply {
    if !resident || w.arrivals == [] || w.ackLost then NoReply
    else if w.ackGarbled then Garbled
    else Ack(if w.arrivals[|w.arrivals| - 1] then WriteOk else BadCrc)
  }

  /** The request arrives at a panel in its bootloader, and the ack comes back. */
  predicate GetsThrough(w: Weather) {
    !w.gaveUp && Heard(w, true) == Ack(WriteOk)
  }

  /** One attempt at least gets through, and no bootloader gives up. */
  predicate SomeGetsThrough(weathers: seq<Weather>) {
    && (forall a :: 0 <= a < |weathers| ==> !weathers[a].gaveUp)
    && exists a :: 0 <= a < |weathers| && GetsThrough(weathers[a])
  }

  /** The panels behind the relay, in discovery order, and the client that talks to one of them. */
  class RelayBootloaderClient {
    var panels: seq<Panel>

    ghost predicate Valid()
      reads this
    {
      AllWellFormed(panels)
    }

    /** Time passes: any panels' bootloaders may run into their idle timeout. */
    method Idle(gaveUp: bool)
      requires Valid()
      modifies this
      ensures Valid() && OthersDrift(old(panels), panels, -1)
      ensures !gaveUp ==> panels == old(panels)
    {
      if !gaveUp {
        return;
      }
      var n: nat :| true;
      for step := 0 to n
        invariant Valid() && OthersDrift(old(panels), panels, -1)
      {
        if panels != [] {
          var j: nat :| j < |panels|;
          panels := panels[j := Left(panels[j])];
        }
      }
    }

    /** Time passes, in which any bootloader may give up; the chunks taken stay taken. */
    method IdleKeepsStage(i: nat, ghost image: seq<byte>, k: nat, c: nat, gaveUp: bool)
      requires Valid() && i < |panels|
      requires Stage(panels[i], image, k, c) || Stage(panels[i], image, k, c + 1)
      modifies this
      ensures Valid() && OthersDrift(old(panels), panels, i)
      ensures Stage(panels[i], image, k, c) || Stage(panels[i], image, k, c + 1)
      ensures old(Stage(panels[i], image, k, c + 1)) ==> Stage(panels[i], image, k, c + 1)
      ensures !gaveUp ==> panels == old(panels)
    {
      hide Stage, WellFormed, Left;
      var before := panels[i];
      if Stage(before, image, k, c) {
        LeavingKeepsStage(before, image, k, c);
      }
      if Stage(before, image, k, c + 1) {
        LeavingKeepsStage(before, image, k, c + 1);
      }
      Idle(gaveUp);
      assert Drifted(before, panels[i]);
    }

    /**
     A request to panel `i` may be lost or garbled, and may arrive more than once; so may the ack.
     Before each arrival, and before the answer, any bootloader may give up.
     */
    method Exchange(i: nat, ghost image: seq<byte>, k: nat, c: nat, address: nat, data: seq<byte>, w: Weather)
      returns (reply: Reply)
      requires Valid() && i < |panels| && c < 2 && PAGE_SIZE * (k + 1) <= |image|
      requires address == PAGE_SIZE * k + CHUNK_SIZE * c && data == ChunkOf(image, k, c)
      requires Stage(panels[i], image, k, c) || Stage(panels[i], image, k, c + 1)
      modifies this
      ensures Valid() && OthersDrift(old(panels), panels, i)
      ensures Stage(panels[i], image, k, c) || Stage(panels[i], image, k, c + 1)
      ensures reply == Ack(WriteOk) ==> Stage(panels[i], image, k, c + 1)
      ensures !w.gaveUp ==> panels[i].resident == old(panels[i].resident)
      ensures !w.gaveUp ==> reply == Heard(w, old(panels[i].resident))
    {
      hide Stage, WellFormed, Left, HandleChunk;
      reply := NoReply;
      for n := 0 to |w.arrivals|
        invariant Valid() && OthersDrift(old(panels), panels, i)
        invariant Stage(panels[i], image, k, c) || Stage(panels[i], image, k, c + 1)
        invariant reply == Ack(WriteOk) ==> Stage(panels[i], image, k, c + 1)
        invariant !w.gaveUp ==> panels[i].resident == old(panels[i].resident)
        invariant !w.gaveUp ==>
          reply == if n == 0 || !panels[i].resident then NoReply else Ack(if w.arrivals[n - 1] then WriteOk else BadCrc)
      {
        ghost var between := panels;
        IdleKeepsStage(i, image, k, c, w.gaveUp);
        OthersDriftAgain(old(panels), between, panels, i);
        if panels[i].resident {
          var intact := w.arrivals[n];
          var r := HandleChunk(panels[i], address, data, intact);
          if intact {
            ChunkAdvances(panels[i], image, k, c);
          } else {
            GarbledChunkIsRefused(panels[i], address, data);
          }
          panels := panels[i := r.0];
          reply := Ack(r.1);
        }
      }
      ghost var taken := panels;
      IdleKeepsStage(i, image, k, c, w.gaveUp);
      OthersDriftAgain(old(panels), taken, panels, i);
      if w.ackLost {
        reply := NoReply;
      } else if reply.Ack? && w.ackGarbled {
        reply := Garbled;
      }
    }

    /** writeChunk: up to three attempts; only an intact ack for this chunk counts, and the first one does. */
    method WriteChunk(i: nat, ghost image: seq<byte>, k: nat, c: nat, address: nat, data: seq<byte>, weathers: seq<Weather>)
      returns (ok: bool, ghost replies: seq<Reply>)
      requires Valid() && i < |panels| && c < 2 && PAGE_SIZE * (k + 1) <= |image|
      requires address == PAGE_SIZE * k + CHUNK_SIZE * c && data == ChunkOf(image, k, c)
      requires Stage(panels[i], image, k, c) && |weathers| == WRITE_ATTEMPTS
      modifies this
      ensures Valid() && OthersDrift(old(panels), panels, i)
      ensures Stage(panels[i], image, k, c) || Stage(panels[i], image, k, c + 1)
      ensures ok ==> Stage(panels[i], image, k, c + 1)
      ensures ok <==> Ack(WriteOk) in replies
      ensures |replies| <= 3 && (!ok ==> |replies| == 3)
      ensures forall a :: 0 <= a < |replies| && (forall b :: 0 <= b <= a ==> !weathers[b].gaveUp) ==>
        replies[a] == Heard(weathers[a], old(panels[i].resident))
      ensures old(panels[i].resident) && SomeGetsThrough(weathers) ==> ok && panels[i].resident
    {
      hide Stage, WellFormed, Left, GetsThrough;
      replies := [];
      for attempt := 0 to WRITE_ATTEMPTS
        invariant Valid() && OthersDrift(old(panels), panels, i)
        invariant Stage(panels[i], image, k, c) || Stage(panels[i], image, k, c + 1)
        invariant |replies| == attempt && Ack(WriteOk) !in replies
        invariant (forall b :: 0 <= b < attempt ==> !weathers[b].gaveUp) ==>
          panels[i].resident == old(panels[i].resident)
        invariant forall a :: 0 <= a < attempt && (forall b :: 0 <= b <= a ==> !weathers[b].gaveUp) ==>
          replies[a] == Heard(weathers[a], old(panels[i].resident))
      {
        ghost var before := panels;
        var reply := Exchange(i, image, k, c, address, data, weathers[attempt]);
        OthersDriftAgain(old(panels), before, panels, i);
        replies := replies + [reply];
        if reply == Ack(WriteOk) {
          assert replies[attempt] == reply;
          return true, replies;
        }
        ghost var between := panels;
        IdleKeepsStage(i, image, k, c, weathers[attempt].gaveUp);
        OthersDriftAgain(old(panels), between, panels, i);
      }
      if old(panels[i].resident) && SomeGetsThrough(weathers) {
        GetsHeard(weathers, replies);
      }
      ok := false;
    }

    /** writePage: both chunks, or failure. */
    method WritePage(i: nat, ghost image: seq<byte>, k: nat, page: seq<byte>, weathers: seq<seq<Weather>>)
      returns (ok: bool)
      requires Valid() && i < |panels| && PagesWeather(weathers)
      requires PagesDone(panels[i], image, k) && PAGE_SIZE * (k + 1) <= |image| && page == PageOf(image, k)
      modifies this
      ensures Valid() && OthersDrift(old(panels), panels, i)
      ensures ok ==> PagesDone(panels[i], image, k + 1)
      ensures old(panels[i].resident) && AllGetThrough(weathers) ==> ok && panels[i].resident
    {
      assert Stage(panels[i], image, k, 0);
      for c := 0 to PAGE_SIZE / CHUNK_SIZE
        invariant Valid() && OthersDrift(old(panels), panels, i)
        invariant Stage(panels[i], image, k, c)
        invariant old(panels[i].resident) && AllGetThrough(weathers) ==> panels[i].resident
      {
        hide Stage, WellFormed, Left, SomeGetsThrough;
        ghost var before, replies := panels, [];
        ok, replies := WriteChunk(i, image, k, c, PAGE_SIZE * k + CHUNK_SIZE * c,
                                  page[c * CHUNK_SIZE..(c + 1) * CHUNK_SIZE], weathers[c]);
        OthersDriftAgain(old(panels), before, panels, i);
        if !ok {
          return;
        }
      }
      ok := true;
    }

    /** The request to enter the bootloader, which may be lost. */
    method EnterBootloader(i: nat, arrives: bool)
      requires Valid() && i < |panels|
      modifies this
      ensures Valid() && OthersDrift(old(panels), panels, i)
      ensures panels == if arrives then old(panels)[i := Entered(old(panels)[i])] else old(panels)
    {
      if arrives {
        panels := panels[i := Entered(panels[i])];
      }
    }

    /** connect: a ping, whose pong must carry the right version. It changes nothing. */
    method Connect(i: nat, pong: bool, rightVersion: bool, gaveUp: bool) returns (ok: bool)
      requires Valid() && i < |panels|
      modifies this
      ensures Valid() && OthersDrift(old(panels), panels, -1)
      ensures ok <==> panels[i].resident && pong && rightVersion
      ensures !gaveUp ==> panels == old(panels)
    {
      Idle(gaveUp);
      ok := panels[i].resident && pong && rightVersion;
    }

    /** startApp, which may be lost: the panel then stays in its bootloader until that gives up. */
    method StartApp(i: nat, arrives: bool)
      requires Valid() && i < |panels|
      modifies this
      ensures Valid() && OthersDrift(old(panels), panels, -1)
      ensures panels == if arrives then old(panels)[i := Left(old(panels)[i])] else old(panels)
    {
      if arrives {
        panels := panels[i := Left(panels[i])];
      }
    }
  }

  /** Three attempts for each of the two chunks of a page. */
  predicate PagesWeather(weathers: seq<seq<Weather>>) {
    |weathers| == PAGE_SIZE / CHUNK_SIZE && forall c :: 0 <= c < |weathers| ==> |weathers[c]| == WRITE_ATTEMPTS
  }

  predicate AllGetThrough(weathers: seq<seq<Weather>>) {
    forall c :: 0 <= c < |weathers| ==> SomeGetsThrough(weathers[c])
  }

  lemma GetsHeard(weathers: seq<Weather>, replies: seq<Reply>)
    requires |weathers| == |replies| && SomeGetsThrough(weathers)
    requires forall a :: 0 <= a < |replies| && (forall b :: 0 <= b <= a ==> !weathers[b].gaveUp) ==>
      replies[a] == Heard(weathers[a], true)
    ensures Ack(WriteOk) in replies
  {
    var a :| 0 <= a < |weathers| && GetsThrough(weathers[a]);
    assert replies[a] == Ack(WriteOk);
  }

  lemma GarbledChunkIsRefused(p: Panel, address: nat, data: seq<byte>)
    requires WellFormed(p)
    ensures HandleChunk(p, address, data, false) == (p, BadCrc)
  {
  }

  // ------------------------------------------------------------------ all panels, one by one

  datatype State = Inactive | EnterBl | WaitBl | Flashing | NextPanel | Done | Error

  /** The firmware filled up with 0xFF to whole pages. */
  function Padded(firmware: seq<byte>): (image: seq<byte>)
    ensures |image| == PAGE_SIZE * ((|firmware| + PAGE_SIZE - 1) / PAGE_SIZE)
  {
    firmware + seq(PAGE_SIZE * ((|firmware| + PAGE_SIZE - 1) / PAGE_SIZE) - |firmware|, i => 0xFF)
  }

  /**
   Where the campaign stands when panel `at` is being updated: the panels behind it hold the new
   firmware, those before it have not been touched since the campaign began.
   */
  ghost predicate Split(start: seq<Panel>, panels: seq<Panel>, image: seq<byte>, at: int) {
    && |start| == |panels|
    && (forall j :: 0 <= j < |panels| && j < at ==> Drifted(start[j], panels[j]))
    && (forall j :: 0 <= j < |panels| && j > at ==> Finished(panels[j], image))
  }

  lemma SplitDrifts(start: seq<Panel>, before: seq<Panel>, after: seq<Panel>, image: seq<byte>, at: int, i: int)
    requires Split(start, before, image, at) && OthersDrift(before, after, i) && (i == at || i == -1)
    ensures Split(start, after, image, at)
  {
    hide WellFormed;
    forall j | 0 <= j < |after| && j > at
      ensures Finished(after[j], image)
    {
      assert Drifted(before[j], after[j]);
      LeavingKeepsFinished(before[j], image);
    }
    forall j | 0 <= j < |after| && j < at
      ensures Drifted(start[j], after[j])
    {
      assert Drifted(before[j], after[j]) && Drifted(start[j], before[j]);
    }
  }

  /** What one call of run meets. */
  datatype Conditions = Conditions(
    gaveUp: bool,          // bootloaders may give up before it, or while it connects
    settled: bool,         // the settling time has passed
    timedOut: bool,        // the waiting time has passed
    arrives: bool,         // a request to enter the bootloader, or to leave it, arrives
    pong: bool,            // a ping is answered, if the panel is in its bootloader
    rightVersion: bool,
    opens: bool,           // the firmware file opens
    readFails: bool,
    chunks: seq<seq<Weather>>)

  /** Nothing fails: a call finds file and panel in order, and each chunk gets through once. */
  predicate Calm(c: Conditions) {
    && !c.gaveUp && c.settled && c.arrives && c.pong && c.rightVersion && c.opens && !c.readFails
    && PagesWeather(c.chunks) && AllGetThrough(c.chunks)
  }

  /** Calls of run from the first one for a panel to the last. */
  function CallsFor(panels: nat, pages: nat): nat {
    panels * (pages + 3)
  }

  lemma OnePanelLess(panels: nat, pages: nat)
    requires panels > 0
    ensures CallsFor(panels, pages) == CallsFor(panels - 1, pages) + pages + 3
  {
  }

  class PanelFlasher {
    const relay: RelayBootloaderClient
    var state: State
    var panelIdx: nat
    var totalPanels: nat
    var currentPage: nat
    var totalPages: nat
    /** The stored firmware, and how far the open file has been read. */
    var firmware: seq<byte>
    var filePos: nat
    /** The panels as they were when the campaign began. */
    ghost var start: seq<Panel>

    /** The panel whose turn it is; below the list when there is none left. */
    ghost function At(): int
      reads this
    {
      totalPanels - 1 - panelIdx
    }

    ghost predicate Valid()
      reads this, relay
    {
      && relay.Valid() && |relay.panels| < 256
      && (state !in {Inactive, Error} ==>
           && totalPanels == |relay.panels| && panelIdx <= totalPanels
           && 0 < |firmware| <= MAX_FIRMWARE
           && totalPages == (|firmware| + 127) / 128
           && Split(start, relay.panels, Padded(firmware), At()))
      && (state in {EnterBl, WaitBl, Flashing, NextPanel} ==> panelIdx < totalPanels)
      && (state == Flashing ==>
           && currentPage < totalPages
           && filePos == PAGE_SIZE * currentPage
           && PagesDone(relay.panels[At()], Padded(firmware), currentPage))
      && (state == NextPanel ==> Finished(relay.panels[At()], Padded(firmware)))
      && (state == Done ==> panelIdx == totalPanels)
      && (state == Error && |start| > 0 ==>
           -1 <= At() && Split(start, relay.panels, Padded(firmware), At()))
    }

    /** Calls of run that are left if nothing fails. */
    ghost function CallsLeft(): int
      reads this
      requires panelIdx <= totalPanels
    {
      var all := CallsFor(totalPanels - panelIdx, totalPages);
      match state
      case EnterBl => all
      case WaitBl => all - 1
      case Flashing => all - 2 - currentPage
      case NextPanel => all - 2 - totalPages
      case _ => 0
    }

    predicate Running()
      reads this
    {
      state in {EnterBl, WaitBl, Flashing, NextPanel}
    }

    /** The panel that is waited for, or written to, is in its bootloader. */
    ghost predicate InBootloader()
      reads this, relay
      requires Valid()
    {
      state in {WaitBl, Flashing} ==> relay.panels[At()].resident
    }

    /** A campaign that is done has put the padded firmware into every panel's flash. */
    lemma DoneMeansAllFlashed(i: nat)
      requires Valid() && state == Done && i < |relay.panels|
      ensures var image := Padded(firmware);
              |image| <= BOOTLOADER_START && |relay.panels[i].flash| == BOOTLOADER_START
              && relay.panels[i].flash[..|image|] == image
    {
      assert Finished(relay.panels[i], Padded(firmware));
    }

    /**
     At every step, and where a campaign stopped after an error: the way to the root from a panel
     that still waits, or is being updated, is as it was when the campaign began. So a panel whose
     update has begun has only finished panels behind it.
     */
    lemma RootComesLast(parent: seq<nat>, a: nat, i: nat)
      requires Valid() && state != Inactive && |start| > 0
      requires i < |relay.panels| && OnPathToRoot(parent, a, i)
      ensures |start| == |relay.panels| && a < |start|
      ensures i < At() || (i == At() && a != i) ==> Drifted(start[a], relay.panels[a])
      ensures a >= At() && a != i ==> Finished(relay.panels[i], Padded(firmware))
    {
      hide Finished, WellFormed, PagesDone;
      WaitingPathIsUntouched(start, relay.panels, Padded(firmware), At(), parent, a, i);
    }

    constructor (relay: RelayBootloaderClient)
      requires relay.Valid() && |relay.panels| < 256
      ensures Valid() && this.relay == relay && state == Inactive
    {
      this.relay := relay;
      state, panelIdx, totalPanels, currentPage, totalPages, firmware, filePos := Inactive, 0, 0, 0, 0, [], 0;
      start := [];
    }

    /** startFlashing: the file must be readable, not empty, and fit below the bootloader. */
    method StartFlashing(stored: seq<byte>, readable: bool)
      requires Valid()
      modifies this
      ensures Valid()
      ensures state == if readable && 0 < |stored| <= 28672 && relay.panels != [] then EnterBl else Error
      ensures state == EnterBl ==> start == relay.panels && firmware == stored && panelIdx == 0
    {
      hide WellFormed, PagesDone, Finished;
      start := [];
      if !readable {
        state := Error;
        return;
      }
      if |stored| == 0 || |stored| > MAX_FIRMWARE {
        state := Error;
        return;
      }
      firmware := stored;
      totalPages := (|stored| + 127) / 128;
      panelIdx := 0;
      totalPanels := |relay.panels| % 256;
      if totalPanels == 0 {
        state := Error;
        return;
      }
      start := relay.panels;
      state := EnterBl;
    }

    /** currentPanelAddress: the list is walked from its end. */
    method CurrentPanelAddress() returns (i: nat)
      requires Valid() && state in {EnterBl, WaitBl, Flashing}
      ensures i == At() && i < |relay.panels|
    {
      i := totalPanels - 1 - panelIdx;
    }

    /** Time passes between two steps: any bootloader may give up, which undoes nothing. */
    method TimePasses(gaveUp: bool)
      requires Valid()
      modifies relay
      ensures Valid() && OthersDrift(old(relay.panels), relay.panels, -1)
      ensures !gaveUp ==> relay.panels == old(relay.panels)
    {
      hide Finished, WellFormed, Split, PagesDone, Left;
      ghost var before, image := relay.panels, Padded(firmware);
      relay.Idle(gaveUp);
      if state !in {Inactive, Error} || (state == Error && |start| > 0) {
        SplitDrifts(start, before, relay.panels, image, At(), -1);
      }
      if state == Flashing {
        assert Drifted(before[At()], relay.panels[At()]);
        LeavingKeepsPages(before[At()], image, currentPage);
      }
      if state == NextPanel {
        assert Drifted(before[At()], relay.panels[At()]);
        LeavingKeepsFinished(before[At()], image);
      }
    }

    /**
     Time, and then run: one step of the campaign. When nothing fails, each call brings it one step
     nearer to its end.
     */
    method Run(c: Conditions)
      requires Valid() && PagesWeather(c.chunks)
      modifies this, relay
      ensures Valid()
      ensures old(state) in {Inactive, Done, Error} ==>
        state == old(state) && OthersDrift(old(relay.panels), relay.panels, -1)
      ensures old(Running()) ==> totalPanels == old(totalPanels) && totalPages == old(totalPages) && firmware == old(firmware)
      ensures old(Running()) && Calm(c) && old(InBootloader()) ==>
        (Running() || state == Done) && InBootloader() && CallsLeft() == old(CallsLeft()) - 1
    {
      hide Calm, Split, Finished, PagesDone, WellFormed, Padded, CallsFor;
      if Calm(c) {
        CalmMeans(c);
      }
      TimePasses(c.gaveUp);
      match state
      case Inactive => return;
      case Done => return;
      case Error => return;
      case EnterBl => RunEnter(c.arrives);
      case WaitBl => var connected := RunWait(c);
      case Flashing => var written := RunFlash(c);
      case NextPanel => AdvancePanel();
    }

    lemma CalmMeans(c: Conditions)
      requires Calm(c)
      ensures !c.gaveUp && c.settled && c.arrives && c.pong && c.rightVersion && c.opens && !c.readFails
      ensures AllGetThrough(c.chunks)
    {
    }

    method RunEnter(arrives: bool)
      requires Valid() && state == EnterBl
      modifies this`state, relay
      ensures Valid() && state == WaitBl
      ensures arrives ==> relay.panels[At()].resident
    {
      hide Finished, WellFormed, Split;
      var i := CurrentPanelAddress();
      ghost var before := relay.panels;
      relay.EnterBootloader(i, arrives);
      SplitDrifts(start, before, relay.panels, Padded(firmware), At(), i);
      state := WaitBl;
    }

    /** Once the settling time is over, a connection leads on, or to Error if the file does not open. */
    method RunWait(c: Conditions) returns (connected: bool)
      requires Valid() && state == WaitBl
      modifies this`state, this`currentPage, this`filePos, relay
      ensures Valid()
      ensures 0 <= old(At()) < |relay.panels|
      ensures connected <==> c.settled && relay.panels[old(At())].resident && c.pong && c.rightVersion
      ensures state == if connected then (if c.opens then Flashing else Error)
                       else if c.settled && c.timedOut then Error else WaitBl
      ensures state == Flashing ==> currentPage == 0
      ensures !c.gaveUp ==> relay.panels == old(relay.panels)
    {
      hide Finished, Split, PagesDone, WellFormed, Padded;
      connected := false;
      if !c.settled {
        return;
      }
      var i := CurrentPanelAddress();
      ghost var before := relay.panels;
      connected := relay.Connect(i, c.pong, c.rightVersion, c.gaveUp);
      SplitDrifts(start, before, relay.panels, Padded(firmware), At(), -1);
      if connected {
        if !c.opens {
          state := Error;
          return;
        }
        currentPage, filePos := 0, 0;
        NoPagesYet(relay.panels[i], firmware);
        state := Flashing;
      } else if c.timedOut {
        state := Error;
      }
    }

    /**
     One page: read from the file, written to the panel; after the last one, the panel is started. The
     campaign stops exactly when the file cannot be read or the page not be written.
     */
    method RunFlash(c: Conditions) returns (written: bool)
      requires Valid() && state == Flashing && PagesWeather(c.chunks)
      modifies this`state, this`currentPage, this`filePos, relay
      ensures Valid()
      ensures c.readFails ==> !written && relay.panels == old(relay.panels)
      ensures written ==> currentPage == old(currentPage) + 1
      ensures !written ==> currentPage == old(currentPage)
      ensures state == if !written then Error else if currentPage == totalPages then NextPanel else Flashing
      ensures written && state == NextPanel && c.arrives ==> !relay.panels[At()].resident
      ensures !c.readFails && old(relay.panels[At()].resident) && AllGetThrough(c.chunks) ==>
        written && (state == Flashing ==> relay.panels[At()].resident)
    {
      hide Finished, Split, PagesDone, WellFormed, AllGetThrough, Padded;
      var i := CurrentPanelAddress();
      ghost var image := Padded(firmware);
      var page, got := ReadPage(c.readFails);
      if got == 0 && currentPage < totalPages {
        state := Error;
        return false;
      }
      ghost var before := relay.panels;
      written := relay.WritePage(i, image, currentPage, page, c.chunks);
      SplitDrifts(start, before, relay.panels, image, At(), i);
      if !written {
        state := Error;
        return;
      }
      currentPage := currentPage + 1;
      if currentPage >= totalPages {
        AllPagesFinish(relay.panels[i], image, currentPage);
        LeavingKeepsFinished(relay.panels[i], image);
        ghost var done := relay.panels;
        relay.StartApp(i, c.arrives);
        assert Drifted(done[i], relay.panels[i]);
        SplitDrifts(start, done, relay.panels, image, At(), -1);
        state := NextPanel;
      }
    }

    /** The next 128 bytes of the file, filled up with 0xFF at its end. */
    method ReadPage(readFails: bool) returns (page: seq<byte>, got: nat)
      requires Valid() && state == Flashing
      modifies this`filePos
      ensures got == 0 <==> readFails
      ensures !readFails ==>
        && PAGE_SIZE * (currentPage + 1) <= |Padded(firmware)| && page == PageOf(Padded(firmware), currentPage)
        && filePos == if currentPage + 1 < totalPages then PAGE_SIZE * (currentPage + 1) else |firmware|
      ensures readFails ==> filePos == old(filePos)
    {
      hide Finished, Split, PagesDone, WellFormed;
      got := if |firmware| - filePos < PAGE_SIZE then |firmware| - filePos else PAGE_SIZE;
      if readFails {
        got := 0;
      }
      page := firmware[filePos..filePos + got] + seq(PAGE_SIZE - got, i => 0xFF);
      filePos := filePos + got;
    }

    method AdvancePanel()
      requires Valid() && state == NextPanel
      modifies this`state, this`panelIdx
      ensures Valid() && state == if panelIdx == totalPanels then Done else EnterBl
      ensures panelIdx == old(panelIdx) + 1
      ensures CallsLeft() == old(CallsLeft()) - 1
    {
      OnePanelLess(totalPanels - panelIdx, totalPages);
      hide Finished, WellFormed, PagesDone;
      panelIdx := panelIdx + 1;
      if panelIdx >= totalPanels {
        state := Done;
        return;
      }
      state := EnterBl;
    }

    /**
     When nothing fails, a campaign is done after exactly as many calls of run as its panels and pages
     make, and then every panel holds the firmware.
     */
    method Campaign(stored: seq<byte>, calls: seq<Conditions>)
      requires Valid() && 0 < |stored| <= MAX_FIRMWARE && relay.panels != []
      requires forall k :: 0 <= k < |calls| ==> Calm(calls[k])
      requires |calls| == CallsFor(|relay.panels|, (|stored| + 127) / 128)
      modifies this, relay
      ensures Valid() && state == Done && firmware == stored
      ensures |relay.panels| == |old(relay.panels)|
      ensures forall i :: 0 <= i < |relay.panels| ==>
        |Padded(stored)| <= |relay.panels[i].flash| && relay.panels[i].flash[..|Padded(stored)|] == Padded(stored)
    {
      hide Calm, CallsFor, Padded;
      StartFlashing(stored, true);
      for k := 0 to |calls|
        invariant Valid() && (Running() || state == Done) && InBootloader()
        invariant firmware == stored && totalPanels == |old(relay.panels)|
        invariant CallsLeft() == |calls| - k
      {
        CalmWeather(calls[k]);
        Run(calls[k]);
      }
      StillToDo();
      forall i: nat | i < |relay.panels|
        ensures |Padded(stored)| <= |relay.panels[i].flash| && relay.panels[i].flash[..|Padded(stored)|] == Padded(stored)
      {
        DoneMeansAllFlashed(i);
      }
    }

    lemma CalmWeather(c: Conditions)
      requires Calm(c)
      ensures PagesWeather(c.chunks)
    {
    }

    lemma StillToDo()
      requires Valid()
      ensures Running() ==> panelIdx <= totalPanels && CallsLeft() > 0
    {
      if Running() {
        OnePanelLess(totalPanels - panelIdx, totalPages);
      }
    }
  }

  lemma NoPagesYet(p: Panel, firmware: seq<byte>)
    requires WellFormed(p) && |firmware| <= MAX_FIRMWARE
    ensures PagesDone(p, Padded(firmware), 0)
  {
  }

  lemma AllPagesFinish(p: Panel, image: seq<byte>, k: nat)
    requires PagesDone(p, image, k) && k > 0 && PAGE_SIZE * k == |image|
    ensures Finished(p, image)
  {
    assert image[..|image|] == image;
  }

  // ------------------------------------------------------------------ root last

  /** `a` lies on the way from panel `i` to the root; parents come before children in the list. */
  predicate OnPathToRoot(parent: seq<nat>, a: nat, i: nat) {
    a == i || (0 < i < |parent| && parent[i] < i && OnPathToRoot(parent, a, parent[i]))
  }

  lemma {:induction false} PathGoesForward(parent: seq<nat>, a: nat, i: nat)
    requires OnPathToRoot(parent, a, i)
    ensures a <= i
  {
    if a != i {
      PathGoesForward(parent, a, parent[i]);
    }
  }

  lemma WaitingPathIsUntouched(start: seq<Panel>, panels: seq<Panel>, image: seq<byte>, at: int,
                               parent: seq<nat>, a: nat, i: nat)
    requires Split(start, panels, image, at) && i < |panels| && OnPathToRoot(parent, a, i)
    ensures a < |panels|
    ensures i < at || (i == at && a != i) ==> Drifted(start[a], panels[a])
    ensures a >= at && a != i ==> Finished(panels[i], image)
  {
    PathGoesForward(parent, a, i);
  }
}
