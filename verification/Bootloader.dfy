/**
 The resident bootloader of a panel (lib/Lightnet/Panel/bootloader/RelayBootloader.cpp): a flash, a
 one-page buffer filled by chunks, and the commit that a completed page triggers.
 */
module Bootloaders {
  import opened Bytes

  const BOOTLOADER_START: nat := 0x7000
  const PAGE_SIZE: nat := 128
  const CHUNK_SIZE: nat := 64
  const NO_PAGE: nat := 0xFFFF

  datatype WriteStatus = WriteOk | BadCrc | BadAddress

  /** A panel: its application flash, and the bootloader's state while that is what runs. */
  datatype Panel = Panel(flash: seq<byte>, resident: bool, pageStart: nat, pageBuf: seq<byte>, dirty: bool)

  predicate WellFormed(p: Panel) {
    && |p.flash| == BOOTLOADER_START && |p.pageBuf| == PAGE_SIZE
    && (p.pageStart == NO_PAGE || (p.pageStart % PAGE_SIZE == 0 && p.pageStart < BOOTLOADER_START))
  }

  /** commitPage: a dirty buffer is programmed into its page. */
  function Commit(p: Panel): (q: Panel)
    requires WellFormed(p)
    ensures WellFormed(q)
  {
    if !p.dirty || p.pageStart >= BOOTLOADER_START then p.(dirty := false)
    else p.(flash := p.flash[..p.pageStart] + p.pageBuf + p.flash[p.pageStart + PAGE_SIZE..], dirty := false)
  }

  /** loadPage: another page starts out erased, after the old one is committed. */
  function Load(p: Panel, start: nat): (q: Panel)
    requires WellFormed(p) && start % PAGE_SIZE == 0 && start < BOOTLOADER_START
    ensures WellFormed(q) && q.pageStart == start
  {
    if start == p.pageStart then p
    else Commit(p).(pageStart := start, pageBuf := seq(PAGE_SIZE, i => 0xFF))
  }

  function Store(p: Panel, offset: nat, data: seq<byte>): (q: Panel)
    requires WellFormed(p) && offset + |data| <= PAGE_SIZE
    ensures WellFormed(q)
  {
    p.(pageBuf := p.pageBuf[..offset] + data + p.pageBuf[offset + |data|..], dirty := true)
  }

  /** handleWriteChunk: `intact` says that the chunk's own checksum matches what arrived. */
  function HandleChunk(p: Panel, address: nat, data: seq<byte>, intact: bool): (r: (Panel, WriteStatus))
    requires WellFormed(p)
    ensures WellFormed(r.0)
  {
    if !(1 <= |data| <= CHUNK_SIZE) || !intact then (p, BadCrc)
    else
      var offset := address % PAGE_SIZE;
      if address + |data| > BOOTLOADER_START || offset + |data| > PAGE_SIZE then (p, BadAddress)
      else
        var q := Store(Load(p, address - offset), offset, data);
        (if offset + |data| == PAGE_SIZE then Commit(q) else q, WriteOk)
  }

  /** A chunk is taken exactly when it is intact, of a legal length, and within one application page. */
  lemma ChunkTakenIff(p: Panel, address: nat, data: seq<byte>, intact: bool)
    requires WellFormed(p)
    ensures var r := HandleChunk(p, address, data, intact);
            && (r.1 == WriteOk <==>
                 intact && 1 <= |data| <= CHUNK_SIZE && address + |data| <= BOOTLOADER_START
                 && address / PAGE_SIZE == (address + |data| - 1) / PAGE_SIZE)
            && (r.1 != WriteOk ==> r.0 == p)
  {
  }

  /** Entry from the application: nothing is loaded yet. */
  function Entered(p: Panel): (q: Panel)
    requires WellFormed(p)
    ensures WellFormed(q)
  {
    if p.resident then p
    else Panel(p.flash, true, NO_PAGE, seq(PAGE_SIZE, i => 0), false)
  }

  /** Leaving for the application, told to or on the idle timeout: pending bytes are committed. */
  function Left(p: Panel): (q: Panel)
    requires WellFormed(p)
    ensures WellFormed(q)
  {
    if p.resident then Commit(p).(resident := false) else p
  }

  /** What the flash holds once everything pending is committed. */
  function Memory(p: Panel): (m: seq<byte>)
    requires WellFormed(p)
    ensures |m| == BOOTLOADER_START
  {
    Commit(p).flash
  }

  /**
   A chunk that is taken is in the flash from the next commit on. Other pages keep what they have, bytes
   pending for them included; in its own page it keeps what the buffer holds of that page, and erases
   the rest if the buffer held another.
   */
  lemma ChunkIsStored(p: Panel, address: nat, data: seq<byte>, a: nat)
    requires WellFormed(p) && a < BOOTLOADER_START && HandleChunk(p, address, data, true).1 == WriteOk
    ensures var m, start := Memory(HandleChunk(p, address, data, true).0), address - address % PAGE_SIZE;
      m[a] == if address <= a < address + |data| then data[a - address]
              else if a < start || start + PAGE_SIZE <= a then Memory(p)[a]
              else if p.pageStart == start then p.pageBuf[a - start] else 0xFF
  {
    var offset := address % PAGE_SIZE;
    var start := address - offset;
    assert start % PAGE_SIZE == 0 && start < BOOTLOADER_START;
    var q := Load(p, start);
    LoadedMemory(p, start, a);
    StoredMemory(q, offset, data, a);
    CommitAgain(Store(q, offset, data));
  }

  lemma LoadedMemory(p: Panel, start: nat, a: nat)
    requires WellFormed(p) && start % PAGE_SIZE == 0 && start < BOOTLOADER_START && a < BOOTLOADER_START
    ensures var q := Load(p, start);
      && (a < start || start + PAGE_SIZE <= a ==> Memory(q)[a] == Memory(p)[a])
      && q.pageBuf == if p.pageStart == start then p.pageBuf else seq(PAGE_SIZE, i => 0xFF)
  {
  }

  lemma StoredMemory(q: Panel, offset: nat, data: seq<byte>, a: nat)
    requires WellFormed(q) && q.pageStart < BOOTLOADER_START && offset + |data| <= PAGE_SIZE && a < BOOTLOADER_START
    ensures var m, start := Memory(Store(q, offset, data)), q.pageStart;
      m[a] == if start + offset <= a < start + offset + |data| then data[a - start - offset]
              else if a < start || start + PAGE_SIZE <= a then Memory(q)[a]
              else q.pageBuf[a - start]
  {
    assert q.pageStart + PAGE_SIZE <= BOOTLOADER_START;
  }

  lemma CommitAgain(p: Panel)
    requires WellFormed(p)
    ensures Memory(Commit(p)) == Memory(p)
  {
  }

  /** After entry the first chunk erases the rest of its page and leaves the other pages alone; entering again does nothing. */
  lemma EnteringLoadsNothing(p: Panel, address: nat, data: seq<byte>, a: nat)
    requires WellFormed(p) && !p.resident && a < BOOTLOADER_START
    requires HandleChunk(Entered(p), address, data, true).1 == WriteOk
    ensures Entered(p).resident && Entered(Entered(p)) == Entered(p)
    ensures var m, start := Memory(HandleChunk(Entered(p), address, data, true).0), address - address % PAGE_SIZE;
      m[a] == if address <= a < address + |data| then data[a - address]
              else if start <= a < start + PAGE_SIZE then 0xFF else p.flash[a]
  {
    ChunkIsStored(Entered(p), address, data, a);
  }

  /** A request to enter that arrives at a resident bootloader changes nothing. */
  lemma EnteringAgain(p: Panel)
    requires WellFormed(p)
    ensures Entered(p).flash == p.flash && (p.resident ==> Entered(p) == p)
  {
  }

  /** Leaving for the application loses nothing that was pending. */
  lemma LeavingCommits(p: Panel)
    requires WellFormed(p) && p.resident
    ensures Left(p).flash == Memory(p) && !Left(p).resident
  {
  }

  // ------------------------------------------------------------------ writing an image page by page

  function PageOf(image: seq<byte>, k: nat): (page: seq<byte>)
    requires PAGE_SIZE * (k + 1) <= |image|
    ensures |page| == PAGE_SIZE
  {
    image[PAGE_SIZE * k..PAGE_SIZE * (k + 1)]
  }

  predicate Fits(image: seq<byte>) {
    |image| <= BOOTLOADER_START && |image| % PAGE_SIZE == 0
  }

  /** The first `k` pages are in flash, and no later write can reach back to them. */
  predicate PagesDone(p: Panel, image: seq<byte>, k: nat) {
    && WellFormed(p) && PAGE_SIZE * k <= |image| && Fits(image)
    && p.flash[..PAGE_SIZE * k] == image[..PAGE_SIZE * k]
    && (p.resident && k > 0 ==> p.pageStart == PAGE_SIZE * (k - 1) && !p.dirty)
  }

  /** In addition the first chunk of page `k` is in the buffer. */
  predicate HalfDone(p: Panel, image: seq<byte>, k: nat) {
    && WellFormed(p) && PAGE_SIZE * (k + 1) <= |image| && Fits(image)
    && p.flash[..PAGE_SIZE * k] == image[..PAGE_SIZE * k]
    && (p.resident ==> p.pageStart == PAGE_SIZE * k && p.pageBuf[..CHUNK_SIZE] == PageOf(image, k)[..CHUNK_SIZE])
  }

  /** The whole image is in flash and nothing is pending. */
  predicate Finished(p: Panel, image: seq<byte>) {
    WellFormed(p) && Fits(image) && p.flash[..|image|] == image && (p.resident ==> !p.dirty)
  }

  lemma CommitElsewhere(p: Panel, n: nat)
    requires WellFormed(p) && n <= p.pageStart && n <= BOOTLOADER_START
    ensures Commit(p).flash[..n] == p.flash[..n]
  {
  }

  /** The first chunk of the next page, however often it arrives. */
  lemma FirstChunk(p: Panel, image: seq<byte>, k: nat)
    requires p.resident && PAGE_SIZE * (k + 1) <= |image|
    requires PagesDone(p, image, k) || HalfDone(p, image, k)
    ensures var r := HandleChunk(p, PAGE_SIZE * k, PageOf(image, k)[..CHUNK_SIZE], true);
            r.1 == WriteOk && r.0.resident && HalfDone(r.0, image, k)
  {
    var start := PAGE_SIZE * k;
    var data := PageOf(image, k)[..CHUNK_SIZE];
    assert start % PAGE_SIZE == 0 && start < BOOTLOADER_START;
    if k == 0 {
      assert p.flash[..0] == image[..0];
    }
    var q := Load(p, start);
    assert q.flash[..start] == p.flash[..start];
    assert Store(q, 0, data).pageBuf[..CHUNK_SIZE] == data;
  }

  /** The second chunk completes the page, however often it arrives: a repeat writes the same bytes. */
  lemma SecondChunk(p: Panel, image: seq<byte>, k: nat)
    requires p.resident && PAGE_SIZE * (k + 1) <= |image|
    requires HalfDone(p, image, k)
    ensures var r := HandleChunk(p, PAGE_SIZE * k + CHUNK_SIZE, PageOf(image, k)[CHUNK_SIZE..], true);
            r.1 == WriteOk && r.0.resident && PagesDone(r.0, image, k + 1) && HalfDone(r.0, image, k)
  {
    var start := PAGE_SIZE * k;
    var data := PageOf(image, k)[CHUNK_SIZE..];
    assert (start + CHUNK_SIZE) % PAGE_SIZE == CHUNK_SIZE;
    var q := Store(p, CHUNK_SIZE, data);
    assert q.pageBuf == PageOf(image, k);
    var c := Commit(q);
    assert c.flash[..start + PAGE_SIZE] == p.flash[..start] + PageOf(image, k);
    assert image[..start + PAGE_SIZE] == image[..start] + PageOf(image, k);
    assert c.flash[..start] == p.flash[..start];
  }
}
