/**
 A whole upload: the sending loop of tools/flash_panels_serial.py and the receiver, over two byte
 channels that keep their order. Either side may move whenever it can.
 */
module SerialUpload {
  import opened Crc
  import opened SerialFirmware
  import WordLaws

  datatype Phase = SendHeader | AwaitReady | SendChunk | AwaitAck | SendCrc | AwaitOk | Done | Failed

  /** Both ends and what is on the way between them; `acks` counts the chunk acks the host has read. */
  datatype System = System(phase: Phase, sent: nat, acks: nat, device: Device, toDevice: seq<byte>, toHost: seq<Reply>)

  // ------------------------------------------------------------------ what the host sends

  function Le32(n: nat): (b: seq<byte>)
    requires n < 0x1_0000_0000
    ensures |b| == 4
  {
    [WordLaws.ByteOf(n % 0x100), WordLaws.ByteOf(n / 0x100 % 0x100),
     WordLaws.ByteOf(n / 0x1_0000 % 0x100), WordLaws.ByteOf(n / 0x100_0000)]
  }

  function HeaderOf(data: seq<byte>): (b: seq<byte>)
    requires |data| < 0x1_0000_0000
    ensures |b| == 8
  {
    ['L' as byte, 'N' as byte, 'F' as byte, 'W' as byte] + Le32(|data|)
  }

  function ChunkEnd(data: seq<byte>, w: nat): (e: nat)
    requires w < |data|
    ensures w < e <= |data|
  {
    if w + WRITE_CHUNK < |data| then w + WRITE_CHUNK else |data|
  }

  function CrcOf(data: seq<byte>): seq<byte> {
    [(Crc16(data) & 0xFF) as byte, (Crc16(data) >> 8) as byte]
  }

  function HostNext(data: seq<byte>, s: System): System
    requires |data| < 0x1_0000_0000 && s.sent <= |data|
    requires HostCan(s) && (s.phase == SendChunk ==> s.sent < |data|)
  {
    match s.phase
    case SendHeader => s.(phase := AwaitReady, toDevice := s.toDevice + HeaderOf(data))
    case AwaitReady =>
      s.(phase := if s.toHost[0] != Ready then Failed else if s.sent < |data| then SendChunk else SendCrc,
         toHost := s.toHost[1..])
    case SendChunk =>
      var end := ChunkEnd(data, s.sent);
      s.(phase := AwaitAck, sent := end, toDevice := s.toDevice + data[s.sent..end])
    case AwaitAck =>
      if s.toHost[0] != ChunkAck then s.(phase := Failed, toHost := s.toHost[1..])
      else s.(phase := if s.sent < |data| then SendChunk else SendCrc, acks := s.acks + 1, toHost := s.toHost[1..])
    case SendCrc => s.(phase := AwaitOk, toDevice := s.toDevice + CrcOf(data))
    case AwaitOk => s.(phase := if s.toHost[0] == Ok then Done else Failed, toHost := s.toHost[1..])
    case Done => s
    case Failed => s
  }

  /** The host can move: it has something to send, or a reply to read. */
  predicate HostCan(s: System) {
    match s.phase
    case SendHeader => true
    case SendChunk => true
    case SendCrc => true
    case AwaitReady => s.toHost != []
    case AwaitAck => s.toHost != []
    case AwaitOk => s.toHost != []
    case Done => false
    case Failed => false
  }

  function DeviceNext(s: System): System
    requires Proper(s.device) && s.toDevice != []
  {
    var r := OnByte(s.device, s.toDevice[0]);
    s.(device := r.0, toDevice := s.toDevice[1..], toHost := s.toHost + r.1)
  }

  // ------------------------------------------------------------------ how the device answers

  /** The device with the first `w` bytes of the file flushed. */
  function Flushed(start: Device, data: seq<byte>, w: nat): Device
    requires w <= |data| < 0x1_0000_0000
  {
    start.(mode := if w < |data| then Data else CrcBytes, magicPos := 4, header := Le32(|data|), size := |data|,
           written := w, buf := [], crc := Crc16(data[..w]), crcBuf := if w < |data| then start.crcBuf else [],
           file := data[..w])
  }

  predicate Acceptable(start: Device, data: seq<byte>) {
    0 < |data| <= 28672 && !start.flashing
  }

  /** The device has answered the first `k` bytes of message `m`, and not before the last of them. */
  predicate Answers(from: Device, m: seq<byte>, to: Device, replies: seq<Reply>) {
    && Proper(from)
    && OnBytes(from, m) == (to, replies)
    && forall k :: 0 <= k < |m| ==> OnBytes(from, m[..k]).1 == []
  }

  /** The states a message takes the device through; only its last byte is answered. */
  predicate Path(states: seq<Device>, m: seq<byte>, replies: seq<Reply>) {
    && |states| == |m| + 1
    && (forall k :: 0 <= k < |m| ==> Proper(states[k]))
    && forall k :: 0 <= k < |m| ==> OnByte(states[k], m[k]) == (states[k + 1], if k + 1 == |m| then replies else [])
  }

  lemma {:induction false} PathPrefix(states: seq<Device>, m: seq<byte>, replies: seq<Reply>, k: nat)
    requires Path(states, m, replies) && 0 < |m| && k <= |m|
    ensures Proper(states[0])
    ensures OnBytes(states[0], m[..k]) == (states[k], if k == |m| then replies else [])
    decreases k
  {
    hide OnByte, Proper;
    assert Proper(states[0]);
    if k == 0 {
      assert OnBytes(states[0], []) == (states[0], []);
    } else {
      PathPrefix(states, m, replies, k - 1);
      assert m[..k] == m[..k - 1] + [m[k - 1]];
      OnBytesAppend(states[0], m[..k - 1], m[k - 1]);
      assert OnByte(states[k - 1], m[k - 1]) == (states[k - 1 + 1], if k - 1 + 1 == |m| then replies else []);
      assert [] + (if k == |m| then replies else []) == if k == |m| then replies else [];
    }
  }

  lemma PathAnswers(states: seq<Device>, m: seq<byte>, replies: seq<Reply>)
    requires Path(states, m, replies) && 0 < |m|
    ensures Answers(states[0], m, states[|m|], replies)
  {
    hide OnByte, OnBytes;
    PathPrefix(states, m, replies, |m|);
    assert m[..|m|] == m;
    forall k | 0 <= k < |m|
      ensures OnBytes(states[0], m[..k]).1 == []
    {
      PathPrefix(states, m, replies, k);
    }
  }

  // ---- the header

  function HeaderReply(start: Device, data: seq<byte>): (Device, seq<Reply>)
    requires |data| < 0x1_0000_0000
  {
    if Acceptable(start, data) then (Flushed(start, data, 0), [Ready])
    else (Reset(start), [Err])
  }

  lemma Le32Length(n: nat)
    requires n < 0x1_0000_0000
    ensures |Le32(n)| == 4
  {
  }

  lemma Le32RoundTrip(n: nat)
    requires n < 0x1_0000_0000
    ensures FromLe32(Le32(n)) == n
  {
    DigitsAddUp(n);
  }

  lemma DigitsAddUp(n: nat)
    ensures n == n % 0x100 + 0x100 * (n / 0x100 % 0x100)
               + 0x1_0000 * (n / 0x1_0000 % 0x100) + 0x100_0000 * (n / 0x100_0000)
  {
    HigherDigits(n);
    HigherDigits(n / 0x100);
    HigherDigits(n / 0x1_0000);
    QuotientsNest(n);
  }

  lemma HigherDigits(n: nat)
    ensures n == n % 0x100 + 0x100 * (n / 0x100)
  {
  }

  lemma QuotientsNest(n: nat)
    ensures n / 0x100 / 0x100 == n / 0x1_0000 && n / 0x1_0000 / 0x100 == n / 0x100_0000
  {
  }

  function HeaderStates(start: Device, data: seq<byte>): seq<Device>
    requires |data| < 0x1_0000_0000
  {
    var h := Le32(|data|);
    var d := start.(magicPos := 4, mode := Header);
    [start, start.(magicPos := 1), start.(magicPos := 2), start.(magicPos := 3),
     d.(header := []), d.(header := h[..1]), d.(header := h[..2]), d.(header := h[..3]), HeaderReply(start, data).0]
  }

  lemma HeaderIsAnswered(start: Device, data: seq<byte>)
    requires start.mode == Idle && Proper(start) && |data| < 0x1_0000_0000
    ensures Answers(start, HeaderOf(data), HeaderReply(start, data).0, HeaderReply(start, data).1)
  {
    var m, states, replies := HeaderOf(data), HeaderStates(start, data), HeaderReply(start, data).1;
    forall k | 0 <= k < 8
      ensures Proper(states[k])
      ensures OnByte(states[k], m[k]) == (states[k + 1], if k + 1 == 8 then replies else [])
    {
      if k < 4 {
        MagicStep(start, data, k);
      } else {
        SizeStep(start, data, k);
      }
    }
    PathAnswers(states, m, replies);
  }

  lemma MagicStep(start: Device, data: seq<byte>, k: nat)
    requires start.mode == Idle && Proper(start) && |data| < 0x1_0000_0000 && k < 4
    ensures Proper(HeaderStates(start, data)[k])
    ensures OnByte(HeaderStates(start, data)[k], HeaderOf(data)[k]) == (HeaderStates(start, data)[k + 1], [])
  {
    hide Le32, HeaderReply, HeaderOf;
    Le32Length(|data|);
    HeaderAt(data, k);
  }

  /** The byte the host sends and the byte the device waits for. */
  lemma HeaderAt(data: seq<byte>, k: nat)
    requires |data| < 0x1_0000_0000 && k < 8
    ensures |HeaderOf(data)| == 8 && |Le32(|data|)| == 4
    ensures HeaderOf(data)[k] == if k < 4 then MAGIC[k] else Le32(|data|)[k - 4]
  {
    hide Le32;
    Le32Length(|data|);
  }

  lemma SizeStep(start: Device, data: seq<byte>, k: nat)
    requires start.mode == Idle && Proper(start) && |data| < 0x1_0000_0000 && 4 <= k < 8
    ensures Proper(HeaderStates(start, data)[k])
    ensures OnByte(HeaderStates(start, data)[k], HeaderOf(data)[k])
         == (HeaderStates(start, data)[k + 1], if k == 7 then HeaderReply(start, data).1 else [])
  {
    hide Le32, FromLe32, Crc16, HeaderOf;
    HeaderAt(data, k);
    Le32RoundTrip(|data|);
    EmptyIsStart();
    var h := Le32(|data|);
    assert h[..k - 4] + [h[k - 4]] == h[..k - 3];
    assert h[..4] == h && data[..0] == [];
  }

  // ---- a chunk

  /** `k` bytes of a chunk that is not complete yet. */
  function Within(start: Device, data: seq<byte>, w: nat, k: nat): Device
    requires w + k <= |data| < 0x1_0000_0000
  {
    Flushed(start, data, w).(written := w + k, buf := data[w..w + k], crc := Crc16(data[..w + k]))
  }

  function ChunkStates(start: Device, data: seq<byte>, w: nat): seq<Device>
    requires w < |data| < 0x1_0000_0000
  {
    var e := ChunkEnd(data, w);
    seq(e - w, k requires 0 <= k < e - w => Within(start, data, w, k)) + [Flushed(start, data, e)]
  }

  lemma ChunkIsAnswered(start: Device, data: seq<byte>, w: nat)
    requires w < |data| <= MAX_FIRMWARE_SIZE
    ensures var end := ChunkEnd(data, w);
            Answers(Flushed(start, data, w), data[w..end], Flushed(start, data, end), [ChunkAck])
  {
    hide OnByte, Crc16;
    var e := ChunkEnd(data, w);
    var m, states := data[w..e], ChunkStates(start, data, w);
    forall k | 0 <= k < |m|
      ensures Proper(states[k])
      ensures OnByte(states[k], m[k]) == (states[k + 1], if k + 1 == |m| then [ChunkAck] else [])
    {
      ChunkStep(start, data, w, k);
    }
    assert data[w..w] == [];
    PathAnswers(states, m, [ChunkAck]);
  }

  lemma ChunkStep(start: Device, data: seq<byte>, w: nat, k: nat)
    requires w < |data| <= MAX_FIRMWARE_SIZE && k < ChunkEnd(data, w) - w
    ensures Proper(Within(start, data, w, k))
    ensures var e := ChunkEnd(data, w);
            OnByte(Within(start, data, w, k), data[w + k])
            == if w + k + 1 == e then (Flushed(start, data, e), [ChunkAck]) else (Within(start, data, w, k + 1), [])
  {
    hide Crc16, Update;
    var b := data[w + k];
    assert data[w..w + k] + [b] == data[w..w + k + 1];
    assert data[..w + k] + [b] == data[..w + k + 1];
    assert data[..w] + data[w..w + k + 1] == data[..w + k + 1];
    CrcOfOneMore(data[..w + k], b);
  }

  // ---- the checksum

  function CrcReply(start: Device, data: seq<byte>): (Device, seq<Reply>)
    requires |data| < 0x1_0000_0000
  {
    var d := Flushed(start, data, |data|);
    (Reset(d.(started := d.started + [data], flashing := d.flashing || d.accepts)), [if start.accepts then Ok else Err])
  }

  lemma CrcBytesJoin(data: seq<byte>)
    ensures FromLe16(CrcOf(data)[0], CrcOf(data)[1]) == Crc16(data)
  {
    hide Crc16;
    WordLaws.HalvesJoin(Crc16(data));
  }

  lemma CrcIsAnswered(start: Device, data: seq<byte>)
    requires |data| <= MAX_FIRMWARE_SIZE
    ensures Answers(Flushed(start, data, |data|), CrcOf(data), CrcReply(start, data).0, CrcReply(start, data).1)
  {
    hide FromLe16, Crc16;
    var m := CrcOf(data);
    var d := Flushed(start, data, |data|);
    var states := [d, d.(crcBuf := [m[0]]), CrcReply(start, data).0];
    CrcBytesJoin(data);
    assert data[..|data|] == data;
    assert [] + [m[0]] == [m[0]] && [m[0]] + [m[1]] == m;
    forall k | 0 <= k < 2
      ensures Proper(states[k])
      ensures OnByte(states[k], m[k]) == (states[k + 1], if k + 1 == 2 then CrcReply(start, data).1 else [])
    {
    }
    PathAnswers(states, m, CrcReply(start, data).1);
  }

  // ------------------------------------------------------------------ every run

  /** `m` has been sent to a device in state `from`; `k` of its bytes have been taken in. */
  ghost predicate Underway(s: System, from: Device, m: seq<byte>, k: nat) {
    && Proper(from) && k <= |m| && s.toDevice == m[k..]
    && (s.device, s.toHost) == OnBytes(from, m[..k])
  }

  predicate Quiet(s: System) {
    s.toDevice == [] && s.toHost == []
  }

  function ChunksIn(n: nat): nat {
    (n + WRITE_CHUNK - 1) / WRITE_CHUNK
  }

  /** Where the chunk that is being acknowledged began. */
  predicate ChunkFrom(data: seq<byte>, w: nat, sent: nat) {
    w < |data| && w % WRITE_CHUNK == 0 && sent == ChunkEnd(data, w)
  }

  /** What holds at every moment of an upload that began with the device idle in state `start`. */
  ghost predicate Inv(data: seq<byte>, start: Device, s: System)
    requires |data| < 0x1_0000_0000
  {
    && start.mode == Idle && Proper(start) && s.sent <= |data|
    && match s.phase
       case SendHeader => Quiet(s) && s.device == start && s.sent == 0 && s.acks == 0
       case AwaitReady => (exists k: nat :: Underway(s, start, HeaderOf(data), k)) && s.sent == 0 && s.acks == 0
       case SendChunk =>
         && Acceptable(start, data) && Quiet(s) && s.sent < |data| && s.sent % WRITE_CHUNK == 0
         && s.device == Flushed(start, data, s.sent) && s.acks == ChunksIn(s.sent)
       case AwaitAck =>
         && Acceptable(start, data) && s.acks + 1 == ChunksIn(s.sent)
         && exists w: nat, k: nat :: ChunkFrom(data, w, s.sent) && Underway(s, Flushed(start, data, w), data[w..s.sent], k)
       case SendCrc =>
         && Acceptable(start, data) && Quiet(s) && s.sent == |data|
         && s.device == Flushed(start, data, |data|) && s.acks == ChunksIn(|data|)
       case AwaitOk =>
         && Acceptable(start, data) && s.sent == |data| && s.acks == ChunksIn(|data|)
         && exists k: nat :: Underway(s, Flushed(start, data, |data|), CrcOf(data), k)
       case Done =>
         && Acceptable(start, data) && start.accepts && Quiet(s) && s.acks == ChunksIn(|data|)
         && s.device == CrcReply(start, data).0
       case Failed =>
         && Quiet(s)
         && if Acceptable(start, data) then !start.accepts && s.device == CrcReply(start, data).0
            else s.device == Reset(start)
  }

  lemma UnderwayMoves(s: System, from: Device, m: seq<byte>, k: nat)
    requires Underway(s, from, m, k) && Proper(s.device) && s.toDevice != []
    ensures Underway(DeviceNext(s), from, m, k + 1)
  {
    hide OnByte, OnBytes, Proper;
    assert m[..k + 1] == m[..k] + [m[k]];
    OnBytesAppend(from, m[..k], m[k]);
  }

  lemma UnderwayIsProper(s: System, from: Device, m: seq<byte>, k: nat)
    requires Underway(s, from, m, k)
    ensures Proper(s.device)
  {
  }

  /** Once there is a reply, or nothing is left to take in, the message has been taken in whole. */
  lemma UnderwayArrives(s: System, from: Device, m: seq<byte>, k: nat, to_: Device, replies: seq<Reply>)
    requires Underway(s, from, m, k) && Answers(from, m, to_, replies) && (s.toHost != [] || s.toDevice == [])
    ensures s.toDevice == [] && s.device == to_ && s.toHost == replies
  {
    hide OnByte, OnBytes, Proper;
    assert k == |m|;
    assert m[..|m|] == m;
  }

  lemma UnderwayBegins(s: System, m: seq<byte>)
    requires Proper(s.device) && s.toDevice == m && s.toHost == []
    ensures Underway(s, s.device, m, 0)
  {
    assert m[..0] == [];
    assert OnBytes(s.device, []) == (s.device, []);
  }

  lemma ChunkCounts(data: seq<byte>, w: nat, sent: nat)
    requires ChunkFrom(data, w, sent)
    ensures ChunksIn(sent) == ChunksIn(w) + 1 && (sent < |data| ==> sent % WRITE_CHUNK == 0)
    ensures ChunksIn(sent) <= ChunksIn(|data|)
  {
  }

  lemma FlushedIsProper(start: Device, data: seq<byte>, w: nat)
    requires w <= |data| <= MAX_FIRMWARE_SIZE
    ensures Proper(Flushed(start, data, w))
  {
    hide Crc16;
  }

  /** A byte taken in by the device. */
  lemma DeviceKeepsInv(data: seq<byte>, start: Device, s: System)
    requires |data| < 0x1_0000_0000 && Inv(data, start, s) && s.toDevice != []
    ensures Proper(s.device) && Inv(data, start, DeviceNext(s))
  {
    hide OnByte, OnBytes, Proper, Flushed, HeaderOf, CrcOf, ChunkEnd;
    match s.phase
    case AwaitReady =>
      var k: nat :| Underway(s, start, HeaderOf(data), k);
      UnderwayIsProper(s, start, HeaderOf(data), k);
      UnderwayMoves(s, start, HeaderOf(data), k);
    case AwaitAck =>
      var w: nat, k: nat :| ChunkFrom(data, w, s.sent) && Underway(s, Flushed(start, data, w), data[w..s.sent], k);
      UnderwayIsProper(s, Flushed(start, data, w), data[w..s.sent], k);
      UnderwayMoves(s, Flushed(start, data, w), data[w..s.sent], k);
    case AwaitOk =>
      var k: nat :| Underway(s, Flushed(start, data, |data|), CrcOf(data), k);
      UnderwayIsProper(s, Flushed(start, data, |data|), CrcOf(data), k);
      UnderwayMoves(s, Flushed(start, data, |data|), CrcOf(data), k);
    case _ =>
  }

  lemma HostReadsReady(data: seq<byte>, start: Device, s: System)
    requires |data| < 0x1_0000_0000 && Inv(data, start, s) && s.phase == AwaitReady
    requires s.toHost != [] || s.toDevice == []
    ensures s.toHost != [] && Inv(data, start, HostNext(data, s))
  {
    hide OnByte, OnBytes, Proper, Flushed, HeaderOf, CrcOf, Crc16;
    var k: nat :| Underway(s, start, HeaderOf(data), k);
    HeaderIsAnswered(start, data);
    UnderwayArrives(s, start, HeaderOf(data), k, HeaderReply(start, data).0, HeaderReply(start, data).1);
  }

  lemma HostReadsAck(data: seq<byte>, start: Device, s: System)
    requires |data| < 0x1_0000_0000 && Inv(data, start, s) && s.phase == AwaitAck
    requires s.toHost != [] || s.toDevice == []
    ensures s.toHost != [] && Inv(data, start, HostNext(data, s))
  {
    hide OnByte, OnBytes, Proper, Flushed, HeaderOf, CrcOf, Crc16, ChunkEnd;
    var w: nat, k: nat :| ChunkFrom(data, w, s.sent) && Underway(s, Flushed(start, data, w), data[w..s.sent], k);
    ChunkIsAnswered(start, data, w);
    ChunkCounts(data, w, s.sent);
    UnderwayArrives(s, Flushed(start, data, w), data[w..s.sent], k, Flushed(start, data, s.sent), [ChunkAck]);
  }

  lemma HostReadsOk(data: seq<byte>, start: Device, s: System)
    requires |data| < 0x1_0000_0000 && Inv(data, start, s) && s.phase == AwaitOk
    requires s.toHost != [] || s.toDevice == []
    ensures s.toHost != [] && Inv(data, start, HostNext(data, s))
  {
    hide OnByte, OnBytes, Proper, Flushed, HeaderOf, CrcOf, Crc16, ChunkEnd, Reset;
    var k: nat :| Underway(s, Flushed(start, data, |data|), CrcOf(data), k);
    CrcIsAnswered(start, data);
    UnderwayArrives(s, Flushed(start, data, |data|), CrcOf(data), k, CrcReply(start, data).0, CrcReply(start, data).1);
  }

  lemma HostSends(data: seq<byte>, start: Device, s: System)
    requires |data| < 0x1_0000_0000 && Inv(data, start, s) && s.phase in {SendHeader, SendChunk, SendCrc}
    ensures Inv(data, start, HostNext(data, s))
  {
    hide OnByte, OnBytes, Flushed, HeaderOf, CrcOf, Crc16;
    var t := HostNext(data, s);
    match s.phase
    case SendHeader =>
      assert s.toDevice + HeaderOf(data) == HeaderOf(data);
      UnderwayBegins(t, HeaderOf(data));
    case SendChunk =>
      FlushedIsProper(start, data, s.sent);
      assert s.toDevice + data[s.sent..t.sent] == data[s.sent..t.sent];
      assert ChunkFrom(data, s.sent, t.sent);
      ChunkCounts(data, s.sent, t.sent);
      UnderwayBegins(t, data[s.sent..t.sent]);
    case SendCrc =>
      FlushedIsProper(start, data, |data|);
      assert s.toDevice + CrcOf(data) == CrcOf(data);
      UnderwayBegins(t, CrcOf(data));
  }

  lemma HostKeepsInv(data: seq<byte>, start: Device, s: System)
    requires |data| < 0x1_0000_0000 && Inv(data, start, s) && HostCan(s)
    ensures Inv(data, start, HostNext(data, s))
  {
    hide Underway;
    match s.phase
    case AwaitReady => HostReadsReady(data, start, s);
    case AwaitAck => HostReadsAck(data, start, s);
    case AwaitOk => HostReadsOk(data, start, s);
    case _ => HostSends(data, start, s);
  }

  // ------------------------------------------------------------------ progress

  predicate Final(s: System) {
    s.phase == Done || s.phase == Failed
  }

  /** No deadlock: until the upload is over, the host can move or a byte is on its way. */
  lemma SomeoneCanMove(data: seq<byte>, start: Device, s: System)
    requires |data| < 0x1_0000_0000 && Inv(data, start, s) && !Final(s)
    ensures HostCan(s) || s.toDevice != []
  {
    hide Underway;
    if s.toDevice == [] {
      match s.phase
      case AwaitReady => HostReadsReady(data, start, s);
      case AwaitAck => HostReadsAck(data, start, s);
      case AwaitOk => HostReadsOk(data, start, s);
      case _ =>
    }
  }

  /** Never more than one chunk is on its way to the device. */
  lemma OneChunkInFlight(data: seq<byte>, start: Device, s: System)
    requires |data| < 0x1_0000_0000 && Inv(data, start, s)
    ensures |s.toDevice| <= WRITE_CHUNK
  {
    hide Flushed, Proper, OnBytes;
  }

  /** What the host still has to do. */
  function HostSteps(data: seq<byte>, s: System): int {
    var chunks := ChunksIn(|data|) - ChunksIn(s.sent);
    match s.phase
    case SendHeader => 4 + 2 * chunks
    case AwaitReady => 3 + 2 * chunks
    case SendChunk => 2 + 2 * chunks
    case AwaitAck => 3 + 2 * chunks
    case SendCrc => 2
    case AwaitOk => 1
    case Done => 0
    case Failed => 0
  }

  /** The bytes the host still has to send. */
  function Unsent(data: seq<byte>, s: System): int {
    match s.phase
    case SendHeader => |data| + 10
    case AwaitReady => |data| + 2
    case SendChunk => |data| - s.sent + 2
    case AwaitAck => |data| - s.sent + 2
    case SendCrc => 2
    case AwaitOk => 0
    case Done => 0
    case Failed => 0
  }

  function Rank(data: seq<byte>, s: System): int {
    HostSteps(data, s) + Unsent(data, s) + |s.toDevice|
  }

  lemma ChunksInIsMonotone(a: nat, b: nat)
    requires a <= b
    ensures ChunksIn(a) <= ChunksIn(b)
  {
  }

  lemma RankIsNatural(data: seq<byte>, s: System)
    requires s.sent <= |data|
    ensures Rank(data, s) >= 0
  {
    hide ChunksIn;
    ChunksInIsMonotone(s.sent, |data|);
  }

  /** A step of either side. */
  ghost predicate Step(data: seq<byte>, s: System, t: System)
    requires |data| < 0x1_0000_0000
  {
    || (s.sent <= |data| && HostCan(s) && (s.phase == SendChunk ==> s.sent < |data|) && t == HostNext(data, s))
    || (Proper(s.device) && s.toDevice != [] && t == DeviceNext(s))
  }

  lemma StepKeepsInv(data: seq<byte>, start: Device, s: System, t: System)
    requires |data| < 0x1_0000_0000 && Inv(data, start, s) && Step(data, s, t)
    ensures Inv(data, start, t)
  {
    hide Inv, HostNext, DeviceNext;
    if s.sent <= |data| && HostCan(s) && (s.phase == SendChunk ==> s.sent < |data|) && t == HostNext(data, s) {
      HostKeepsInv(data, start, s);
    } else {
      DeviceKeepsInv(data, start, s);
    }
  }

  lemma HostStepLowersRank(data: seq<byte>, start: Device, s: System)
    requires |data| < 0x1_0000_0000 && Inv(data, start, s) && HostCan(s)
    ensures Rank(data, HostNext(data, s)) < Rank(data, s)
  {
    hide Underway, Flushed, Proper, ChunksIn, CrcOf, HeaderOf;
    ChunksInIsMonotone(s.sent, |data|);
    if s.phase == SendChunk {
      ChunkCounts(data, s.sent, ChunkEnd(data, s.sent));
    }
    LengthsSent(data);
  }

  lemma LengthsSent(data: seq<byte>)
    requires |data| < 0x1_0000_0000
    ensures |HeaderOf(data)| == 8 && |CrcOf(data)| == 2
  {
  }

  lemma StepLowersRank(data: seq<byte>, start: Device, s: System, t: System)
    requires |data| < 0x1_0000_0000 && Inv(data, start, s) && Step(data, s, t)
    ensures Rank(data, t) < Rank(data, s)
  {
    hide HostNext, Inv, ChunksIn;
    if s.sent <= |data| && HostCan(s) && (s.phase == SendChunk ==> s.sent < |data|) && t == HostNext(data, s) {
      HostStepLowersRank(data, start, s);
    }
  }

  function Initial(start: Device): System {
    System(SendHeader, 0, 0, start, [], [])
  }

  ghost predicate IsRun(data: seq<byte>, start: Device, run: seq<System>)
    requires |data| < 0x1_0000_0000
  {
    && run != [] && run[0] == Initial(start)
    && forall i :: 0 <= i < |run| - 1 ==> Step(data, run[i], run[i + 1])
  }

  /** Every run keeps the invariant, and no run is longer than the work there was to do. */
  lemma RunsStaySound(data: seq<byte>, start: Device, run: seq<System>)
    requires |data| < 0x1_0000_0000 && start.mode == Idle && Proper(start) && IsRun(data, start, run)
    ensures Inv(data, start, run[|run| - 1])
    ensures |run| - 1 <= Rank(data, Initial(start)) == 14 + |data| + 2 * ChunksIn(|data|)
  {
    hide Step, Rank;
    RunsLowerRank(data, start, run);
    RankIsNatural(data, run[|run| - 1]);
    RankAtFirst(data, start);
  }

  lemma RankAtFirst(data: seq<byte>, start: Device)
    ensures Rank(data, Initial(start)) == 14 + |data| + 2 * ChunksIn(|data|)
  {
    assert ChunksIn(0) == 0;
  }

  lemma {:induction false} RunsLowerRank(data: seq<byte>, start: Device, run: seq<System>)
    requires |data| < 0x1_0000_0000 && start.mode == Idle && Proper(start) && IsRun(data, start, run)
    ensures Inv(data, start, run[|run| - 1])
    ensures |run| - 1 + Rank(data, run[|run| - 1]) <= Rank(data, Initial(start))
    decreases |run|
  {
    hide Inv, Step, Rank;
    if |run| == 1 {
      InitialIsSound(data, start);
    } else {
      var before := run[..|run| - 1];
      forall i | 0 <= i < |before| - 1
        ensures Step(data, before[i], before[i + 1])
      {
        assert Step(data, run[i], run[i + 1]);
      }
      RunsLowerRank(data, start, before);
      var i := |run| - 2;
      assert Step(data, run[i], run[i + 1]);
      StepKeepsInv(data, start, run[i], run[i + 1]);
      StepLowersRank(data, start, run[i], run[i + 1]);
    }
  }

  lemma InitialIsSound(data: seq<byte>, start: Device)
    requires |data| < 0x1_0000_0000 && start.mode == Idle && Proper(start)
    ensures Inv(data, start, Initial(start))
  {
  }

  /**
   How an upload ends: with success exactly when the size is allowed, no campaign is running and the
   flasher accepts. Then the stored file is the file sent, it is what flashing was started with, and
   the host has read one ack for each chunk.
   */
  lemma Outcome(data: seq<byte>, start: Device, s: System)
    requires |data| < 0x1_0000_0000 && Inv(data, start, s) && Final(s)
    ensures s.phase == Done <==> Acceptable(start, data) && start.accepts
    ensures s.phase == Done ==>
      && s.device.file == data && s.device.started == start.started + [data]
      && s.acks == ChunksIn(|data|) && s.device.flashing
    ensures !Acceptable(start, data) ==> s.device.started == start.started && s.device.file == start.file
  {
    hide Crc16;
    assert data[..|data|] == data;
  }
}
