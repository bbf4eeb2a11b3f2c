/**
 SerialFirmwareReceiver (lib/Lightnet/Controller/OTA/SerialFirmwareReceiver.cpp): it looks for the
 four magic bytes in the serial stream, stores the file that follows in flushed chunks, and starts
 the campaign when the checksum is right.
 */
module SerialFirmware {
  import opened Crc

  const MAGIC: seq<byte> := [0x4C, 0x4E, 0x46, 0x57]
  const MAX_FIRMWARE_SIZE: nat := 28 * 1024
  const WRITE_CHUNK: nat := 256

  datatype Mode = Idle | Header | Data | CrcBytes
  datatype Reply = Ready | ChunkAck | Ok | Err

  /** The receiver's fields, the file it writes, and the flasher it hands the file to. */
  datatype Device = Device(
    mode: Mode,
    magicPos: nat,
    header: seq<byte>,        // headerBuf[..headerPos]
    size: nat,
    written: nat,
    buf: seq<byte>,           // writeBuf[..writeBufLen]
    crc: bv16,
    crcBuf: seq<byte>,        // crcBuf[..crcPos]
    file: seq<byte>,
    flashing: bool,           // isActive()
    accepts: bool,            // whether startFlashing finds panels to flash
    started: seq<seq<byte>>)  // the files startFlashing was called with

  predicate Proper(d: Device) {
    && (d.mode == Idle ==> d.magicPos < 4)
    && (d.mode == Header ==> |d.header| < 4)
    && (d.mode == Data ==> d.written < d.size <= MAX_FIRMWARE_SIZE && |d.buf| < WRITE_CHUNK)
    && (d.mode == CrcBytes ==> |d.crcBuf| < 2)
    && (d.mode in {Idle, Header} ==> d.buf == [])
  }

  function Reset(d: Device): (r: Device)
    ensures Proper(r)
  {
    d.(mode := Idle, magicPos := 0, header := [], size := 0, written := 0, buf := [], crc := START, crcBuf := [])
  }

  function FromLe32(b: seq<byte>): nat
    requires |b| == 4
  {
    b[0] as int + 0x100 * (b[1] as int) + 0x1_0000 * (b[2] as int) + 0x100_0000 * (b[3] as int)
  }

  function FromLe16(lo: byte, hi: byte): bv16 {
    (lo as bv16) | ((hi as bv16) << 8)
  }

  /** run: one byte of the scan for the magic. */
  function ScanByte(d: Device, b: byte): (r: Device)
    requires d.mode == Idle && Proper(d)
    ensures Proper(r)
  {
    if b == MAGIC[d.magicPos] then
      if d.magicPos + 1 == 4 then d.(magicPos := 4, header := [], mode := Header) else d.(magicPos := d.magicPos + 1)
    else d.(magicPos := if b == MAGIC[0] then 1 else 0)
  }

  function HeaderByte(d: Device, b: byte): (r: (Device, seq<Reply>))
    requires d.mode == Header && Proper(d)
    ensures Proper(r.0)
  {
    var e := d.(header := d.header + [b]);
    if |e.header| < 4 then (e, [])
    else
      var size := FromLe32(e.header);
      if size == 0 || size > MAX_FIRMWARE_SIZE then (Reset(e.(size := size)), [Err])
      else if d.flashing then (Reset(e.(size := size)), [Err])
      else (e.(size := size, written := 0, crc := START, file := [], mode := Data), [Ready])
  }

  /** A chunk is flushed and acknowledged when it is full, and at the end of the file. */
  function DataByte(d: Device, b: byte): (r: (Device, seq<Reply>))
    requires d.mode == Data && Proper(d)
    ensures Proper(r.0)
  {
    var e := d.(buf := d.buf + [b], crc := Update(d.crc, b), written := d.written + 1);
    var flush := |e.buf| == WRITE_CHUNK || e.written == e.size;
    var f := if flush then e.(file := e.file + e.buf, buf := []) else e;
    (if f.written == f.size then f.(crcBuf := [], mode := CrcBytes) else f, if flush then [ChunkAck] else [])
  }

  function CrcByte(d: Device, b: byte): (r: (Device, seq<Reply>))
    requires d.mode == CrcBytes && Proper(d)
    ensures Proper(r.0)
  {
    var e := d.(crcBuf := d.crcBuf + [b]);
    if |e.crcBuf| < 2 then (e, [])
    else if FromLe16(e.crcBuf[0], e.crcBuf[1]) != e.crc then (Reset(e), [Err])
    else
      var f := e.(started := e.started + [e.file], flashing := e.flashing || e.accepts);
      (Reset(f), [if e.accepts then Ok else Err])
  }

  /** One byte from the serial line. */
  function OnByte(d: Device, b: byte): (r: (Device, seq<Reply>))
    requires Proper(d)
    ensures Proper(r.0)
  {
    match d.mode
    case Idle => (ScanByte(d, b), [])
    case Header => HeaderByte(d, b)
    case Data => DataByte(d, b)
    case CrcBytes => CrcByte(d, b)
  }

  function OnBytes(d: Device, bytes: seq<byte>): (r: (Device, seq<Reply>))
    requires Proper(d)
    ensures Proper(r.0)
    decreases |bytes|
  {
    if bytes == [] then (d, [])
    else
      var first := OnByte(d, bytes[0]);
      var rest := OnBytes(first.0, bytes[1..]);
      (rest.0, first.1 + rest.1)
  }

  // ------------------------------------------------------------------ the scan

  predicate EndsWith(s: seq<byte>, t: seq<byte>) {
    |t| <= |s| && s[|s| - |t|..] == t
  }

  /** `k` is the most magic bytes the stream so far ends with. */
  predicate Longest(s: seq<byte>, k: nat) {
    k < 4 && EndsWith(s, MAGIC[..k]) && forall j :: k < j <= 4 ==> !EndsWith(s, MAGIC[..j])
  }

  /** No occurrence of the magic yet. */
  predicate NoMagic(s: seq<byte>) {
    forall i :: 0 <= i <= |s| ==> !EndsWith(s[..i], MAGIC)
  }

  lemma EndsWithOneMore(s: seq<byte>, b: byte, j: nat)
    requires 1 <= j <= 4
    ensures EndsWith(s + [b], MAGIC[..j]) <==> EndsWith(s, MAGIC[..j - 1]) && b == MAGIC[j - 1]
  {
    var t := s + [b];
    var part := MAGIC[..j];
    assert part == MAGIC[..j - 1] + [MAGIC[j - 1]];
    if j <= |t| {
      var end := s[|s| - (j - 1)..];
      assert t[|t| - j..] == end + [b];
      AppendedEqual(end, b, MAGIC[..j - 1], MAGIC[j - 1]);
    }
  }

  lemma AppendedEqual(x: seq<byte>, a: byte, y: seq<byte>, b: byte)
    ensures x + [a] == y + [b] <==> x == y && a == b
  {
    if x + [a] == y + [b] {
      assert |x| == |y|;
      assert x == (x + [a])[..|x|] && y == (y + [b])[..|y|];
      assert a == (x + [a])[|x|] && b == (y + [b])[|y|];
    }
  }

  /** The magic has four different letters, so a stream can end with only one part of it. */
  lemma OnePartOnly(s: seq<byte>, i: nat, j: nat)
    requires 1 <= i <= 4 && 1 <= j <= 4 && EndsWith(s, MAGIC[..i]) && EndsWith(s, MAGIC[..j])
    ensures i == j
  {
    assert s[|s| - i..][i - 1] == s[|s| - 1];
    assert s[|s| - j..][j - 1] == s[|s| - 1];
  }

  /** One byte of the scan keeps count of the longest part, and sees the magic when it is complete. */
  lemma ScanByteFollows(d: Device, s: seq<byte>, b: byte)
    requires d.mode == Idle && Proper(d) && Longest(s, d.magicPos)
    ensures ScanByte(d, b).mode == Header <==> EndsWith(s + [b], MAGIC)
    ensures ScanByte(d, b).mode == Idle ==> Longest(s + [b], ScanByte(d, b).magicPos)
  {
    hide EndsWith;
    var k := d.magicPos;
    assert MAGIC[..4] == MAGIC;
    forall j | 1 <= j <= 4
      ensures EndsWith(s + [b], MAGIC[..j]) <==> (j == k + 1 || j == 1) && b == MAGIC[j - 1]
    {
      EndsWithOneMore(s, b, j);
      EndsWithNothing(s);
      if j > 1 && EndsWith(s, MAGIC[..j - 1]) && k != j - 1 {
        if k >= 1 {
          OnePartOnly(s, k, j - 1);
        }
      }
    }
    EndsWithNothing(s + [b]);
  }

  lemma EndsWithNothing(s: seq<byte>)
    ensures EndsWith(s, MAGIC[..0])
  {
    assert s[|s|..] == [];
  }

  /** Until the magic has come the receiver scans and says nothing. */
  lemma {:induction false} ScanWaits(d: Device, s: seq<byte>)
    requires d.mode == Idle && d.magicPos == 0 && Proper(d) && NoMagic(s)
    ensures var r := OnBytes(d, s); r.0.mode == Idle && r.1 == [] && Longest(s, r.0.magicPos)
    ensures OnBytes(d, s).0 == d.(magicPos := OnBytes(d, s).0.magicPos)
    decreases |s|
  {
    hide OnByte, ScanByte, EndsWith;
    if s == [] {
      NothingSeenYet(d);
    } else {
      var before, b := s[..|s| - 1], s[|s| - 1];
      assert s == before + [b];
      assert forall i :: 0 <= i <= |before| ==> before[..i] == s[..i];
      assert s[..|s|] == s;
      ScanWaits(d, before);
      OnBytesAppend(d, before, b);
      var e := OnBytes(d, before).0;
      ScanByteFollows(e, before, b);
      ScanIsOnByte(e, b);
    }
  }

  lemma NothingSeenYet(d: Device)
    requires d.mode == Idle && d.magicPos == 0 && Proper(d)
    ensures OnBytes(d, []) == (d, []) && Longest([], 0)
  {
  }

  lemma ScanIsOnByte(d: Device, b: byte)
    requires d.mode == Idle && Proper(d)
    ensures OnByte(d, b) == (ScanByte(d, b), [])
    ensures ScanByte(d, b).mode in {Idle, Header}
    ensures var e := ScanByte(d, b); e == d.(mode := e.mode, magicPos := e.magicPos, header := e.header)
    ensures ScanByte(d, b).mode == Idle ==> ScanByte(d, b).header == d.header
  {
  }

  /** The header begins right behind the first occurrence of the magic, and not before. */
  lemma TriggersAtFirstMagic(d: Device, s: seq<byte>, b: byte)
    requires d.mode == Idle && d.magicPos == 0 && Proper(d) && NoMagic(s)
    ensures OnBytes(d, s + [b]).0.mode == Header <==> EndsWith(s + [b], MAGIC)
  {
    hide OnByte, ScanByte, EndsWith, OnBytes;
    ScanWaits(d, s);
    OnBytesAppend(d, s, b);
    var e := OnBytes(d, s).0;
    ScanByteFollows(e, s, b);
    ScanIsOnByte(e, b);
  }

  lemma {:induction false} OnBytesConcat(d: Device, a: seq<byte>, b: seq<byte>)
    requires Proper(d)
    ensures var first := OnBytes(d, a);
            var second := OnBytes(first.0, b);
            OnBytes(d, a + b) == (second.0, first.1 + second.1)
    decreases |a|
  {
    hide OnByte, Proper;
    if a == [] {
      assert a + b == b;
      assert [] + OnBytes(d, b).1 == OnBytes(d, b).1;
    } else {
      var step := OnByte(d, a[0]);
      OnBytesConcat(step.0, a[1..], b);
      assert (a + b)[0] == a[0] && (a + b)[1..] == a[1..] + b;
      var first := OnBytes(step.0, a[1..]);
      var second := OnBytes(first.0, b);
      assert step.1 + (first.1 + second.1) == (step.1 + first.1) + second.1;
    }
  }

  lemma OnBytesAppend(d: Device, a: seq<byte>, b: byte)
    requires Proper(d)
    ensures var first := OnBytes(d, a);
            var second := OnByte(first.0, b);
            OnBytes(d, a + [b]) == (second.0, first.1 + second.1)
  {
    hide OnByte, Proper;
    OnBytesConcat(d, a, [b]);
    var first := OnBytes(d, a);
    var second := OnByte(first.0, b);
    assert [b][1..] == [];
    assert second.1 + [] == second.1;
  }

  // ------------------------------------------------------------------ what is stored

  /** The file and the write buffer are the data so far, and the running checksum is theirs. */
  predicate Stored(d: Device) {
    && (d.mode == Data ==>
         && |d.file| + |d.buf| == d.written && |d.buf| == d.written % WRITE_CHUNK
         && d.crc == Crc16(d.file + d.buf))
    && (d.mode == CrcBytes ==> d.buf == [] && |d.file| == d.size && d.crc == Crc16(d.file))
  }

  lemma CrcOfOneMore(data: seq<byte>, b: byte)
    ensures Crc16(data + [b]) == Update(Crc16(data), b)
  {
    hide Update;
    UpdateAllConcat(START, data, [b]);
    assert [b][1..] == [];
  }

  lemma EmptyIsStart()
    ensures Crc16([]) == START
  {
  }

  lemma DataByteStores(d: Device, b: byte)
    requires d.mode == Data && Proper(d) && Stored(d)
    ensures Stored(DataByte(d, b).0)
    ensures DataByte(d, b).0.file + DataByte(d, b).0.buf == d.file + d.buf + [b]
  {
    hide Update, Crc16, UpdateAll;
    CrcOfOneMore(d.file + d.buf, b);
    assert d.file + (d.buf + [b]) == d.file + d.buf + [b];
    assert d.file + d.buf + [b] + [] == d.file + d.buf + [b];
  }

  // ------------------------------------------------------------------ what is flashed

  /** How far the first magic reaches, looking from `e` on; one past the stream when there is none. */
  function MagicEnd(s: seq<byte>, e: nat): (m: nat)
    requires e <= |s| + 1
    ensures e <= m <= |s| + 1
    ensures m <= |s| ==> EndsWith(s[..m], MAGIC)
    ensures forall i :: e <= i < m ==> !EndsWith(s[..i], MAGIC)
    decreases |s| + 1 - e
  {
    if e == |s| + 1 || EndsWith(s[..e], MAGIC) then e else MagicEnd(s, e + 1)
  }

  /**
   The files in a stream, read off it as a whole: behind the first magic the size in four bytes, then
   that many bytes of file and two of checksum. What follows a refused size is searched on, and so is
   what follows a file, whether its checksum is right or not.
   */
  function FilesIn(s: seq<byte>, flashing: bool, accepts: bool): seq<seq<byte>>
    decreases |s|, 0
  {
    var m := MagicEnd(s, 0);
    if m + 4 > |s| then [] else FilesBehind(FromLe32(s[m..m + 4]), s[m + 4..], flashing, accepts)
  }

  /** The files from a size on that has just been read. */
  function FilesBehind(n: nat, s: seq<byte>, flashing: bool, accepts: bool): seq<seq<byte>>
    decreases |s|, 1
  {
    if n == 0 || n > 28672 || flashing then FilesIn(s, flashing, accepts)
    else if n + 2 > |s| then []
    else if FromLe16(s[n], s[n + 1]) != Crc16(s[..n]) then FilesIn(s[n + 2..], flashing, accepts)
    else [s[..n]] + FilesIn(s[n + 2..], flashing || accepts, accepts)
  }

  predicate Fresh(d: Device) {
    d.mode == Idle && d.magicPos == 0 && Proper(d)
  }

  lemma ScanFindsMagic(d: Device, s: seq<byte>)
    requires Fresh(d)
    ensures var m := MagicEnd(s, 0);
      if m <= |s| then OnBytes(d, s[..m]).0 == d.(mode := Header, magicPos := 4, header := [])
      else OnBytes(d, s).0.started == d.started
  {
    hide OnByte, OnBytes, ScanByte, EndsWith;
    var m := MagicEnd(s, 0);
    var before := s[..if m == 0 then 0 else m - 1];
    assert forall i :: 0 <= i <= |before| ==> before[..i] == s[..i];
    NothingEndsWithMagic(s[..0]);
    ScanWaits(d, before);
    if m <= |s| {
      var b := s[m - 1];
      assert before + [b] == s[..m];
      TriggersAtFirstMagic(d, before, b);
      OnBytesAppend(d, before, b);
      MagicCompletes(OnBytes(d, before).0, b);
    } else {
      assert before == s;
    }
  }

  lemma NothingEndsWithMagic(s: seq<byte>)
    requires |s| < 4
    ensures !EndsWith(s, MAGIC)
  {
  }

  lemma MagicCompletes(d: Device, b: byte)
    requires d.mode == Idle && Proper(d) && OnByte(d, b).0.mode == Header
    ensures OnByte(d, b).0 == d.(mode := Header, magicPos := 4, header := [])
  {
  }

  lemma {:induction false} HeaderBegins(d: Device, h: seq<byte>)
    requires d.mode == Header && d.header == [] && Proper(d) && |h| < 4
    ensures OnBytes(d, h).0 == d.(header := h)
    decreases |h|
  {
    hide OnBytes;
    if h == [] {
      OnNothing(d);
    } else {
      var before, b := h[..|h| - 1], h[|h| - 1];
      assert h == before + [b];
      HeaderBegins(d, before);
      OnBytesAppend(d, before, b);
    }
  }

  lemma OnNothing(d: Device)
    requires Proper(d)
    ensures OnBytes(d, []) == (d, [])
  {
  }

  /** The device in the header has read these four bytes. */
  lemma HeaderCompletes(d: Device, h: seq<byte>)
    requires d.mode == Header && d.header == [] && Proper(d) && |h| == 4
    ensures var n := FromLe32(h); var e := OnBytes(d, h).0;
      if n == 0 || n > MAX_FIRMWARE_SIZE || d.flashing then e == Reset(d)
      else e == d.(mode := Data, header := h, size := n, written := 0, crc := START, file := [])
  {
    hide OnBytes, FromLe32;
    assert h == h[..3] + [h[3]];
    HeaderBegins(d, h[..3]);
    OnBytesAppend(d, h[..3], h[3]);
  }

  /** The device has the first `w` bytes of a file: this much of it is written, and nothing else has changed. */
  predicate Holding(d: Device, e: Device, data: seq<byte>) {
    && e.mode == Data && Proper(e) && Stored(e) && e.file + e.buf == data && e.written == |data| && e.size == d.size
    && e.started == d.started && e.flashing == d.flashing && e.accepts == d.accepts
  }

  lemma {:induction false} DataBegins(d: Device, data: seq<byte>)
    requires Holding(d, d, []) && |data| < d.size
    ensures Holding(d, OnBytes(d, data).0, data)
    decreases |data|
  {
    hide OnBytes, Stored, Proper, Update;
    if data == [] {
      OnNothing(d);
    } else {
      var before, b := data[..|data| - 1], data[|data| - 1];
      assert data == before + [b];
      DataBegins(d, before);
      OnBytesAppend(d, before, b);
      DataByteStores(OnBytes(d, before).0, b);
      DataByteKeeps(OnBytes(d, before).0, b);
    }
  }

  lemma DataByteKeeps(d: Device, b: byte)
    requires d.mode == Data && Proper(d)
    ensures var e := DataByte(d, b).0;
      && OnByte(d, b).0 == e && Proper(e) && e.written == d.written + 1 && e.size == d.size
      && e.started == d.started && e.flashing == d.flashing && e.accepts == d.accepts
      && (e.mode == Data <==> d.written + 1 < d.size) && (e.mode != Data ==> e.mode == CrcBytes && e.crcBuf == [])
  {
    hide Update;
  }

  /** The last byte of the file. */
  lemma DataCompletes(d: Device, data: seq<byte>)
    requires Holding(d, d, []) && |data| == d.size
    ensures var e := OnBytes(d, data).0;
      && e.mode == CrcBytes && e.crcBuf == [] && Proper(e) && e.file == data && e.crc == Crc16(data)
      && e.started == d.started && e.flashing == d.flashing && e.accepts == d.accepts
  {
    hide OnBytes, Update, Crc16;
    var before, b := data[..|data| - 1], data[|data| - 1];
    assert data == before + [b];
    DataBegins(d, before);
    OnBytesAppend(d, before, b);
    DataByteStores(OnBytes(d, before).0, b);
    DataByteKeeps(OnBytes(d, before).0, b);
    var e := OnBytes(d, data).0;
    assert e.file + [] == e.file;
  }

  lemma CrcCompletes(d: Device, c: seq<byte>)
    requires d.mode == CrcBytes && d.crcBuf == [] && Proper(d) && |c| <= 2
    ensures var e := OnBytes(d, c).0;
      if |c| < 2 then e.started == d.started
      else if FromLe16(c[0], c[1]) != d.crc then e == Reset(d)
      else e == Reset(d.(started := d.started + [d.file], flashing := d.flashing || d.accepts))
  {
    hide OnBytes, FromLe16;
    OnNothing(d);
    if |c| > 0 {
      assert [] + [c[0]] == c[..1];
      OnBytesAppend(d, [], c[0]);
      if |c| == 2 {
        assert c[..1] + [c[1]] == c && [c[0]] + [c[1]] == c;
        OnBytesAppend(d, c[..1], c[1]);
      } else {
        assert c[..1] == c;
      }
    }
  }

  /** A whole file with its checksum, behind its header: the scan begins again. */
  lemma FileCompletes(d: Device, s: seq<byte>)
    requires Holding(d, d, []) && |s| == d.size + 2
    ensures var e := OnBytes(d, s).0; var file := s[..d.size];
      && Fresh(e) && e.accepts == d.accepts
      && if FromLe16(s[d.size], s[d.size + 1]) != Crc16(file) then e.started == d.started && e.flashing == d.flashing
         else e.started == d.started + [file] && e.flashing == (d.flashing || d.accepts)
  {
    hide OnBytes, Crc16, FromLe16, Stored;
    var file, c := s[..d.size], s[d.size..];
    assert s == file + c;
    OnBytesConcat(d, file, c);
    DataCompletes(d, file);
    CrcCompletes(OnBytes(d, file).0, c);
  }

  lemma FileIsCutShort(d: Device, s: seq<byte>)
    requires Holding(d, d, []) && |s| < d.size + 2
    ensures OnBytes(d, s).0.started == d.started
  {
    hide OnBytes, Crc16, Stored;
    if |s| < d.size {
      DataBegins(d, s);
    } else {
      var file, c := s[..d.size], s[d.size..];
      assert s == file + c;
      OnBytesConcat(d, file, c);
      DataCompletes(d, file);
      CrcCompletes(OnBytes(d, file).0, c);
    }
  }

  lemma NothingHeld(d: Device)
    requires d.mode == Data && Proper(d) && d.file == [] && d.buf == [] && d.written == 0 && d.crc == START
    ensures Holding(d, d, [])
  {
    EmptyIsStart();
    assert d.file + d.buf == [];
  }

  /**
   On every stream, the files that flashing is started with are exactly those in the stream, in their
   order: no other, no byte more or less, and none is missed.
   */
  lemma {:induction false} FlashedAreFilesInStream(d: Device, s: seq<byte>)
    requires Fresh(d)
    ensures OnBytes(d, s).0.started == d.started + FilesIn(s, d.flashing, d.accepts)
    decreases |s|, 0
  {
    hide OnBytes, FromLe32, FilesBehind, EndsWith, Reset;
    var m := MagicEnd(s, 0);
    ScanFindsMagic(d, s);
    if m <= |s| {
      var found, rest := OnBytes(d, s[..m]).0, s[m..];
      assert s == s[..m] + rest;
      OnBytesConcat(d, s[..m], rest);
      if |rest| < 4 {
        HeaderBegins(found, rest);
      } else {
        var h, behind := s[m..m + 4], s[m + 4..];
        assert rest == h + behind;
        OnBytesConcat(found, h, behind);
        HeaderCompletes(found, h);
        FilesFollow(found, OnBytes(found, h).0, FromLe32(h), behind);
      }
    }
  }

  /** The same from a size on. */
  lemma {:induction false} FilesFollow(d: Device, e: Device, n: nat, s: seq<byte>)
    requires d.mode == Header && Proper(d)
    requires if n == 0 || n > MAX_FIRMWARE_SIZE || d.flashing then e == Reset(d)
             else exists h :: e == d.(mode := Data, header := h, size := n, written := 0, crc := START, file := [])
    ensures OnBytes(e, s).0.started == d.started + FilesBehind(n, s, d.flashing, d.accepts)
    decreases |s|, 1
  {
    hide OnBytes, Holding, FromLe16, Crc16, FilesIn;
    if n == 0 || n > MAX_FIRMWARE_SIZE || d.flashing {
      FlashedAreFilesInStream(e, s);
    } else {
      NothingHeld(e);
      if |s| < n + 2 {
        FileIsCutShort(e, s);
      } else {
        var whole, tail := s[..n + 2], s[n + 2..];
        assert s == whole + tail && whole[..n] == s[..n];
        OnBytesConcat(e, whole, tail);
        FileCompletes(e, whole);
        FlashedAreFilesInStream(OnBytes(e, whole).0, tail);
      }
    }
  }

  /** Behind this size the stream goes on with the file in one piece and its checksum. */
  predicate SizedAt(n: nat, s: seq<byte>, file: seq<byte>) {
    && 0 < |file| == n <= 28672 && n + 2 <= |s| && s[..n] == file
    && FromLe16(s[n], s[n + 1]) == Crc16(file)
  }

  /** Each of them stands in the stream in one piece, between magic and size and its checksum. */
  ghost predicate PacketAt(s: seq<byte>, i: nat, file: seq<byte>) {
    && i + 8 <= |s| && s[i..i + 4] == MAGIC && SizedAt(FromLe32(s[i + 4..i + 8]), s[i + 8..], file)
  }

  lemma PacketBehind(s: seq<byte>, k: nat, i: nat, file: seq<byte>)
    requires k <= |s| && PacketAt(s[k..], i, file)
    ensures PacketAt(s, k + i, file)
  {
    hide FromLe32, SizedAt;
    var j := k + i;
    assert s[j..j + 4] == s[k..][i..i + 4] && s[j + 4..j + 8] == s[k..][i + 4..i + 8];
    assert s[j + 8..] == s[k..][i + 8..];
  }

  lemma PacketBegins(s: seq<byte>, m: nat, file: seq<byte>) returns (i: nat)
    requires m + 4 <= |s| && EndsWith(s[..m], MAGIC) && SizedAt(FromLe32(s[m..m + 4]), s[m + 4..], file)
    ensures PacketAt(s, i, file)
  {
    hide FromLe32, SizedAt;
    i := m - 4;
    assert s[..m][m - 4..] == s[i..i + 4] && s[i + 4..i + 8] == s[m..m + 4];
  }

  lemma {:induction false} FilesArePackets(s: seq<byte>, flashing: bool, accepts: bool, file: seq<byte>) returns (i: nat)
    requires file in FilesIn(s, flashing, accepts)
    ensures PacketAt(s, i, file)
    decreases |s|
  {
    hide FromLe32, FilesBehind, SizedAt, PacketAt;
    var m := MagicEnd(s, 0);
    var n, rest := FromLe32(s[m..m + 4]), s[m + 4..];
    if SizedAt(n, rest, file) {
      i := PacketBegins(s, m, file);
    } else {
      var k, flash := FileIsFurtherOn(n, rest, flashing, accepts, file);
      var j := FilesArePackets(rest[k..], flash, accepts, file);
      PacketBehind(rest, k, j, file);
      PacketBehind(s, m + 4, k + j, file);
      i := m + 4 + (k + j);
    }
  }

  lemma FileIsFurtherOn(n: nat, s: seq<byte>, flashing: bool, accepts: bool, file: seq<byte>)
    returns (k: nat, flash: bool)
    requires file in FilesBehind(n, s, flashing, accepts) && !SizedAt(n, s, file)
    ensures k <= |s| && file in FilesIn(s[k..], flash, accepts)
  {
    hide FromLe16, Crc16, FilesIn;
    if n == 0 || n > MAX_FIRMWARE_SIZE || flashing {
      k, flash := 0, flashing;
      assert s[0..] == s;
    } else {
      k, flash := n + 2, flashing || (accepts && FromLe16(s[n], s[n + 1]) == Crc16(s[..n]));
    }
  }
}
