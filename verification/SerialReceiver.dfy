/** The receiver as the object it is: buffers filled in place, one byte at a time. */
module SerialReceivers {
  import opened Crc
  import opened SerialFirmware

  class SerialFirmwareReceiver {
    var mode: Mode
    var magicPos: nat
    const headerBuf: array<byte>
    var headerPos: nat
    var firmwareSize: nat
    var bytesWritten: nat
    const writeBuf: array<byte>
    var writeBufLen: nat
    var runningCrc: bv16
    const crcBuf: array<byte>
    var crcPos: nat
    /** The stored file, and the flasher: whether it is active, would start, and what it was started with. */
    var outFile: seq<byte>
    var flasherActive: bool
    const flasherStarts: bool
    var started: seq<seq<byte>>

    ghost predicate Valid()
      reads this
    {
      && headerBuf.Length == 4 && writeBuf.Length == WRITE_CHUNK && crcBuf.Length == 2
      && headerBuf != writeBuf && headerBuf != crcBuf && writeBuf != crcBuf
      && headerPos <= 4 && writeBufLen <= WRITE_CHUNK && crcPos <= 2
    }

    ghost function View(): Device
      reads this, headerBuf, writeBuf, crcBuf
      requires Valid()
    {
      Device(mode, magicPos, headerBuf[..headerPos], firmwareSize, bytesWritten, writeBuf[..writeBufLen], runningCrc,
             crcBuf[..crcPos], outFile, flasherActive, flasherStarts, started)
    }

    constructor (flasherActive: bool, flasherStarts: bool)
      ensures Valid() && Proper(View())
      ensures View() == Device(Idle, 0, [], 0, 0, [], START, [], [], flasherActive, flasherStarts, [])
      ensures fresh(headerBuf) && fresh(writeBuf) && fresh(crcBuf)
    {
      headerBuf := new byte[4](_ => 0);
      writeBuf := new byte[WRITE_CHUNK](_ => 0);
      crcBuf := new byte[2](_ => 0);
      mode, magicPos, headerPos, firmwareSize, bytesWritten, writeBufLen, crcPos := Idle, 0, 0, 0, 0, 0, 0;
      runningCrc := START;
      outFile, started := [], [];
      this.flasherActive, this.flasherStarts := flasherActive, flasherStarts;
      new;
      assert headerBuf[..headerPos] == [] && writeBuf[..writeBufLen] == [] && crcBuf[..crcPos] == [];
    }

    method DoReset()
      requires Valid()
      modifies this
      ensures Valid() && View() == Reset(old(View()))
    {
      hide Proper;
      NothingRead();
      mode := Idle;
      magicPos := 0;
      headerPos := 0;
      firmwareSize := 0;
      bytesWritten := 0;
      writeBufLen := 0;
      crcPos := 0;
      runningCrc := START;
    }

    lemma NothingRead()
      ensures headerBuf[..0] == [] && writeBuf[..0] == [] && crcBuf[..0] == []
    {
    }

    /** run, for one byte that is available while the receiver scans. */
    method Scan(b: byte)
      requires Valid() && mode == Idle && Proper(View())
      modifies this
      ensures Valid() && View() == ScanByte(old(View()), b)
    {
      if b == MAGIC[magicPos] {
        magicPos := magicPos + 1;
        if magicPos == 4 {
          headerPos := 0;
          mode := Header;
        }
      } else {
        magicPos := if b == MAGIC[0] then 1 else 0;
      }
    }

    /** processByte in the header. */
    method ProcessHeader(b: byte) returns (replies: seq<Reply>)
      requires Valid() && mode == Header && Proper(View())
      modifies this, headerBuf
      ensures Valid() && (View(), replies) == HeaderByte(old(View()), b)
    {
      hide FromLe32;
      replies := [];
      headerBuf[headerPos] := b;
      headerPos := headerPos + 1;
      assert headerBuf[..headerPos] == old(headerBuf[..headerPos]) + [b];
      if headerPos == 4 {
        firmwareSize := FromLe32(headerBuf[..4]);
        if firmwareSize == 0 || firmwareSize > MAX_FIRMWARE_SIZE {
          DoReset();
          return [Err];
        }
        if flasherActive {
          DoReset();
          return [Err];
        }
        outFile := [];
        bytesWritten := 0;
        runningCrc := START;
        replies := [Ready];
        mode := Data;
      }
    }

    /** processByte in the data: a full chunk, or the last one, is flushed and acknowledged. */
    method ProcessData(b: byte) returns (replies: seq<Reply>)
      requires Valid() && mode == Data && Proper(View())
      modifies this, writeBuf
      ensures Valid() && (View(), replies) == DataByte(old(View()), b)
    {
      hide Update;
      replies := [];
      Append(b);
      if writeBufLen == WRITE_CHUNK || bytesWritten == firmwareSize {
        Flush();
        replies := [ChunkAck];
      }
      if bytesWritten == firmwareSize {
        crcPos := 0;
        mode := CrcBytes;
      }
    }

    method Append(b: byte)
      requires Valid() && writeBufLen < WRITE_CHUNK
      modifies this, writeBuf
      ensures Valid()
      ensures var d := old(View()); View() == d.(buf := d.buf + [b], crc := Update(d.crc, b), written := d.written + 1)
    {
      hide Update;
      writeBuf[writeBufLen] := b;
      writeBufLen := writeBufLen + 1;
      assert writeBuf[..writeBufLen] == old(writeBuf[..writeBufLen]) + [b];
      runningCrc := Crc16Update(runningCrc, b);
      bytesWritten := bytesWritten + 1;
    }

    method Flush()
      requires Valid()
      modifies this
      ensures Valid() && View() == old(View()).(file := old(View()).file + old(View()).buf, buf := [])
    {
      outFile := outFile + writeBuf[..writeBufLen];
      writeBufLen := 0;
    }

    /** processByte in the checksum: the campaign is started if it matches. */
    method ProcessCrc(b: byte) returns (replies: seq<Reply>)
      requires Valid() && mode == CrcBytes && Proper(View())
      modifies this, crcBuf
      ensures Valid() && (View(), replies) == CrcByte(old(View()), b)
    {
      hide FromLe16;
      replies := [];
      crcBuf[crcPos] := b;
      crcPos := crcPos + 1;
      assert crcBuf[..crcPos] == old(crcBuf[..crcPos]) + [b];
      if crcPos == 2 {
        var receivedCrc := FromLe16(crcBuf[0], crcBuf[1]);
        if receivedCrc != runningCrc {
          DoReset();
          return [Err];
        }
        started := started + [outFile];
        flasherActive := flasherActive || flasherStarts;
        replies := [if flasherStarts then Ok else Err];
        DoReset();
      }
    }

    /** One byte from the serial line, whatever the receiver is doing. */
    method ProcessByte(b: byte) returns (replies: seq<Reply>)
      requires Valid() && Proper(View())
      modifies this, headerBuf, writeBuf, crcBuf
      ensures Valid() && (View(), replies) == OnByte(old(View()), b)
    {
      hide ScanByte, HeaderByte, DataByte, CrcByte, Update;
      replies := [];
      match mode {
        case Idle => Scan(b);
        case Header => replies := ProcessHeader(b);
        case Data => replies := ProcessData(b);
        case CrcBytes => replies := ProcessCrc(b);
      }
    }

    /** A whole stream: flashing is started with exactly the files in it. */
    method ProcessStream(stream: seq<byte>)
      requires Valid() && Fresh(View())
      modifies this, headerBuf, writeBuf, crcBuf
      ensures Valid() && View() == OnBytes(old(View()), stream).0
      ensures started == old(started) + FilesIn(stream, old(flasherActive), flasherStarts)
    {
      hide OnByte, OnBytes, FilesIn;
      ghost var before := View();
      OnNothing(before);
      for i := 0 to |stream|
        invariant Valid() && Proper(View()) && View() == OnBytes(before, stream[..i]).0
      {
        OnBytesAppend(before, stream[..i], stream[i]);
        assert stream[..i + 1] == stream[..i] + [stream[i]];
        var replies := ProcessByte(stream[i]);
      }
      assert stream[..|stream|] == stream;
      FlashedAreFilesInStream(before, stream);
    }
  }
}
