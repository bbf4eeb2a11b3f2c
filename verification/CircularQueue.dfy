/**
 CircularQueue (lib/Lightnet/Utils/CircularQueue.cpp): variable-length records kept contiguous in
 one buffer. A record that does not fit behind the newest one goes to the front of the buffer, and
 the soft tail remembers where the records before it stop.
 */
module CircularQueues {
  import opened Bytes

  lemma FramesFirst(records: seq<seq<byte>>)
    requires Short(records) && records != []
    ensures var bytes, first := Frames(records), records[0];
            && |bytes| >= 2 + |first|
            && FromLe16(bytes[0], bytes[1]) == |first|
            && bytes[2..2 + |first|] == first
            && bytes[2 + |first|..] == Frames(records[1..])
  {
  }

  /**
   How the records lie in a buffer: from the read pointer to the write pointer, or, when some went
   to the front, from the read pointer to the soft tail and on from the front to the write pointer.
   */
  predicate LaidOut(buffer: seq<byte>, readAt: nat, writeAt: nat, softTail: nat,
                    older: seq<seq<byte>>, newer: seq<seq<byte>>) {
    && Short(older) && Short(newer)
    && if newer == [] then
         && readAt <= writeAt <= |buffer| == softTail
         && buffer[readAt..writeAt] == Frames(older)
       else
         && 0 < writeAt <= readAt <= softTail <= |buffer|
         && buffer[readAt..softTail] == Frames(older) && buffer[..writeAt] == Frames(newer)
  }

  lemma NoFrames()
    ensures Frames([]) == []
  {
  }

  lemma LaidOutEmpty(buffer: seq<byte>, at: nat)
    requires at <= |buffer|
    ensures LaidOut(buffer, at, at, |buffer|, [], [])
  {
  }

  lemma SliceOfSlice(s: seq<byte>, lo: nat, hi: nat, i: nat, j: nat)
    requires i <= j <= hi - lo && hi <= |s|
    ensures s[lo..hi][i..j] == s[lo + i..lo + j]
  {
    var a, b := s[lo..hi][i..j], s[lo + i..lo + j];
    assert |a| == |b|;
    assert forall k :: 0 <= k < |a| ==> a[k] == b[k];
  }

  /** The bytes at the read pointer are the oldest record, and dropping them leaves the others. */
  lemma TakeFirst(buffer: seq<byte>, readAt: nat, end: nat, records: seq<seq<byte>>)
    requires readAt <= end <= |buffer| && Short(records) && records != []
    requires buffer[readAt..end] == Frames(records)
    ensures var first := records[0];
            && readAt + 2 + |first| <= end
            && FromLe16(buffer[readAt], buffer[readAt + 1]) == |first|
            && buffer[readAt + 2..readAt + 2 + |first|] == first
            && buffer[readAt + 2 + |first|..end] == Frames(records[1..])
  {
    hide Frames;
    var bytes := buffer[readAt..end];
    var first := records[0];
    FramesFirst(records);
    assert bytes[0] == buffer[readAt] && bytes[1] == buffer[readAt + 1];
    SliceOfSlice(buffer, readAt, end, 2, 2 + |first|);
    SliceOfSlice(buffer, readAt, end, 2 + |first|, |bytes|);
  }

  /** At the soft tail nothing older is left, and the newer records are all there is. */
  lemma SoftTailReached(buffer: seq<byte>, writeAt: nat, softTail: nat,
                        older: seq<seq<byte>>, newer: seq<seq<byte>>)
    requires LaidOut(buffer, softTail, writeAt, softTail, older, newer) && older + newer != []
    ensures older == [] && LaidOut(buffer, 0, writeAt, |buffer|, newer, [])
  {
  }

  /** Before the soft tail there is something older to take. */
  lemma TakeOldest(buffer: seq<byte>, readAt: nat, writeAt: nat, softTail: nat,
                   older: seq<seq<byte>>, newer: seq<seq<byte>>)
    requires LaidOut(buffer, readAt, writeAt, softTail, older, newer)
    requires older + newer != [] && (newer != [] ==> readAt != softTail)
    ensures older != []
    ensures var first := older[0];
            && readAt + 2 + |first| <= |buffer|
            && FromLe16(buffer[readAt], buffer[readAt + 1]) == |first|
            && buffer[readAt + 2..readAt + 2 + |first|] == first
            && LaidOut(buffer, readAt + 2 + |first|, writeAt, softTail, older[1..], newer)
  {
    TakeFirst(buffer, readAt, if newer == [] then writeAt else softTail, older);
  }

  /** `after` is `before` with the framed record written at `at`. */
  predicate Wrote(before: seq<byte>, after: seq<byte>, at: nat, record: seq<byte>)
    requires |record| < 0x1_0000
  {
    && at + 2 + |record| <= |before| == |after|
    && after == before[..at] + Frame(record) + before[at + 2 + |record|..]
  }

  /** The two length bytes and the copied record together are the frame. */
  lemma FrameWritten(before: seq<byte>, mid: seq<byte>, after: seq<byte>, at: nat, record: seq<byte>,
                     lo: byte, hi: byte)
    requires |record| < 0x1_0000 && at + 2 + |record| <= |before|
    requires lo == |record| % 256 && hi == |record| / 256 && mid == before[at + 1 := hi][at := lo]
    requires after == mid[..at + 2] + record + mid[at + 2 + |record|..]
    ensures Wrote(before, after, at, record)
  {
    assert mid[..at + 2] == before[..at] + Le16(|record|);
    assert mid[at + 2 + |record|..] == before[at + 2 + |record|..];
    Assoc(before[..at], Le16(|record|), record);
  }

  lemma PutBehind(before: seq<byte>, after: seq<byte>, readAt: nat, writeAt: nat,
                  older: seq<seq<byte>>, record: seq<byte>)
    requires LaidOut(before, readAt, writeAt, |before|, older, []) && |record| < 0x1_0000
    requires Wrote(before, after, writeAt, record)
    ensures LaidOut(after, readAt, writeAt + 2 + |record|, |after|, older + [record], [])
  {
    hide Frames, Frame;
    FramesAppend(older, record);
    assert after[readAt..writeAt + 2 + |record|] == before[readAt..writeAt] + Frame(record);
  }

  lemma PutInFront(before: seq<byte>, after: seq<byte>, readAt: nat, writeAt: nat, softTail: nat,
                   older: seq<seq<byte>>, newer: seq<seq<byte>>, record: seq<byte>)
    requires Short(older) && Short(newer) && |record| < 0x1_0000
    requires writeAt + 2 + |record| <= readAt <= softTail <= |before|
    requires before[readAt..softTail] == Frames(older) && before[..writeAt] == Frames(newer)
    requires Wrote(before, after, writeAt, record)
    ensures LaidOut(after, readAt, writeAt + 2 + |record|, softTail, older, newer + [record])
  {
    hide Frames, Frame;
    FramesAppend(newer, record);
    assert after[readAt..softTail] == before[readAt..softTail];
    assert after[..writeAt + 2 + |record|] == before[..writeAt] + Frame(record);
  }

  /** Whether there is room for `need` bytes in one piece: behind the newest record, or in front. */
  predicate Room(length: nat, readAt: nat, writeAt: nat, empty: bool, need: nat) {
    if writeAt == readAt && !empty then false
    else if writeAt >= readAt then length - writeAt >= need || readAt >= need
    else readAt - writeAt >= need
  }

  /** Where the write pointer is after a record of this size has been taken. */
  function Written(length: nat, readAt: nat, writeAt: nat, need: nat): nat {
    if writeAt >= readAt && length - writeAt < need then need else writeAt + need
  }

  class CircularQueue {
    const buffer: array<byte>
    var softTail: nat
    var writeAt: nat
    var readAt: nat
    var itemsCount: nat
    /** The records before the soft tail, and those that went to the front of the buffer. */
    ghost var older: seq<seq<byte>>
    ghost var newer: seq<seq<byte>>

    ghost predicate Valid()
      reads this, buffer
    {
      && itemsCount == |older| + |newer| && LaidOut(buffer[..], readAt, writeAt, softTail, older, newer)
      && readAt != 1 && writeAt != 1
    }

    /** The queued records, oldest first. */
    ghost function Contents(): seq<seq<byte>>
      reads this
    {
      older + newer
    }

    constructor (bufferSize: nat)
      ensures Valid() && fresh(buffer) && buffer.Length == bufferSize && Contents() == []
      ensures readAt == writeAt == 0
    {
      buffer := new byte[bufferSize](_ => 0);
      softTail, readAt, writeAt, itemsCount := bufferSize, 0, 0, 0;
      older, newer := [], [];
      new;
      LaidOutEmpty(buffer[..], 0);
    }

    method Reset()
      modifies this
      ensures Valid() && Contents() == [] && readAt == writeAt == 0
    {
      softTail, readAt, writeAt, itemsCount := buffer.Length, 0, 0, 0;
      older, newer := [], [];
      LaidOutEmpty(buffer[..], 0);
    }

    /** A record is taken exactly when there is room for it, and queued behind all the others. */
    method Enqueue(data: seq<byte>) returns (ok: bool)
      requires Valid() && |data| < 0x1_0000
      modifies this, buffer
      ensures Valid()
      ensures ok == old(Room(buffer.Length, readAt, writeAt, Contents() == [], 2 + |data|))
      ensures Contents() == if ok then old(Contents()) + [data] else old(Contents())
      ensures readAt == old(readAt)
      ensures writeAt == if ok then old(Written(buffer.Length, readAt, writeAt, 2 + |data|)) else old(writeAt)
    {
      hide Frames, Frame, LaidOut, Wrote;
      var dataSize := 2 + |data|;
      ghost var behind;
      ok, behind := Place(dataSize);
      if !ok {
        return;
      }
      itemsCount := itemsCount + 1;
      ghost var before, at := buffer[..], writeAt;
      WriteData(data);
      if behind {
        PutBehind(before, buffer[..], readAt, at, older, data);
        older := older + [data];
      } else {
        PutInFront(before, buffer[..], readAt, at, softTail, older, newer, data);
        newer := newer + [data];
      }
    }

    /** Where a record of this size goes: behind the newest one, at the front, or nowhere. */
    method Place(dataSize: nat) returns (ok: bool, ghost behind: bool)
      requires Valid() && dataSize >= 2
      modifies this`writeAt, this`softTail
      ensures ok == old(Room(buffer.Length, readAt, writeAt, Contents() == [], dataSize))
      ensures !ok ==> writeAt == old(writeAt) && softTail == old(softTail)
      ensures ok ==> writeAt + dataSize == old(Written(buffer.Length, readAt, writeAt, dataSize))
      ensures ok && behind ==>
        && newer == [] && writeAt + dataSize <= buffer.Length
        && LaidOut(buffer[..], readAt, writeAt, buffer.Length, older, []) && softTail == buffer.Length
      ensures ok && !behind ==>
        && writeAt + dataSize <= readAt <= softTail <= buffer.Length
        && Short(older) && Short(newer)
        && buffer[readAt..softTail] == Frames(older) && buffer[..writeAt] == Frames(newer)
    {
      hide Frames;
      behind := newer == [] && buffer.Length - writeAt >= dataSize;
      if writeAt == readAt && itemsCount != 0 {
        return false, behind;
      }
      if writeAt >= readAt {
        if buffer.Length - writeAt < dataSize && readAt < dataSize {
          return false, behind;
        }
        if buffer.Length - writeAt < dataSize {
          softTail := writeAt;
          writeAt := 0;
          NoFrames();
          assert buffer[..0] == [];
        }
      } else if readAt - writeAt < dataSize {
        return false, behind;
      }
      ok := true;
    }

    /** writeData: the length, then the bytes. */
    method WriteData(data: seq<byte>)
      requires |data| < 0x1_0000 && writeAt + 2 + |data| <= buffer.Length
      modifies this`writeAt, buffer
      ensures writeAt == old(writeAt) + 2 + |data|
      ensures Wrote(old(buffer[..]), buffer[..], old(writeAt), data)
    {
      hide Wrote;
      ghost var before: seq<byte>, at: nat := buffer[..], writeAt;
      var lo: byte, hi: byte := |data| % 256, |data| / 256;
      buffer[writeAt + 1] := hi;
      buffer[writeAt] := lo;
      writeAt := writeAt + 2;
      ghost var mid: seq<byte> := buffer[..];
      assert mid == before[at + 1 := hi][at := lo];
      CopyBytes(data);
      FrameWritten(before, mid, buffer[..], at, data, lo, hi);
      writeAt := writeAt + |data|;
    }

    /** The memcpy to the write pointer. */
    method CopyBytes(data: seq<byte>)
      requires writeAt + |data| <= buffer.Length
      modifies buffer
      ensures buffer[..] == old(buffer[..writeAt]) + data + old(buffer[writeAt + |data|..])
    {
      forall i | 0 <= i < |data| {
        buffer[writeAt + i] := data[i];
      }
    }

    /**
     The oldest record, unchanged and in one piece at `data`; the buffer itself is not touched, so
     the bytes stay there until a later enqueue reuses them.
     */
    method Dequeue() returns (ok: bool, data: nat, size: nat)
      requires Valid()
      modifies this
      ensures Valid()
      ensures ok == (old(Contents()) != [])
      ensures ok ==> data + size <= buffer.Length && buffer[data..data + size] == old(Contents())[0]
      ensures Contents() == if ok then old(Contents())[1..] else []
      ensures writeAt == old(writeAt) && readAt == if ok then data + size else old(readAt)
    {
      hide LaidOut;
      data, size := 0, 0;
      if itemsCount == 0 {
        return false, data, size;
      }
      itemsCount := itemsCount - 1;
      data, size := ReadData();
      ok := true;
    }

    /** At the soft tail, reading goes on at the front of the buffer. */
    method WrapAtSoftTail()
      requires LaidOut(buffer[..], readAt, writeAt, softTail, older, newer) && older + newer != []
      modifies this`readAt, this`softTail, this`older, this`newer
      ensures LaidOut(buffer[..], readAt, writeAt, softTail, older, newer)
      ensures newer != [] ==> readAt != softTail
      ensures Contents() == old(Contents())
    {
      hide LaidOut;
      if readAt == softTail {
        SoftTailReached(buffer[..], writeAt, softTail, older, newer);
        readAt := 0;
        softTail := buffer.Length;
        older, newer := newer, [];
      }
    }

    /** readData: the length, then a pointer to the bytes behind it. */
    method ReadData() returns (data: nat, size: nat)
      requires LaidOut(buffer[..], readAt, writeAt, softTail, older, newer) && older + newer != []
      modifies this`readAt, this`softTail, this`older, this`newer
      ensures LaidOut(buffer[..], readAt, writeAt, softTail, older, newer)
      ensures data + size <= buffer.Length && buffer[data..data + size] == old(Contents())[0]
      ensures Contents() == old(Contents())[1..]
      ensures readAt == data + size >= 2
    {
      hide LaidOut;
      ghost var bytes := buffer[..];
      WrapAtSoftTail();
      TakeOldest(bytes, readAt, writeAt, softTail, older, newer);
      size := 256 * (buffer[readAt + 1] as int);
      size := size + buffer[readAt];
      readAt := readAt + 2;
      data := readAt;
      readAt := readAt + size;
      assert buffer[data..data + size] == bytes[data..data + size];
      older := older[1..];
    }
  }

  /**
   Where the pointers of an empty queue can be: both at the same place, which is the front of the
   buffer or where some record ended.
   */
  predicate EmptyAt(length: nat, at: nat) {
    at <= length && at != 1
  }

  /** An empty queue is at such a place. */
  method WhereEmpty(q: CircularQueue) returns (at: nat)
    requires q.Valid() && q.Contents() == []
    ensures q.readAt == q.writeAt == at && EmptyAt(q.buffer.Length, at)
  {
    NoFrames();
    at := q.readAt;
  }

  /** And to every such place a record put into a fresh queue and taken out again leads. */
  method ReachEmpty(length: nat, at: nat) returns (q: CircularQueue)
    requires length < 0x1_0000 && EmptyAt(length, at)
    ensures fresh(q) && fresh(q.buffer) && q.Valid() && q.buffer.Length == length
    ensures q.Contents() == [] && q.readAt == q.writeAt == at
  {
    hide LaidOut, Frames;
    q := new CircularQueue(length);
    if at != 0 {
      var ok := q.Enqueue(seq(at - 2, _ => 0));
      var data, size;
      ok, data, size := q.Dequeue();
      var end := WhereEmpty(q);
    }
  }

  /**
   A record of three bytes goes into six bytes when they are new, and not when a record of two bytes
   has been there before, although the queue is empty again.
   */
  method SixByteBuffer(record: seq<byte>) returns (whenNew: bool, whenUsed: bool)
    requires |record| == 3
    ensures whenNew && !whenUsed
  {
    hide LaidOut, Frames;
    var q := ReachEmpty(6, 0);
    whenNew := q.Enqueue(record);
    q := ReachEmpty(6, 4);
    whenUsed := q.Enqueue(record);
  }

  /**
   An empty queue keeps its pointers where they are, so it may refuse a record that fits the buffer.
   It takes records of a size at every place it can get to exactly when two of them nearly fit. Two
   bytes in a buffer of two are the exception: they fill the buffer, and then it is at its end.
   */
  lemma EmptyQueueAlwaysTakes(length: nat, need: nat)
    requires need >= 2
    ensures (forall at: nat :: EmptyAt(length, at) ==> Room(length, at, at, true, need))
       <==> 2 * need <= length + 1 || need == length == 2
  {
    if 2 * need <= length + 1 || need == length == 2 {
      forall at: nat | EmptyAt(length, at) ensures Room(length, at, at, true, need) {
      }
    } else {
      var at := if need > length then 0 else need - 1;
      assert EmptyAt(length, at) && !Room(length, at, at, true, need);
    }
  }
}
