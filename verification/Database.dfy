/**
 Database over a random-access storage: the slot scans and in-place rewrites of
 lib/Lightnet/Common/Database/Database.hpp, driven through one shared cursor.
 */
module Storages {
  import opened Bytes
  import opened DatabaseFile

  /** A growable file with one cursor, as the in-memory storage implements it. */
  class Storage {
    var file: seq<byte>
    var pos: nat

    ghost predicate Valid()
      reads this
    {
      pos <= |file|
    }

    constructor ()
      ensures Valid() && file == []
    {
      file, pos := [], 0;
    }

    method Seek(offset: nat) returns (ok: bool)
      requires Valid()
      modifies this`pos
      ensures Valid()
      ensures ok == (offset <= |file|) && pos == if ok then offset else old(pos)
    {
      ok := offset <= |file|;
      if ok {
        pos := offset;
      }
    }

    method SeekForward(delta: nat) returns (ok: bool)
      requires Valid()
      modifies this`pos
      ensures Valid()
      ensures ok == (old(pos) + delta <= |file|) && pos == if ok then old(pos) + delta else old(pos)
    {
      ok := pos + delta <= |file|;
      if ok {
        pos := pos + delta;
      }
    }

    /** As many of the `n` bytes at the cursor as the file has. */
    method Read(n: nat) returns (data: seq<byte>)
      requires Valid()
      modifies this`pos
      ensures Valid()
      ensures pos == old(pos) + |data|
      ensures data == file[old(pos)..pos]
      ensures |data| == if old(pos) + n <= |file| then n else |file| - old(pos)
    {
      var available := |file| - pos;
      var count := if n < available then n else available;
      data := file[pos..pos + count];
      pos := pos + count;
    }

    method Write(data: seq<byte>) returns (count: nat)
      requires Valid()
      modifies this
      ensures Valid()
      ensures file == Overwrite(old(file), old(pos), data)
      ensures pos == old(pos) + |data| && count == |data|
    {
      if pos + |data| > |file| {
        file := Resize(file, pos + |data|);
      }
      file := file[..pos] + data + file[pos + |data|..];
      pos := pos + |data|;
      count := |data|;
    }

    method Truncate(n: nat)
      requires Valid()
      modifies this
      ensures Valid()
      ensures file == Resize(old(file), n)
      ensures pos == if old(pos) > n then n else old(pos)
    {
      file := Resize(file, n);
      if pos > n {
        pos := n;
      }
    }
  }
}

module Databases {
  import opened Bytes
  import opened DatabaseFile
  import opened DatabaseRuns
  import opened DatabaseCompaction
  import opened Storages

  /** The live records a callback sees: up to and including the first it rejects. */
  function Visited(live: seq<(nat, seq<byte>)>, accept: (nat, seq<byte>) -> bool): seq<(nat, seq<byte>)> {
    if live == [] then []
    else if accept(live[0].0, live[0].1) then [live[0]] + Visited(live[1..], accept)
    else [live[0]]
  }

  predicate AllAccepted(live: seq<(nat, seq<byte>)>, accept: (nat, seq<byte>) -> bool) {
    live == [] || (accept(live[0].0, live[0].1) && AllAccepted(live[1..], accept))
  }

  /** The first live record from `off` on, and where the scan ends when there is none. */
  function NextFrom(size: nat, file: seq<byte>, off: nat): (nat, bool)
    decreases |file| - off
  {
    if off + 1 + size > |file| then (off, false)
    else if Deleted(file[off]) then NextFrom(size, file, off + 1 + size)
    else (off, true)
  }

  /** The references met by asking for the next live record until there is none. */
  function Walk(size: nat, file: seq<byte>, off: nat): seq<nat>
    decreases |file| - off
  {
    NextBounds(size, file, off);
    var (r, found) := NextFrom(size, file, off);
    if found then [r] + Walk(size, file, r + 1 + size) else []
  }

  lemma {:induction false} NextBounds(size: nat, file: seq<byte>, off: nat)
    ensures off <= NextFrom(size, file, off).0
    ensures NextFrom(size, file, off).1 <==> NextFrom(size, file, off).0 + 1 + size <= |file|
    decreases |file| - off
  {
    if off + 1 + size <= |file| {
      NextBounds(size, file, off + 1 + size);
    }
  }

  function Offsets(live: seq<(nat, seq<byte>)>): seq<nat> {
    if live == [] then [] else [live[0].0] + Offsets(live[1..])
  }

  /** Stepping through the file one live record at a time visits what one scan visits. */
  lemma {:induction false} WalkVisitsLive(size: nat, file: seq<byte>, off: nat)
    ensures Walk(size, file, off) == Offsets(LiveFrom(size, file, off))
    decreases |file| - off
  {
    if off + 1 + size <= |file| {
      WalkVisitsLive(size, file, off + 1 + size);
    }
  }

  lemma {:induction false} OffsetsAt(live: seq<(nat, seq<byte>)>, i: nat)
    requires i < |live|
    ensures |Offsets(live)| == |live| && Offsets(live)[i] == live[i].0
  {
    if |live| > 1 {
      OffsetsAt(live[1..], if i == 0 then 0 else i - 1);
    }
  }

  /** Stepping visits exactly the references of the table, each once and in ascending order. */
  lemma WalkIsSortedTable(size: nat, file: seq<byte>)
    ensures forall i, j :: 0 <= i < j < |Walk(size, file, START)| ==>
      Walk(size, file, START)[i] < Walk(size, file, START)[j]
    ensures forall r: nat :: r in Walk(size, file, START) <==> r in Table(size, file)
  {
    hide Walk, LiveFrom;
    var live, walk := LiveFrom(size, file, START), Walk(size, file, START);
    WalkVisitsLive(size, file, START);
    LiveAscends(size, file, START);
    forall i: nat | i < |live| ensures |walk| == |live| && walk[i] == live[i].0 {
      OffsetsAt(live, i);
    }
    assert live == [] ==> walk == [];
    forall r: nat ensures r in walk <==> r in Table(size, file) {
      if r in Table(size, file) {
        LiveIsTable(size, file, START, r, Table(size, file)[r]);
        var i :| 0 <= i < |live| && live[i] == (r, Table(size, file)[r]);
        assert walk[i] == r;
      }
      if r in walk {
        var i :| 0 <= i < |walk| && walk[i] == r;
        assert live[i] in live;
        LiveIsTable(size, file, START, r, live[i].1);
      }
    }
  }

  lemma GrownThenWritten(file: seq<byte>, off: nat, data: seq<byte>)
    requires |file| <= off
    ensures Overwrite(Resize(file, off + |data|), off, data) == Overwrite(Resize(file, off), off, data)
  {
    assert Resize(file, off + |data|)[..off] == Resize(file, off);
  }

  lemma CountWraps(n: nat)
    ensures (n % 0x1_0000 + 1) % 0x1_0000 == (n + 1) % 0x1_0000
  {
  }

  /** `seen` is what the callback has been shown so far; the rest of the scan starts at `off`. */
  ghost predicate Visiting(size: nat, file: seq<byte>, off: nat, accept: (nat, seq<byte>) -> bool,
                           seen: seq<(nat, seq<byte>)>) {
    var live, rest := LiveFrom(size, file, START), LiveFrom(size, file, off);
    && Visited(live, accept) == seen + Visited(rest, accept)
    && AllAccepted(live, accept) == AllAccepted(rest, accept)
  }

  lemma VisitingStarts(size: nat, file: seq<byte>, accept: (nat, seq<byte>) -> bool)
    ensures Visiting(size, file, START, accept, [])
  {
  }

  lemma VisitingSkips(size: nat, file: seq<byte>, off: nat, accept: (nat, seq<byte>) -> bool,
                      seen: seq<(nat, seq<byte>)>)
    requires Visiting(size, file, off, accept, seen)
    requires off + 1 + size <= |file| && Deleted(file[off])
    ensures Visiting(size, file, off + 1 + size, accept, seen)
  {
  }

  lemma VisitingTakes(size: nat, file: seq<byte>, off: nat, accept: (nat, seq<byte>) -> bool,
                      seen: seq<(nat, seq<byte>)>)
    requires Visiting(size, file, off, accept, seen)
    requires off + 1 + size <= |file| && !Deleted(file[off])
    ensures var payload := PayloadAt(size, file, off);
            var live := LiveFrom(size, file, START);
            if accept(off, payload) then Visiting(size, file, off + 1 + size, accept, seen + [(off, payload)])
            else Visited(live, accept) == seen + [(off, payload)] && !AllAccepted(live, accept)
  {
    var payload := PayloadAt(size, file, off);
    var rest := LiveFrom(size, file, off + 1 + size);
    assert LiveFrom(size, file, off) == [(off, payload)] + rest;
    if accept(off, payload) {
      Assoc(seen, [(off, payload)], Visited(rest, accept));
    }
  }

  lemma VisitingEnds(size: nat, file: seq<byte>, off: nat, accept: (nat, seq<byte>) -> bool,
                     seen: seq<(nat, seq<byte>)>)
    requires Visiting(size, file, off, accept, seen) && off + 1 + size > |file|
    ensures Visited(LiveFrom(size, file, START), accept) == seen
    ensures AllAccepted(LiveFrom(size, file, START), accept)
  {
  }

  class Database {
    var storage: Storage?
    var isOpen: bool
    const size: nat
    const model: byte

    ghost predicate Valid()
      reads this, storage
    {
      storage != null ==> storage.Valid()
    }

    ghost predicate Ready()
      reads this
    {
      isOpen && storage != null
    }

    constructor (size: nat, model: byte)
      ensures Valid() && !Ready() && this.size == size && this.model == model
    {
      this.size, this.model := size, model;
      storage, isOpen := null, false;
    }

    /** create: whatever the storage held, it is now a file without slots. */
    method Create(backing: Storage)
      requires backing.Valid()
      modifies this, backing
      ensures Valid() && Ready() && storage == backing
      ensures backing.file == Created(model)
    {
      storage := backing;
      backing.Truncate(START);
      var ok := backing.Seek(0);
      var n := backing.Write([VERSION]);
      ok := backing.Seek(1);
      n := backing.Write([model, 0, 0]);
      isOpen := true;
    }

    method LiveCount() returns (live: nat)
      requires Valid()
      modifies storage
      ensures Valid() && (storage != null ==> storage.file == old(storage.file))
      ensures !Ready() ==> live == 0
      ensures Ready() ==>
        live == if |storage.file| < START then 0 else |LiveFrom(size, storage.file, START)| % 0x1_0000
    {
      if !isOpen || storage == null || |storage.file| < START {
        return 0;
      }
      ghost var file := storage.file;
      var len := |storage.file|;
      var ok := storage.Seek(START);
      var off := START;
      live := 0;
      ghost var seen := 0;
      while off + 1 + size <= len
        invariant Valid() && storage.file == file && off == storage.pos
        invariant live == seen % 0x1_0000
        invariant seen + |LiveFrom(size, file, off)| == |LiveFrom(size, file, START)|
        decreases len - off
      {
        var flags := storage.Read(1);
        if !Deleted(flags[0]) {
          CountWraps(seen);
          live := (live + 1) % 0x1_0000;
          seen := seen + 1;
        }
        ok := storage.SeekForward(size);
        off := off + 1 + size;
      }
    }

    method SlotCount() returns (slots: nat)
      requires Valid()
      ensures !Ready() ==> slots == 0
      ensures Ready() ==>
        slots == if |storage.file| < START then 0 else DatabaseRuns.SlotCount(size, storage.file)
    {
      if !isOpen || storage == null || |storage.file| < START {
        return 0;
      }
      SlotCountDivides(size, |storage.file|, START);
      slots := (|storage.file| - START) / (1 + size);
    }

    /** The flag byte at any offset of the file. */
    method ReadSlotFlagsAt(off: nat) returns (status: Status, flags: byte)
      requires Valid() && Ready()
      modifies storage
      ensures Valid() && storage.file == old(storage.file)
      ensures off < |storage.file| ==> status == Ok && flags == storage.file[off]
      ensures off == |storage.file| ==> status == ReadFailed
      ensures off > |storage.file| ==> status == SeekFailed
    {
      flags := 0;
      var ok := storage.Seek(off);
      if !ok {
        return SeekFailed, flags;
      }
      var data := storage.Read(1);
      if |data| != 1 {
        return ReadFailed, flags;
      }
      return Ok, data[0];
    }

    method WriteRecordPayloadAt(off: nat, payload: seq<byte>) returns (status: Status)
      requires Valid() && Ready() && off < |storage.file|
      modifies storage
      ensures Valid() && status == Ok
      ensures storage.file == Overwrite(old(storage.file), off + 1, payload)
    {
      var ok := storage.Seek(off + 1);
      var n := storage.Write(payload);
      status := Ok;
    }

    method WriteLiveRecordSlot(off: nat, payload: seq<byte>) returns (status: Status)
      requires Valid() && Ready() && off <= |storage.file|
      modifies storage
      ensures Valid() && status == Ok
      ensures storage.file == Overwrite(old(storage.file), off, [0] + payload)
    {
      var ok := storage.Seek(off);
      var n := storage.Write([0]);
      OverwriteInTwo(old(storage.file), off, 0, payload);
      status := WriteRecordPayloadAt(off, payload);
    }

    /** Appends a slot: the file is grown first, then the slot is written. */
    method AppendRecordSlot(off: nat, payload: seq<byte>) returns (status: Status)
      requires Valid() && Ready() && |payload| == size && |storage.file| <= off
      modifies storage
      ensures Valid() && status == Ok
      ensures storage.file == Overwrite(Resize(old(storage.file), off), off, [0] + payload)
    {
      storage.Truncate(off + 1 + size);
      status := WriteLiveRecordSlot(off, payload);
      GrownThenWritten(old(storage.file), off, [0] + payload);
    }

    /** read: what the reference finds, for any reference at all. */
    method ReadRecord(r: nat) returns (status: Status, payload: seq<byte>)
      requires Valid()
      modifies storage
      ensures Valid() && (storage != null ==> storage.file == old(storage.file))
      ensures !Ready() <==> status == NotOpen
      ensures Ready() ==>
        match Lookup(size, storage.file, r)
        case Found(p) => status == Ok && payload == p
        case Tombstone => status == RecordDeleted
        case PastEnd => status == SeekFailed
        case CutShort => status == ReadFailed
    {
      payload := [];
      if !isOpen || storage == null {
        return NotOpen, payload;
      }
      var flags: byte;
      status, flags := ReadSlotFlagsAt(r);
      if status != Ok {
        return;
      }
      if Deleted(flags) {
        return RecordDeleted, payload;
      }
      var ok := storage.Seek(r + 1);
      payload := storage.Read(size);
      if |payload| != size {
        return ReadFailed, payload;
      }
    }

    method ReplaceSerialized(r: nat, payload: seq<byte>) returns (status: Status)
      requires Valid() && |payload| == size
      modifies storage
      ensures Valid()
      ensures !Ready() <==> status == NotOpen
      ensures Ready() ==> storage.file == Replaced(old(storage.file), r, payload)
      ensures Ready() ==> status == FlagStatus(old(storage.file), r)
    {
      if !isOpen || storage == null {
        return NotOpen;
      }
      var flags: byte;
      status, flags := ReadSlotFlagsAt(r);
      if status != Ok {
        return;
      }
      if Deleted(flags) {
        return RecordDeleted;
      }
      status := WriteRecordPayloadAt(r, payload);
    }

    method Remove(r: nat) returns (status: Status)
      requires Valid()
      modifies storage
      ensures Valid()
      ensures !Ready() <==> status == NotOpen
      ensures Ready() ==> storage.file == Removed(old(storage.file), r)
      ensures Ready() ==> status == FlagStatus(old(storage.file), r)
    {
      if !isOpen || storage == null {
        return NotOpen;
      }
      var flags: byte;
      status, flags := ReadSlotFlagsAt(r);
      if status != Ok {
        return;
      }
      if Deleted(flags) {
        return RecordDeleted;
      }
      var ok := storage.Seek(r);
      var n := storage.Write([MarkDeleted(flags)]);
    }

    /** insertSerialized: the first deleted slot is reused, else a slot is appended. */
    method InsertSerialized(payload: seq<byte>) returns (status: Status, r: nat)
      requires Valid() && |payload| == size
      modifies storage
      ensures Valid()
      ensures status == if Ready() then Ok else NotOpen
      ensures Ready() ==> r == Target(size, old(storage.file))
      ensures Ready() ==> storage.file == Inserted(size, old(storage.file), payload)
    {
      r := 0;
      if !isOpen || storage == null {
        return NotOpen, r;
      }
      var fileSize := |storage.file|;
      var reuse := false;
      if fileSize >= START {
        r, reuse := FindFree();
      }
      if reuse {
        status := WriteLiveRecordSlot(r, payload);
      } else {
        FreeIsInFile(size, storage.file, START);
        r := if fileSize >= START then fileSize else START;
        status := AppendRecordSlot(r, payload);
      }
    }

    /** The scan of insertSerialized for a deleted slot. */
    method FindFree() returns (r: nat, reuse: bool)
      requires Valid() && Ready() && |storage.file| >= START
      modifies storage
      ensures Valid() && storage.file == old(storage.file)
      ensures reuse == (Target(size, storage.file) < |storage.file|)
      ensures reuse ==> r == Target(size, storage.file)
    {
      ghost var file := storage.file;
      var len := |storage.file|;
      var ok := storage.Seek(START);
      r, reuse := START, false;
      while r + 1 + size <= len
        invariant Valid() && storage.file == file && r == storage.pos
        invariant FreeFrom(size, file, r) == FreeFrom(size, file, START)
        decreases len - r
      {
        var flags := storage.Read(1);
        if Deleted(flags[0]) {
          reuse := true;
          return;
        }
        ok := storage.SeekForward(size);
        r := r + 1 + size;
      }
    }

    /** compact: one pass that packs the live slots to the front, then cuts the file off. */
    method Compact() returns (status: Status)
      requires Valid()
      modifies storage
      ensures Valid()
      ensures !Ready() <==> status == NotOpen
      ensures Ready() && |old(storage.file)| < START ==>
        status == FileTooShort && storage.file == old(storage.file)
      ensures Ready() && |old(storage.file)| >= START ==>
        status == Ok && storage.file == Compacted(size, old(storage.file))
    {
      hide Compacted, Packed, PackedSlot, Overwrite;
      if !isOpen || storage == null {
        return NotOpen;
      }
      if |storage.file| < START {
        return FileTooShort;
      }
      ghost var before := storage.file;
      var len := |storage.file|;
      var w := START;
      var ok := storage.Seek(START);
      var off := START;
      MidwayStart(size, before);
      while off + 1 + size <= len
        invariant Valid() && |storage.file| == len
        invariant off + 1 + size <= len ==> off == storage.pos
        invariant Midway(size, before, storage.file, off, w)
        decreases len - off
      {
        off, w := CompactOne(before, off, w);
      }
      MidwayEnd(size, before, storage.file, off, w);
      storage.Truncate(w);
      status := Ok;
    }

    /** One slot of the pass: dropped, moved to the front, or left in place. */
    method CompactOne(ghost before: seq<byte>, off: nat, w: nat) returns (off1: nat, w1: nat)
      requires Valid() && Ready()
      requires off + 1 + size <= |storage.file| && off == storage.pos
      requires Midway(size, before, storage.file, off, w)
      modifies storage
      ensures Valid() && |storage.file| == |old(storage.file)|
      ensures off1 == off + 1 + size
      ensures off1 + 1 + size <= |storage.file| ==> off1 == storage.pos
      ensures Midway(size, before, storage.file, off1, w1)
    {
      hide Midway, Overwrite, PackedSlot;
      ghost var file := storage.file;
      var flags := storage.Read(1);
      off1, w1 := off + 1 + size, w;
      if Deleted(flags[0]) {
        var ok := storage.SeekForward(size);
        MidwayDrop(size, before, file, off, w);
        return;
      }
      if off != w {
        var payload := storage.Read(size);
        WithinMidway(size, before, file, off, w);
        var status := WriteLiveRecordSlot(w, payload);
        MovedSlot(size, file, off, w, payload);
        MidwayLive(size, before, file, off, w, storage.file);
        w1 := w + 1 + size;
        if off1 + 1 + size > |storage.file| {
          return;
        }
        var ok := storage.Seek(off1);
        return;
      }
      var ok := storage.SeekForward(size);
      KeptSlot(size, file, off);
      MidwayLive(size, before, file, off, w, file);
      w1 := w + 1 + size;
    }

    /** One slot of foreachLive: a deleted one is passed over, a live one is read. */
    method VisitSlot(off: nat) returns (isLive: bool, payload: seq<byte>)
      requires Valid() && Ready() && off + 1 + size <= |storage.file| && off == storage.pos
      modifies storage
      ensures Valid() && storage.file == old(storage.file)
      ensures isLive == !Deleted(storage.file[off])
      ensures isLive ==> payload == PayloadAt(size, storage.file, off)
      ensures !isLive ==> storage.pos == off + 1 + size
    {
      payload := [];
      var flags := storage.Read(1);
      isLive := !Deleted(flags[0]);
      if isLive {
        payload := storage.Read(size);
      } else {
        var ok := storage.SeekForward(size);
      }
    }

    /** One slot of foreachLive, and the callback on it if it is live; `goOn` unless that rejects it. */
    method VisitOne(off: nat, accept: (nat, seq<byte>) -> bool, seen: seq<(nat, seq<byte>)>)
      returns (goOn: bool, visited: seq<(nat, seq<byte>)>)
      requires Valid() && Ready() && off + 1 + size <= |storage.file| && off == storage.pos
      requires Visiting(size, storage.file, off, accept, seen)
      modifies storage
      ensures Valid() && storage.file == old(storage.file)
      ensures goOn ==> Visiting(size, storage.file, off + 1 + size, accept, visited)
      ensures goOn && off + 1 + size + 1 + size <= |storage.file| ==> off + 1 + size == storage.pos
      ensures !goOn ==>
        var live := LiveFrom(size, storage.file, START);
        Visited(live, accept) == visited && !AllAccepted(live, accept)
    {
      hide LiveFrom, Visited, AllAccepted, PayloadAt, Visiting;
      visited := seen;
      goOn := true;
      var isLive, payload := VisitSlot(off);
      if !isLive {
        VisitingSkips(size, storage.file, off, accept, seen);
        return;
      }
      VisitingTakes(size, storage.file, off, accept, seen);
      visited := seen + [(off, payload)];
      if !accept(off, payload) {
        goOn := false;
        return;
      }
      if off + 1 + size + 1 + size <= |storage.file| {
        var ok := storage.Seek(off + 1 + size);
      }
    }

    /** foreachLive: the callback sees the live records in order until it rejects one. */
    method ForeachLive(accept: (nat, seq<byte>) -> bool) returns (status: Status, visited: seq<(nat, seq<byte>)>)
      requires Valid()
      modifies storage
      ensures Valid() && (storage != null ==> storage.file == old(storage.file))
      ensures !Ready() <==> status == NotOpen
      ensures Ready() && |storage.file| < START ==> status == FileTooShort && visited == []
      ensures Ready() && |storage.file| >= START ==>
        var live := LiveFrom(size, storage.file, START);
        && visited == Visited(live, accept)
        && status == if AllAccepted(live, accept) then Ok else ForeachAborted
    {
      visited := [];
      if !isOpen || storage == null {
        return NotOpen, visited;
      }
      if |storage.file| < START {
        return FileTooShort, visited;
      }
      hide LiveFrom, Visited, AllAccepted, PayloadAt, Visiting;
      ghost var file := storage.file;
      var len := |storage.file|;
      var ok := storage.Seek(START);
      var off := START;
      assert Visiting(size, file, off, accept, visited) by { VisitingStarts(size, file, accept); }
      while off + 1 + size <= len
        invariant Valid() && storage.file == file
        invariant off + 1 + size <= len ==> off == storage.pos
        invariant Visiting(size, file, off, accept, visited)
        decreases len - off
      {
        var goOn;
        goOn, visited := VisitOne(off, accept, visited);
        if !goOn {
          return ForeachAborted, visited;
        }
        off := off + 1 + size;
      }
      VisitingEnds(size, file, off, accept, visited);
      status := Ok;
    }

    /** One call of a client, with what it answers. */
    method Call(op: Op) returns (answer: Answer)
      requires Valid() && Ready() && (op.Insert? || op.Replace? ==> |op.payload| == size)
      modifies storage
      ensures Valid()
      ensures storage.file == Step(size, old(storage.file), op)
      ensures answer == AnswerTo(size, old(storage.file), op)
    {
      var status;
      match op {
        case Insert(payload) =>
          var r;
          status, r := InsertSerialized(payload);
          answer := Ref(r);
        case Replace(ref, payload) =>
          status := ReplaceSerialized(ref, payload);
          answer := Done(status);
        case Remove(ref) =>
          status := Remove(ref);
          answer := Done(status);
        case Read(ref) =>
          var payload;
          status, payload := ReadRecord(ref);
          answer := if status == Ok then Got(payload) else Done(status);
      }
    }

    /** A client's run of calls is a run of the file. */
    method CallAll(ops: seq<Op>) returns (answers: seq<Answer>)
      requires Valid() && Ready() && forall op :: op in ops && (op.Insert? || op.Replace?) ==> |op.payload| == size
      modifies storage
      ensures Valid()
      ensures storage.file == Run(size, old(storage.file), ops)
      ensures answers == Answers(size, old(storage.file), ops)
      decreases |ops|
    {
      if ops == [] {
        return [];
      }
      var first := Call(ops[0]);
      var rest := CallAll(ops[1..]);
      answers := [first] + rest;
    }

    /** nextLiveFrom: one step of a scan the caller resumes. */
    method NextLiveFrom(start: nat) returns (status: Status, r: nat, next: nat, found: bool)
      requires Valid()
      modifies storage
      ensures Valid() && (storage != null ==> storage.file == old(storage.file))
      ensures !Ready() <==> status == NotOpen
      ensures status != Ok ==> !found
      ensures Ready() && |storage.file| < START ==> status == FileTooShort
      ensures Ready() && |storage.file| >= START ==> status == if start <= |storage.file| then Ok else SeekFailed
      ensures status == Ok ==>
        var from := if start < START then START else start;
        && (r, found) == NextFrom(size, storage.file, from)
        && next == if found then r + 1 + size else r
    {
      r, next, found := 0, 0, false;
      if !isOpen || storage == null {
        return NotOpen, r, next, found;
      }
      if |storage.file| < START {
        return FileTooShort, r, next, found;
      }
      ghost var file := storage.file;
      var len := |storage.file|;
      var off := if start < START then START else start;
      ghost var from := off;
      var ok := storage.Seek(off);
      if !ok {
        return SeekFailed, r, next, found;
      }
      while off + 1 + size <= len
        invariant Valid() && storage.file == file && off == storage.pos
        invariant NextFrom(size, file, off) == NextFrom(size, file, from)
        decreases len - off
      {
        var flags := storage.Read(1);
        if !Deleted(flags[0]) {
          return Ok, off, off + 1 + size, true;
        }
        ok := storage.SeekForward(size);
        off := off + 1 + size;
      }
      return Ok, off, off, false;
    }
  }
}
