/**
 The record file of lib/Lightnet/Common/Database: a four-byte header followed by fixed-size slots,
 each one flag byte and a payload. Here every operation is a function on the bytes of the file; the
 map these bytes stand for, and what each operation does to it, is proved below.
 */
module DatabaseFile {
  import opened Bytes

  const START: nat := 4
  const VERSION: byte := 1

  /** A slot is deleted when bit 0 of its flag byte is set. */
  predicate Deleted(flags: byte) {
    flags % 2 == 1
  }

  function MarkDeleted(flags: byte): byte {
    if Deleted(flags) then flags else flags + 1
  }

  /** Overwriting bytes in place, growing the file when they run past its end. */
  function Overwrite(file: seq<byte>, at: nat, data: seq<byte>): (r: seq<byte>)
    requires at <= |file|
    ensures |r| == if at + |data| <= |file| then |file| else at + |data|
  {
    if at + |data| <= |file| then file[..at] + data + file[at + |data|..] else file[..at] + data
  }

  /** A file of another size: cut off, or filled up with zeros. */
  function Resize(file: seq<byte>, n: nat): (r: seq<byte>)
    ensures |r| == n
  {
    if n <= |file| then file[..n] else file + seq(n - |file|, i => 0)
  }

  // ------------------------------------------------------------------ the slots of a file

  /** `r` is the offset of a whole slot, counting slots from `off` in a file of `len` bytes. */
  predicate SlotFrom(size: nat, len: nat, off: nat, r: nat): (b: bool)
    ensures b ==> off <= r && r + 1 + size <= len && (r == off || off + 1 + size <= r)
    decreases len - off
  {
    off + 1 + size <= len && (r == off || SlotFrom(size, len, off + 1 + size, r))
  }

  /** The slots from `off` reach exactly to the end of the file. */
  predicate WholeFrom(size: nat, len: nat, off: nat): (b: bool)
    ensures b ==> off <= len
    decreases len - off
  {
    off == len || (off + 1 + size <= len && WholeFrom(size, len, off + 1 + size))
  }

  function CountFrom(size: nat, len: nat, off: nat): nat
    decreases len - off
  {
    if off + 1 + size <= len then 1 + CountFrom(size, len, off + 1 + size) else 0
  }

  predicate IsSlot(size: nat, file: seq<byte>, r: nat) {
    SlotFrom(size, |file|, START, r)
  }

  predicate Whole(size: nat, file: seq<byte>) {
    WholeFrom(size, |file|, START)
  }

  function PayloadAt(size: nat, file: seq<byte>, r: nat): (p: seq<byte>)
    requires r + 1 + size <= |file|
    ensures |p| == size
  {
    file[r + 1..r + 1 + size]
  }

  /** The payloads of the live slots from `off`, in file order, each with its offset. */
  function LiveFrom(size: nat, file: seq<byte>, off: nat): seq<(nat, seq<byte>)>
    decreases |file| - off
  {
    if off + 1 + size <= |file| then
      var rest := LiveFrom(size, file, off + 1 + size);
      if Deleted(file[off]) then rest else [(off, PayloadAt(size, file, off))] + rest
    else []
  }

  /** What the file means: which record each live offset holds. */
  function TableFrom(size: nat, file: seq<byte>, off: nat): map<nat, seq<byte>>
    decreases |file| - off
  {
    if off + 1 + size <= |file| then
      var rest := TableFrom(size, file, off + 1 + size);
      if Deleted(file[off]) then rest else rest[off := PayloadAt(size, file, off)]
    else map[]
  }

  function Table(size: nat, file: seq<byte>): map<nat, seq<byte>> {
    TableFrom(size, file, START)
  }

  // ------------------------------------------------------------------ the operations

  datatype Reply = Found(payload: seq<byte>) | Tombstone | PastEnd | CutShort

  datatype Status = Ok | NotOpen | FileTooShort | SeekFailed | ReadFailed | RecordDeleted | ForeachAborted

  /** What a reference's flag byte says to a mutation. */
  function FlagStatus(file: seq<byte>, r: nat): Status {
    if r > |file| then SeekFailed
    else if r == |file| then ReadFailed
    else if Deleted(file[r]) then RecordDeleted
    else Ok
  }

  /** What reading through any reference gives, whether or not it points at a slot. */
  function Lookup(size: nat, file: seq<byte>, r: nat): Reply {
    if r > |file| then PastEnd
    else if r == |file| then CutShort
    else if Deleted(file[r]) then Tombstone
    else if r + 1 + size > |file| then CutShort
    else Found(PayloadAt(size, file, r))
  }

  /** The header create writes: version, model version and an unused 16-bit count. */
  function Created(model: byte): seq<byte> {
    [1, model, 0, 0]
  }

  /** The first deleted slot from `off`, or the end of the file when every slot is live. */
  function FreeFrom(size: nat, file: seq<byte>, off: nat): nat
    decreases |file| - off
  {
    if off + 1 + size > |file| then |file|
    else if Deleted(file[off]) then off
    else FreeFrom(size, file, off + 1 + size)
  }

  /** Where an insert puts its record. A file without a whole header is filled up first. */
  function Target(size: nat, file: seq<byte>): nat {
    if |file| < START then START else FreeFrom(size, file, START)
  }

  lemma {:induction false} FreeIsInFile(size: nat, file: seq<byte>, off: nat)
    ensures FreeFrom(size, file, off) <= |file|
    decreases |file| - off
  {
    if off + 1 + size <= |file| {
      FreeIsInFile(size, file, off + 1 + size);
    }
  }

  function Inserted(size: nat, file: seq<byte>, payload: seq<byte>): seq<byte> {
    FreeIsInFile(size, file, START);
    Overwrite(if |file| < START then Resize(file, START) else file, Target(size, file), [0] + payload)
  }

  function Replaced(file: seq<byte>, r: nat, payload: seq<byte>): seq<byte> {
    if r < |file| && !Deleted(file[r]) then Overwrite(file, r + 1, payload) else file
  }

  function Removed(file: seq<byte>, r: nat): seq<byte> {
    if r < |file| then file[r := MarkDeleted(file[r])] else file
  }

  // ------------------------------------------------------------------ the map behind the bytes

  /** The table holds exactly the live slots, each with its own bytes. */
  lemma {:induction false} TableHoldsLiveSlots(size: nat, file: seq<byte>, off: nat, r: nat)
    ensures r in TableFrom(size, file, off) <==> SlotFrom(size, |file|, off, r) && !Deleted(file[r])
    ensures r in TableFrom(size, file, off) ==> TableFrom(size, file, off)[r] == PayloadAt(size, file, r)
    decreases |file| - off
  {
    if off + 1 + size <= |file| {
      TableHoldsLiveSlots(size, file, off + 1 + size, r);
    }
  }

  /** Where the slots are depends on the length of the file alone: two slots never overlap. */
  lemma {:induction false} SlotsAreDisjoint(size: nat, len: nat, off: nat, q: nat, r: nat)
    requires SlotFrom(size, len, off, q) && SlotFrom(size, len, off, r) && q < r
    ensures q + 1 + size <= r
    decreases len - off
  {
    if q != off {
      SlotsAreDisjoint(size, len, off + 1 + size, q, r);
    }
  }

  lemma OverwriteElsewhere(file: seq<byte>, at: nat, data: seq<byte>, lo: nat, hi: nat)
    requires at + |data| <= |file| && lo <= hi <= |file|
    requires hi <= at || at + |data| <= lo
    ensures Overwrite(file, at, data)[lo..hi] == file[lo..hi]
    ensures lo < hi ==> Overwrite(file, at, data)[lo] == file[lo]
  {
  }

  lemma RewriteOtherSlot(size: nat, file: seq<byte>, r: nat, data: seq<byte>, q: nat)
    requires IsSlot(size, file, r) && IsSlot(size, file, q) && q != r && |data| == 1 + size
    ensures Overwrite(file, r, data)[q] == file[q]
    ensures PayloadAt(size, Overwrite(file, r, data), q) == PayloadAt(size, file, q)
  {
    hide Overwrite;
    if q < r {
      SlotsAreDisjoint(size, |file|, START, q, r);
    } else {
      SlotsAreDisjoint(size, |file|, START, r, q);
    }
    OverwriteElsewhere(file, r, data, q + 1, q + 1 + size);
    OverwriteElsewhere(file, r, data, q, q + 1);
  }

  lemma RewriteThisSlot(size: nat, file: seq<byte>, r: nat, flags: byte, payload: seq<byte>)
    requires IsSlot(size, file, r) && |payload| == size
    ensures Overwrite(file, r, [flags] + payload)[r] == flags
    ensures PayloadAt(size, Overwrite(file, r, [flags] + payload), r) == payload
  {
  }

  function RewrittenTable(table: map<nat, seq<byte>>, r: nat, flags: byte, payload: seq<byte>): map<nat, seq<byte>> {
    if Deleted(flags) then table - {r} else table[r := payload]
  }

  /** Rewriting one slot changes the meaning of that slot's offset and of no other. */
  lemma RewriteSlot(size: nat, file: seq<byte>, r: nat, flags: byte, payload: seq<byte>)
    requires IsSlot(size, file, r) && |payload| == size
    ensures Table(size, Overwrite(file, r, [flags] + payload))
      == RewrittenTable(Table(size, file), r, flags, payload)
  {
    hide Overwrite, PayloadAt;
    var g := Overwrite(file, r, [flags] + payload);
    var want := RewrittenTable(Table(size, file), r, flags, payload);
    RewriteThisSlot(size, file, r, flags, payload);
    forall q: nat
      ensures q in Table(size, g) <==> q in want
      ensures q in want ==> Table(size, g)[q] == want[q]
    {
      TableHoldsLiveSlots(size, g, START, q);
      TableHoldsLiveSlots(size, file, START, q);
      if q != r && IsSlot(size, file, q) {
        RewriteOtherSlot(size, file, r, [flags] + payload, q);
      }
    }
    assert Table(size, g) == want;
  }

  // ------------------------------------------------------------------ what each operation means

  lemma LookupReadsTable(size: nat, file: seq<byte>, r: nat)
    requires IsSlot(size, file, r)
    ensures r in Table(size, file) ==> Lookup(size, file, r) == Found(Table(size, file)[r])
    ensures r !in Table(size, file) ==> Lookup(size, file, r) == Tombstone
  {
    TableHoldsLiveSlots(size, file, START, r);
  }

  lemma ReplaceUpdatesTable(size: nat, file: seq<byte>, r: nat, payload: seq<byte>)
    requires IsSlot(size, file, r) && |payload| == size
    ensures |Replaced(file, r, payload)| == |file|
    ensures Table(size, Replaced(file, r, payload))
      == if r in Table(size, file) then Table(size, file)[r := payload] else Table(size, file)
  {
    TableHoldsLiveSlots(size, file, START, r);
    if !Deleted(file[r]) {
      assert Overwrite(file, r + 1, payload) == Overwrite(file, r, [file[r]] + payload);
      RewriteSlot(size, file, r, file[r], payload);
    }
  }

  lemma RemoveDropsFromTable(size: nat, file: seq<byte>, r: nat)
    requires IsSlot(size, file, r)
    ensures |Removed(file, r)| == |file|
    ensures Table(size, Removed(file, r)) == Table(size, file) - {r}
  {
    var flags := MarkDeleted(file[r]);
    assert Removed(file, r) == Overwrite(file, r, [flags] + PayloadAt(size, file, r));
    RewriteSlot(size, file, r, flags, PayloadAt(size, file, r));
  }

  lemma {:induction false} FreeSlotIsDeleted(size: nat, file: seq<byte>, off: nat)
    requires FreeFrom(size, file, off) < |file|
    ensures SlotFrom(size, |file|, off, FreeFrom(size, file, off))
    ensures Deleted(file[FreeFrom(size, file, off)])
    decreases |file| - off
  {
    if !Deleted(file[off]) {
      FreeSlotIsDeleted(size, file, off + 1 + size);
    }
  }

  /** Appending a slot to a file of whole slots leaves the old slots where they are. */
  lemma {:induction false} AppendedSlots(size: nat, len: nat, off: nat, r: nat)
    requires WholeFrom(size, len, off)
    ensures WholeFrom(size, len + 1 + size, off)
    ensures SlotFrom(size, len + 1 + size, off, r) <==> SlotFrom(size, len, off, r) || r == len
    ensures CountFrom(size, len + 1 + size, off) == CountFrom(size, len, off) + 1
    decreases len - off
  {
    if off != len {
      AppendedSlots(size, len, off + 1 + size, r);
    }
  }

  lemma AppendSlot(size: nat, file: seq<byte>, payload: seq<byte>)
    requires Whole(size, file) && |payload| == size
    ensures |file| !in Table(size, file)
    ensures Table(size, file + [0] + payload) == Table(size, file)[|file| := payload]
  {
    var g := file + [0] + payload;
    var want := Table(size, file)[|file| := payload];
    TableHoldsLiveSlots(size, file, START, |file|);
    assert PayloadAt(size, g, |file|) == payload;
    forall q: nat
      ensures q in Table(size, g) <==> q in want
      ensures q in want ==> Table(size, g)[q] == want[q]
    {
      TableHoldsLiveSlots(size, g, START, q);
      TableHoldsLiveSlots(size, file, START, q);
      AppendedSlots(size, |file|, START, q);
      if IsSlot(size, file, q) {
        assert PayloadAt(size, g, q) == PayloadAt(size, file, q);
      }
    }
    assert Table(size, g) == want;
  }

  /** An insert stores its record under a reference no live record has, and disturbs no other. */
  lemma InsertAddsToTable(size: nat, file: seq<byte>, payload: seq<byte>)
    requires Whole(size, file) && |payload| == size
    ensures |Inserted(size, file, payload)| == if Target(size, file) < |file| then |file| else |file| + 1 + size
    ensures Target(size, file) !in Table(size, file)
    ensures Table(size, Inserted(size, file, payload)) == Table(size, file)[Target(size, file) := payload]
    ensures Whole(size, Inserted(size, file, payload))
    ensures IsSlot(size, Inserted(size, file, payload), Target(size, file))
  {
    var r := Target(size, file);
    FreeIsInFile(size, file, START);
    if r < |file| {
      FreeSlotIsDeleted(size, file, START);
      TableHoldsLiveSlots(size, file, START, r);
      RewriteSlot(size, file, r, 0, payload);
    } else {
      assert Inserted(size, file, payload) == file + [0] + payload;
      AppendSlot(size, file, payload);
      AppendedSlots(size, |file|, START, r);
    }
  }
}
