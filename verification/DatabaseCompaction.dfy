/** Compaction of the record file: the live records moved to the front, in their order. */
module DatabaseCompaction {
  import opened Bytes
  import opened DatabaseFile
  import opened DatabaseRuns

  /** A slot as compaction leaves it: one that moves loses its other flag bits. */
  function PackedSlot(size: nat, file: seq<byte>, off: nat, moved: bool): (s: seq<byte>)
    requires off + 1 + size <= |file|
    ensures |s| == 1 + size
  {
    [if moved then 0 else file[off]] + PayloadAt(size, file, off)
  }

  /** The live slots from `off`; `moved` says that a deleted slot lies before them. */
  function Packed(size: nat, file: seq<byte>, off: nat, moved: bool): seq<byte>
    decreases |file| - off
  {
    if off + 1 + size > |file| then []
    else if Deleted(file[off]) then Packed(size, file, off + 1 + size, true)
    else PackedSlot(size, file, off, moved) + Packed(size, file, off + 1 + size, moved)
  }

  function Compacted(size: nat, file: seq<byte>): seq<byte>
    requires START <= |file|
  {
    file[..START] + Packed(size, file, START, false)
  }

  function Payloads(live: seq<(nat, seq<byte>)>): seq<seq<byte>> {
    if live == [] then [] else [live[0].1] + Payloads(live[1..])
  }

  /** From `at` to its end the file is whole slots, all live, that hold these payloads in order. */
  predicate Holds(size: nat, file: seq<byte>, at: nat, payloads: seq<seq<byte>>) {
    && WholeFrom(size, |file|, at)
    && CountFrom(size, |file|, at) == |payloads|
    && Payloads(LiveFrom(size, file, at)) == payloads
    && FreeFrom(size, file, at) == |file|
  }

  lemma HoldsOneMore(size: nat, file: seq<byte>, at: nat, payloads: seq<seq<byte>>)
    requires at + 1 + size <= |file| && !Deleted(file[at])
    requires Holds(size, file, at + 1 + size, payloads)
    ensures Holds(size, file, at, [PayloadAt(size, file, at)] + payloads)
  {
  }

  lemma SlotIsFirst(size: nat, pre: seq<byte>, slot: seq<byte>, rest: seq<byte>)
    requires |slot| == 1 + size
    ensures (pre + slot + rest)[|pre|] == slot[0]
    ensures PayloadAt(size, pre + slot + rest, |pre|) == slot[1..]
  {
  }

  lemma {:induction false} PayloadsLength(live: seq<(nat, seq<byte>)>)
    ensures |Payloads(live)| == |live|
  {
    if live != [] {
      PayloadsLength(live[1..]);
    }
  }

  /** A packed run of slots, wherever it lies, holds the live payloads and no deleted slot. */
  lemma {:induction false} PackedHoldsLive(size: nat, file: seq<byte>, off: nat, moved: bool, pre: seq<byte>)
    ensures Holds(size, pre + Packed(size, file, off, moved), |pre|, Payloads(LiveFrom(size, file, off)))
    decreases |file| - off
  {
    hide Holds, PayloadAt, PackedSlot;
    if off + 1 + size > |file| {
      HoldsNothing(size, pre);
    } else if Deleted(file[off]) {
      PackedHoldsLive(size, file, off + 1 + size, true, pre);
    } else {
      var slot := PackedSlot(size, file, off, moved);
      var rest := Packed(size, file, off + 1 + size, moved);
      PackedHoldsLive(size, file, off + 1 + size, moved, pre + slot);
      Assoc(pre, slot, rest);
      SlotIsFirst(size, pre, slot, rest);
      PackedSlotIsLive(size, file, off, moved);
      HoldsOneMore(size, pre + slot + rest, |pre|, Payloads(LiveFrom(size, file, off + 1 + size)));
    }
  }

  lemma HoldsNothing(size: nat, pre: seq<byte>)
    ensures Holds(size, pre + [], |pre|, [])
  {
    assert pre + [] == pre;
  }

  lemma PackedSlotIsLive(size: nat, file: seq<byte>, off: nat, moved: bool)
    requires off + 1 + size <= |file| && !Deleted(file[off])
    ensures !Deleted(PackedSlot(size, file, off, moved)[0])
    ensures PackedSlot(size, file, off, moved)[1..] == PayloadAt(size, file, off)
  {
  }

  /** Where nothing is deleted, packing changes nothing. */
  lemma {:induction false} PackingWholeIsIdentity(size: nat, file: seq<byte>, off: nat)
    requires WholeFrom(size, |file|, off) && FreeFrom(size, file, off) == |file|
    ensures off <= |file| && Packed(size, file, off, false) == file[off..]
    decreases |file| - off
  {
    if off != |file| {
      PackingWholeIsIdentity(size, file, off + 1 + size);
      assert file[off..] == PackedSlot(size, file, off, false) + file[off + 1 + size..];
    }
  }

  /**
   Compaction keeps the payloads of the live records and their order, and leaves a file of whole
   slots in which every slot is live.
   */
  lemma CompactionKeepsRecords(size: nat, file: seq<byte>)
    requires START <= |file|
    ensures Payloads(LiveFrom(size, Compacted(size, file), START)) == Payloads(LiveFrom(size, file, START))
    ensures Whole(size, Compacted(size, file))
    ensures SlotCount(size, Compacted(size, file)) == Live(size, Compacted(size, file)) == Live(size, file)
    ensures Compacted(size, file)[..START] == file[..START]
  {
    hide Packed, LiveFrom, FreeFrom, WholeFrom, CountFrom, TableFrom;
    var g := Compacted(size, file);
    PackedHoldsLive(size, file, START, false, file[..START]);
    PayloadsLength(LiveFrom(size, file, START));
    PayloadsLength(LiveFrom(size, g, START));
    LiveCountsTable(size, g, START);
    LiveCountsTable(size, file, START);
  }

  lemma CompactionIsIdempotent(size: nat, file: seq<byte>)
    requires START <= |file|
    ensures Compacted(size, Compacted(size, file)) == Compacted(size, file)
  {
    hide Packed, FreeFrom, WholeFrom;
    var g := Compacted(size, file);
    PackedHoldsLive(size, file, START, false, file[..START]);
    PackingWholeIsIdentity(size, g, START);
  }

  // ------------------------------------------------------------------ packing in place

  /**
   The file part-way through compaction of `before`: the live slots below `off` lie packed up to
   `w`, and what is still to be read is untouched.
   */
  ghost predicate Midway(size: nat, before: seq<byte>, file: seq<byte>, off: nat, w: nat) {
    && START <= w <= off <= |before| == |file|
    && file[off..] == before[off..]
    && Compacted(size, before) == file[..w] + Packed(size, before, off, w < off)
  }

  lemma MidwayStart(size: nat, file: seq<byte>)
    requires START <= |file|
    ensures Midway(size, file, file, START, START)
  {
  }

  lemma MidwayDrop(size: nat, before: seq<byte>, file: seq<byte>, off: nat, w: nat)
    requires Midway(size, before, file, off, w) && off + 1 + size <= |file| && Deleted(file[off])
    ensures Midway(size, before, file, off + 1 + size, w)
  {
    SlotsAgree(size, file, before, off);
    TailsAgree(file, before, off, off + 1 + size);
  }

  lemma TailsAgree(a: seq<byte>, b: seq<byte>, off: nat, next: nat)
    requires off <= next <= |a| == |b| && a[off..] == b[off..]
    ensures a[next..] == b[next..]
  {
    assert a[next..] == a[off..][next - off..];
    assert b[next..] == b[off..][next - off..];
  }

  lemma SlotsAgree(size: nat, a: seq<byte>, b: seq<byte>, off: nat)
    requires off + 1 + size <= |a| == |b| && a[off..] == b[off..]
    ensures a[off] == b[off] && PayloadAt(size, a, off) == PayloadAt(size, b, off)
  {
    assert forall i :: off <= i < |a| ==> a[i] == a[off..][i - off];
    assert forall i :: off <= i < |b| ==> b[i] == b[off..][i - off];
  }

  /** The next slot of the untouched part is live; packing it extends the packed part. */
  lemma MidwayLive(size: nat, before: seq<byte>, file: seq<byte>, off: nat, w: nat, next: seq<byte>)
    requires Midway(size, before, file, off, w) && off + 1 + size <= |file| && !Deleted(file[off])
    requires |next| == |file| && next[off + 1 + size..] == file[off + 1 + size..]
    requires next[..w + 1 + size] == file[..w] + PackedSlot(size, file, off, w < off)
    ensures Midway(size, before, next, off + 1 + size, w + 1 + size)
  {
    hide Compacted;
    var slot := PackedSlot(size, file, off, w < off);
    SlotsAgree(size, file, before, off);
    TailsAgree(file, before, off, off + 1 + size);
    Assoc(file[..w], slot, Packed(size, before, off + 1 + size, w < off));
  }

  lemma WithinMidway(size: nat, before: seq<byte>, file: seq<byte>, off: nat, w: nat)
    requires Midway(size, before, file, off, w)
    ensures w <= off <= |file|
  {
  }

  lemma OverwriteInTwo(file: seq<byte>, at: nat, flag: byte, payload: seq<byte>)
    requires at <= |file|
    ensures Overwrite(Overwrite(file, at, [flag]), at + 1, payload) == Overwrite(file, at, [flag] + payload)
  {
  }

  lemma MovedSlot(size: nat, file: seq<byte>, off: nat, w: nat, payload: seq<byte>)
    requires w < off && off + 1 + size <= |file| && payload == PayloadAt(size, file, off)
    ensures var next := Overwrite(file, w, [0] + payload);
            && |next| == |file|
            && next[off + 1 + size..] == file[off + 1 + size..]
            && next[..w + 1 + size] == file[..w] + PackedSlot(size, file, off, true)
  {
  }

  lemma KeptSlot(size: nat, file: seq<byte>, off: nat)
    requires off + 1 + size <= |file|
    ensures file[..off + 1 + size] == file[..off] + PackedSlot(size, file, off, false)
  {
  }

  lemma MidwayEnd(size: nat, before: seq<byte>, file: seq<byte>, off: nat, w: nat)
    requires Midway(size, before, file, off, w) && off + 1 + size > |file|
    ensures Resize(file, w) == Compacted(size, before)
  {
  }
}
