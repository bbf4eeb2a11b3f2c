/**
 Whole runs of the record file: it behaves as a map from references to records, and never uses
 more slots than the most records it ever held.
 */
module DatabaseRuns {
  import opened Bytes
  import opened DatabaseFile

  // ------------------------------------------------------------------ counting

  lemma {:induction false} LiveCountsTable(size: nat, file: seq<byte>, off: nat)
    ensures |LiveFrom(size, file, off)| == |TableFrom(size, file, off)|
    decreases |file| - off
  {
    if off + 1 + size <= |file| {
      LiveCountsTable(size, file, off + 1 + size);
      TableHoldsLiveSlots(size, file, off + 1 + size, off);
    }
  }

  /** The records the scans visit are those of the table. */
  lemma {:induction false} LiveIsTable(size: nat, file: seq<byte>, off: nat, r: nat, payload: seq<byte>)
    ensures (r, payload) in LiveFrom(size, file, off) <==>
            r in TableFrom(size, file, off) && TableFrom(size, file, off)[r] == payload
    decreases |file| - off
  {
    if off + 1 + size <= |file| {
      LiveIsTable(size, file, off + 1 + size, r, payload);
      TableHoldsLiveSlots(size, file, off + 1 + size, off);
    }
  }

  /** The scans visit each record once, in ascending order of offset. */
  lemma {:induction false} LiveAscends(size: nat, file: seq<byte>, off: nat)
    ensures forall i :: 0 <= i < |LiveFrom(size, file, off)| ==> off <= LiveFrom(size, file, off)[i].0
    ensures forall i, j :: 0 <= i < j < |LiveFrom(size, file, off)| ==>
      LiveFrom(size, file, off)[i].0 < LiveFrom(size, file, off)[j].0
    decreases |file| - off
  {
    if off + 1 + size <= |file| {
      LiveAscends(size, file, off + 1 + size);
    }
  }

  /** There is a free slot to reuse exactly when some slot is not live. */
  lemma {:induction false} FreeMeansSpare(size: nat, file: seq<byte>, off: nat)
    ensures |LiveFrom(size, file, off)| <= CountFrom(size, |file|, off)
    ensures FreeFrom(size, file, off) < |file| <==>
            |LiveFrom(size, file, off)| < CountFrom(size, |file|, off)
    decreases |file| - off
  {
    if off + 1 + size <= |file| {
      FreeMeansSpare(size, file, off + 1 + size);
    }
  }

  lemma TimesIsMonotone(a: int, b: int, s: nat)
    ensures a <= b ==> a * s <= b * s
  {
  }

  lemma QuotientIsUnique(n: nat, q: nat, r: nat, s: nat)
    requires n == q * s + r && r < s
    ensures n / s == q
  {
    TimesIsMonotone(q + 1, n / s, s);
    TimesIsMonotone(n / s + 1, q, s);
  }

  lemma DivideStep(x: nat, s: nat)
    requires s > 0
    ensures (x + s) / s == x / s + 1
  {
    QuotientIsUnique(x + s, x / s + 1, x % s, s);
  }

  /** slotCount: one division by the slot size counts the whole slots. */
  lemma {:induction false} SlotCountDivides(size: nat, len: nat, off: nat)
    requires off <= len
    ensures (len - off) / (1 + size) == CountFrom(size, len, off)
    decreases len - off
  {
    if off + 1 + size <= len {
      SlotCountDivides(size, len, off + 1 + size);
      DivideStep(len - (off + 1 + size), 1 + size);
    }
  }

  // ------------------------------------------------------------------ runs

  /** The calls a client makes. */
  datatype Op =
    | Insert(payload: seq<byte>)
    | Replace(ref: nat, payload: seq<byte>)
    | Remove(ref: nat)
    | Read(ref: nat)

  /** What a call answers: the new reference, the payload read, or how it ended. */
  datatype Answer = Ref(ref: nat) | Got(payload: seq<byte>) | Done(status: Status)

  function Step(size: nat, file: seq<byte>, op: Op): seq<byte> {
    match op
    case Insert(payload) => Inserted(size, file, payload)
    case Replace(ref, payload) => Replaced(file, ref, payload)
    case Remove(ref) => Removed(file, ref)
    case Read(_) => file
  }

  function Run(size: nat, file: seq<byte>, ops: seq<Op>): seq<byte>
    decreases |ops|
  {
    if ops == [] then file else Run(size, Step(size, file, ops[0]), ops[1..])
  }

  /** Payloads are whole records, and references are ones an insert of this file has returned. */
  predicate Legal(size: nat, file: seq<byte>, op: Op) {
    match op
    case Insert(payload) => |payload| == size
    case Replace(ref, payload) => |payload| == size && IsSlot(size, file, ref)
    case Remove(ref) => IsSlot(size, file, ref)
    case Read(ref) => IsSlot(size, file, ref)
  }

  predicate LegalRun(size: nat, file: seq<byte>, ops: seq<Op>)
    decreases |ops|
  {
    ops == [] || (Legal(size, file, ops[0]) && LegalRun(size, Step(size, file, ops[0]), ops[1..]))
  }

  /** The same calls on a plain map, with the answers a client of the map expects. */
  ghost predicate MapStep(m: map<nat, seq<byte>>, op: Op, n: map<nat, seq<byte>>, answer: Answer) {
    match op
    case Insert(payload) => answer.Ref? && answer.ref !in m && n == m[answer.ref := payload]
    case Replace(ref, payload) =>
      if ref in m then answer == Done(Ok) && n == m[ref := payload]
      else answer == Done(RecordDeleted) && n == m
    case Remove(ref) => answer == Done(if ref in m then Ok else RecordDeleted) && n == m - {ref}
    case Read(ref) => answer == (if ref in m then Got(m[ref]) else Done(RecordDeleted)) && n == m
  }

  lemma StatusTellsLive(size: nat, file: seq<byte>, r: nat)
    requires IsSlot(size, file, r)
    ensures FlagStatus(file, r) == if r in Table(size, file) then Ok else RecordDeleted
  {
    TableHoldsLiveSlots(size, file, START, r);
  }

  /** The file's steps are steps of the map. */
  lemma StepRefinesMap(size: nat, file: seq<byte>, op: Op)
    requires Whole(size, file) && Legal(size, file, op)
    ensures Whole(size, Step(size, file, op))
    ensures MapStep(Table(size, file), op, Table(size, Step(size, file, op)),
                    AnswerTo(size, file, op))
  {
    hide Inserted, Replaced, Removed, Table, Lookup, IsSlot, Target, FlagStatus;
    match op
    case Insert(payload) => InsertAddsToTable(size, file, payload);
    case Replace(ref, payload) =>
      ReplaceUpdatesTable(size, file, ref, payload);
      StatusTellsLive(size, file, ref);
    case Remove(ref) =>
      RemoveDropsFromTable(size, file, ref);
      StatusTellsLive(size, file, ref);
    case Read(ref) => LookupReadsTable(size, file, ref);
  }

  /** A reference keeps meaning what it meant until a call names it. */
  lemma OthersUndisturbed(size: nat, file: seq<byte>, op: Op, r: nat)
    requires Whole(size, file) && Legal(size, file, op)
    requires r in Table(size, file) && (op.Replace? || op.Remove? ==> op.ref != r)
    ensures r in Table(size, Step(size, file, op))
    ensures Table(size, Step(size, file, op))[r] == Table(size, file)[r]
  {
    StepRefinesMap(size, file, op);
  }

  /** The table before the run and after each of its calls. */
  function Tables(size: nat, file: seq<byte>, ops: seq<Op>): (t: seq<map<nat, seq<byte>>>)
    ensures |t| == |ops| + 1 && t[0] == Table(size, file)
    decreases |ops|
  {
    [Table(size, file)] + if ops == [] then [] else Tables(size, Step(size, file, ops[0]), ops[1..])
  }

  /** What the calls of the run answer. */
  function Answers(size: nat, file: seq<byte>, ops: seq<Op>): (r: seq<Answer>)
    ensures |r| == |ops|
    decreases |ops|
  {
    if ops == [] then []
    else [AnswerTo(size, file, ops[0])] + Answers(size, Step(size, file, ops[0]), ops[1..])
  }

  function AnswerTo(size: nat, file: seq<byte>, op: Op): Answer {
    match op
    case Insert(_) => Ref(Target(size, file))
    case Replace(ref, _) => Done(FlagStatus(file, ref))
    case Remove(ref) => Done(FlagStatus(file, ref))
    case Read(ref) =>
      match Lookup(size, file, ref)
      case Found(payload) => Got(payload)
      case Tombstone => Done(RecordDeleted)
      case PastEnd => Done(SeekFailed)
      case CutShort => Done(ReadFailed)
  }

  ghost predicate MapRun(tables: seq<map<nat, seq<byte>>>, ops: seq<Op>, answers: seq<Answer>)
    requires |tables| == |ops| + 1 && |answers| == |ops|
  {
    forall i :: 0 <= i < |ops| ==> MapStep(tables[i], ops[i], tables[i + 1], answers[i])
  }

  lemma {:induction false} RunRefinesMapFrom(size: nat, file: seq<byte>, ops: seq<Op>)
    requires Whole(size, file) && LegalRun(size, file, ops)
    ensures MapRun(Tables(size, file, ops), ops, Answers(size, file, ops))
    decreases |ops|
  {
    hide Legal, Step, Whole, Table, MapStep, AnswerTo;
    if ops != [] {
      var next := Step(size, file, ops[0]);
      StepRefinesMap(size, file, ops[0]);
      RunRefinesMapFrom(size, next, ops[1..]);
      var t, u := Tables(size, file, ops), Tables(size, next, ops[1..]);
      var r := Answers(size, file, ops);
      forall i | 0 <= i < |ops|
        ensures MapStep(t[i], ops[i], t[i + 1], r[i])
      {
        if i > 0 {
          var j := i - 1;
          assert MapStep(u[j], ops[1..][j], u[j + 1], Answers(size, next, ops[1..])[j]);
        }
      }
    }
  }

  /** Every run of calls on a fresh file is a run of the map that starts empty. */
  lemma RunRefinesMap(size: nat, model: byte, ops: seq<Op>)
    requires LegalRun(size, Created(model), ops)
    ensures Tables(size, Created(model), ops)[0] == map[]
    ensures MapRun(Tables(size, Created(model), ops), ops, Answers(size, Created(model), ops))
  {
    RunRefinesMapFrom(size, Created(model), ops);
  }

  // ------------------------------------------------------------------ high-water mark

  function Live(size: nat, file: seq<byte>): nat {
    |Table(size, file)|
  }

  function SlotCount(size: nat, file: seq<byte>): nat {
    CountFrom(size, |file|, START)
  }

  /** The most records the file holds at any point of a run. */
  function HighWater(size: nat, file: seq<byte>, ops: seq<Op>): nat
    decreases |ops|
  {
    if ops == [] then Live(size, file)
    else Max(Live(size, file), HighWater(size, Step(size, file, ops[0]), ops[1..]))
  }

  lemma LiveFitsSlots(size: nat, file: seq<byte>)
    ensures Live(size, file) <= SlotCount(size, file)
    ensures Target(size, file) < |file| <==> Live(size, file) < SlotCount(size, file)
  {
    LiveCountsTable(size, file, START);
    FreeMeansSpare(size, file, START);
  }

  /** An insert adds a slot only when every slot is live. */
  lemma InsertSlotCount(size: nat, file: seq<byte>, payload: seq<byte>)
    requires Whole(size, file) && |payload| == size
    ensures SlotCount(size, Inserted(size, file, payload))
      == Max(SlotCount(size, file), Live(size, Inserted(size, file, payload)))
  {
    hide Table, Target, Overwrite;
    LiveFitsSlots(size, file);
    InsertAddsToTable(size, file, payload);
    AppendedSlots(size, |file|, START, 0);
  }

  /** So slots never outnumber the largest number of records so far. */
  lemma StepSlotCount(size: nat, file: seq<byte>, op: Op)
    requires Whole(size, file) && Legal(size, file, op)
    ensures SlotCount(size, Step(size, file, op))
      == Max(SlotCount(size, file), Live(size, Step(size, file, op)))
  {
    hide Inserted, Replaced, Removed, Table, IsSlot;
    LiveFitsSlots(size, file);
    match op
    case Insert(payload) => InsertSlotCount(size, file, payload);
    case Replace(ref, payload) => ReplaceUpdatesTable(size, file, ref, payload);
    case Remove(ref) => RemoveDropsFromTable(size, file, ref);
    case Read(_) =>
  }

  lemma {:induction false} SlotsAreHighWater(size: nat, file: seq<byte>, ops: seq<Op>)
    requires Whole(size, file) && LegalRun(size, file, ops)
    ensures Whole(size, Run(size, file, ops))
    ensures SlotCount(size, Run(size, file, ops)) == Max(SlotCount(size, file), HighWater(size, file, ops))
    decreases |ops|
  {
    hide Legal, Step, Live, SlotCount, Whole;
    if ops == [] {
      LiveFitsSlots(size, file);
    } else {
      LiveFitsSlots(size, file);
      StepRefinesMap(size, file, ops[0]);
      StepSlotCount(size, file, ops[0]);
      var next := Step(size, file, ops[0]);
      SlotsAreHighWater(size, next, ops[1..]);
      assert HighWater(size, next, ops[1..]) >= Live(size, next);
    }
  }

  /** From a fresh file and without compaction, the slots are the high-water mark of the records. */
  lemma SlotsNeverOutnumberRecords(size: nat, model: byte, ops: seq<Op>)
    requires LegalRun(size, Created(model), ops)
    ensures SlotCount(size, Run(size, Created(model), ops)) == HighWater(size, Created(model), ops)
  {
    SlotsAreHighWater(size, Created(model), ops);
  }
}
