/**
 The single-producer/single-consumer record ring of lib/Lightnet/Core/Common/SpscByteQueue.hpp,
 as values: how a record lies in the ring, and the byte-level steps of `push` and `pop` that
 an interrupt may interleave in any order.
 */
module SpscRing {
  import opened Bytes

  const HEADER := 2

  // ---------------------------------------------------------------- positions

  /** The position `n` bytes after `p` in a ring of `cap` bytes. */
  function At(cap: nat, p: nat, n: nat): nat
    requires p < cap && n <= cap
    ensures At(cap, p, n) < cap
  {
    if p + n < cap then p + n else p + n - cap
  }

  /** What `put` and `get` return: the next position. */
  function Next(cap: nat, p: nat): nat
    requires p < cap
    ensures Next(cap, p) == At(cap, p, 1)
  {
    if p + 1 == cap then 0 else p + 1
  }

  /** Bytes between the read and the write offset. */
  function Used(cap: nat, w: nat, r: nat): (n: nat)
    requires w < cap && r < cap
    ensures n < cap && At(cap, r, n) == w
  {
    if w >= r then w - r else cap - r + w
  }

  /** The `n` bytes that start at position `p`, across the physical end if need be. */
  function Window(buf: seq<byte>, p: nat, n: nat): (bytes: seq<byte>)
    requires p < |buf| && n <= |buf|
    ensures |bytes| == n
  {
    seq(n, i requires 0 <= i < n => buf[At(|buf|, p, i)])
  }

  lemma WindowSplit(buf: seq<byte>, p: nat, n: nat, m: nat)
    requires p < |buf| && n + m <= |buf|
    ensures Window(buf, p, n + m) == Window(buf, p, n) + Window(buf, At(|buf|, p, n), m)
  {
  }

  lemma WindowUnchanged(buf: seq<byte>, p: nat, n: nat, q: nat, b: byte)
    requires p < |buf| && n <= |buf| && q < |buf|
    requires forall i :: 0 <= i < n ==> At(|buf|, p, i) != q
    ensures Window(buf[q := b], p, n) == Window(buf, p, n)
  {
  }

  /** Reading `f` off the front of the readable bytes leaves the rest. */
  lemma WindowDrops(buf: seq<byte>, p: nat, f: seq<byte>, rest: seq<byte>)
    requires p < |buf| && |f| + |rest| <= |buf|
    requires Window(buf, p, |f| + |rest|) == f + rest
    ensures Window(buf, At(|buf|, p, |f|), |rest|) == rest
  {
    WindowSplit(buf, p, |f|, |rest|);
    var all := f + rest;
    assert all[|f|..] == rest;
  }

  lemma WindowGrows(buf: seq<byte>, p: nat, n: nat, b: byte)
    requires p < |buf| && n < |buf| && buf[At(|buf|, p, n)] == b
    ensures Window(buf, p, n + 1) == Window(buf, p, n) + [b]
  {
  }

  // ---------------------------------------------------------------- records

  ghost predicate Sized(recs: seq<seq<byte>>) {
    Short(recs) && forall i :: 0 <= i < |recs| ==> 0 < |recs[i]|
  }

  // ---------------------------------------------------------------- the room test

  /**
   The test `push` makes, in the 16-bit arithmetic it makes it in: `need` is a uint16_t, so it
   wraps for the two longest lengths.
   */
  predicate Accepts(cap: nat, len: nat, used: nat)
    requires used < cap
  {
    0 < len && (HEADER + len) % 0x1_0000 <= cap - 1 - used
  }

  /** The room test is sound on every ring exactly for the lengths that do not wrap `need`. */
  lemma AcceptsIsSoundIff(len: nat)
    requires len < 0x1_0000
    ensures (forall cap: nat, used: nat | used < cap < 0x1_0000 ::
               Accepts(cap, len, used) ==> HEADER + len <= cap - 1 - used)
            <==> len <= 0xFFFD
  {
    if len > 0xFFFD {
      assert Accepts(4, len, 0);
    }
  }

  // ---------------------------------------------------------------- interleaved steps

  /** Where the producer is inside `push`. */
  datatype Producer =
    | Idle
    | Writing(rec: seq<byte>, k: nat, p: nat) // `k` bytes of the frame are in the ring; `p` is next

  /** Where the consumer is inside `pop`. */
  datatype Consumer =
    | Waiting
    | Reading(got: seq<byte>, p: nat)         // bytes fetched so far; `p` is next

  /**
   The shared ring, the local state of both sides, and the history of what was published and
   of what was taken.
   */
  datatype System = System(
    buf: seq<byte>, w: nat, r: nat,
    producer: Producer, consumer: Consumer,
    pushed: seq<seq<byte>>, popped: seq<seq<byte>>)

  ghost predicate Init(s: System) {
    && 0 < |s.buf| && s.w == 0 && s.r == 0
    && s.producer == Idle && s.consumer == Waiting
    && s.pushed == [] && s.popped == []
  }

  /** Snapshot `_w` and `_r`; reject, or start to write. */
  ghost predicate PushBegin(s: System, t: System, rec: seq<byte>)
    requires s.w < |s.buf| && s.r < |s.buf|
  {
    && s.producer == Idle
    && |rec| <= 0xFFFD
    && t == if Accepts(|s.buf|, |rec|, Used(|s.buf|, s.w, s.r))
            then s.(producer := Writing(rec, 0, s.w)) else s
  }

  /** One `put`. */
  ghost predicate PushByte(s: System, t: System) {
    && s.producer.Writing?
    && |s.producer.rec| < 0x1_0000
    && s.producer.k < HEADER + |s.producer.rec|
    && s.producer.p < |s.buf|
    && t == s.(buf := s.buf[s.producer.p := Frame(s.producer.rec)[s.producer.k]],
               producer := s.producer.(k := s.producer.k + 1, p := Next(|s.buf|, s.producer.p)))
  }

  /** Publish `_w`. */
  ghost predicate PushPublish(s: System, t: System) {
    && s.producer.Writing?
    && s.producer.k == HEADER + |s.producer.rec|
    && t == s.(w := s.producer.p, producer := Idle, pushed := s.pushed + [s.producer.rec])
  }

  /** Snapshot `_w` and `_r`; return 0, or start to read. */
  ghost predicate PopBegin(s: System, t: System) {
    && s.consumer == Waiting
    && t == if s.w == s.r then s else s.(consumer := Reading([], s.r))
  }

  /** The frame length `pop` knows after it fetched `got`. */
  function Wanted(got: seq<byte>): nat {
    if |got| < HEADER then HEADER else HEADER + FromLe16(got[0], got[1])
  }

  /** One `get`. */
  ghost predicate PopByte(s: System, t: System) {
    && s.consumer.Reading?
    && |s.consumer.got| < Wanted(s.consumer.got)
    && s.consumer.p < |s.buf|
    && t == s.(consumer := Reading(s.consumer.got + [s.buf[s.consumer.p]], Next(|s.buf|, s.consumer.p)))
  }

  /** Publish `_r`. */
  ghost predicate PopPublish(s: System, t: System) {
    && s.consumer.Reading?
    && |s.consumer.got| == Wanted(s.consumer.got)
    && t == s.(r := s.consumer.p, consumer := Waiting, popped := s.popped + [s.consumer.got[HEADER..]])
  }

  ghost predicate Step(s: System, t: System) {
    || (s.w < |s.buf| && s.r < |s.buf| && exists rec :: PushBegin(s, t, rec))
    || PushByte(s, t)
    || PushPublish(s, t)
    || PopBegin(s, t)
    || PopByte(s, t)
    || PopPublish(s, t)
  }

  // ---------------------------------------------------------------- the invariant

  ghost predicate InRange(s: System) {
    s.w < |s.buf| && s.r < |s.buf|
  }

  ghost predicate HistoryInv(s: System) {
    && Sized(s.pushed)
    && |s.popped| <= |s.pushed|
    && s.popped == s.pushed[..|s.popped|]
  }

  function Pending(s: System): seq<seq<byte>>
    requires |s.popped| <= |s.pushed|
  {
    s.pushed[|s.popped|..]
  }

  ghost predicate RingInv(s: System)
    requires InRange(s) && HistoryInv(s)
  {
    Window(s.buf, s.r, Used(|s.buf|, s.w, s.r)) == Frames(Pending(s))
  }

  ghost predicate ProducerInv(s: System)
    requires InRange(s)
  {
    var cap := |s.buf|;
    s.producer.Writing? ==>
      var Writing(rec, k, p) := s.producer;
      && 0 < |rec| <= 0xFFFD
      && k <= HEADER + |rec| <= cap - 1 - Used(cap, s.w, s.r)
      && p == At(cap, s.w, k)
      && Window(s.buf, s.w, k) == Frame(rec)[..k]
  }

  ghost predicate ConsumerInv(s: System)
    requires InRange(s) && HistoryInv(s)
  {
    s.consumer.Reading? ==>
      && Pending(s) != []
      && var f := Frame(Pending(s)[0]);
      && |s.consumer.got| <= |f| <= Used(|s.buf|, s.w, s.r)
      && s.consumer.got == f[..|s.consumer.got|]
      && s.consumer.p == At(|s.buf|, s.r, |s.consumer.got|)
  }

  ghost predicate Inv(s: System) {
    && InRange(s)
    && HistoryInv(s)
    && RingInv(s)
    && ProducerInv(s)
    && ConsumerInv(s)
  }

  /** A byte the producer writes lies outside the bytes a consumer may read, at every step. */
  lemma PushByteWritesFreeByte(s: System, t: System)
    requires Inv(s) && PushByte(s, t)
    ensures forall i :: 0 <= i < Used(|s.buf|, s.w, s.r) ==> At(|s.buf|, s.r, i) != s.producer.p
    ensures Window(t.buf, s.r, Used(|s.buf|, s.w, s.r)) == Window(s.buf, s.r, Used(|s.buf|, s.w, s.r))
  {
    WindowUnchanged(s.buf, s.r, Used(|s.buf|, s.w, s.r), s.producer.p, Frame(s.producer.rec)[s.producer.k]);
  }

  lemma PushByteKeepsInv(s: System, t: System)
    requires Inv(s) && PushByte(s, t)
    ensures Inv(t)
  {
    PushByteWritesFreeByte(s, t);
    var Writing(rec, k, p) := s.producer;
    var b := Frame(rec)[k];
    WindowUnchanged(s.buf, s.w, k, p, b);
    WindowGrows(t.buf, s.w, k, b);
    assert Frame(rec)[..k + 1] == Frame(rec)[..k] + [b];
  }

  lemma PushPublishKeepsInv(s: System, t: System)
    requires Inv(s) && PushPublish(s, t)
    ensures Inv(t)
    ensures t.pushed == s.pushed + [s.producer.rec]
  {
    var cap, used := |s.buf|, Used(|s.buf|, s.w, s.r);
    var Writing(rec, k, p) := s.producer;
    WindowSplit(s.buf, s.r, used, k);
    assert Frame(rec)[..k] == Frame(rec);
    assert Used(cap, p, s.r) == used + k;
    assert Pending(t) == Pending(s) + [rec];
    FramesAppend(Pending(s), rec);
    assert t.popped == t.pushed[..|t.popped|];
    if s.consumer.Reading? {
      assert Pending(t)[0] == Pending(s)[0];
    }
  }

  lemma PopBeginKeepsInv(s: System, t: System)
    requires Inv(s) && PopBegin(s, t)
    ensures Inv(t)
    ensures t == s ==> Pending(s) == []
  {
    if Pending(s) != [] {
      assert |Frames(Pending(s))| >= |Frame(Pending(s)[0])|;
    }
  }

  lemma PopByteKeepsInv(s: System, t: System)
    requires Inv(s) && PopByte(s, t)
    ensures Inv(t)
  {
    var f := Frame(Pending(s)[0]);
    var n := |s.consumer.got|;
    if n >= HEADER {
      assert s.consumer.got[0] == f[0] && s.consumer.got[1] == f[1];
    }
    assert n < |f|;
    var used := Used(|s.buf|, s.w, s.r);
    assert s.buf[s.consumer.p] == Window(s.buf, s.r, used)[n] == f[n];
    assert f[..n + 1] == f[..n] + [f[n]];
  }

  lemma PopPublishKeepsInv(s: System, t: System)
    requires Inv(s) && PopPublish(s, t)
    ensures Inv(t)
    ensures Pending(s) != [] && t.popped == s.popped + [Pending(s)[0]]
  {
    var f := Frame(Pending(s)[0]);
    var n := |s.consumer.got|;
    var used := Used(|s.buf|, s.w, s.r);
    assert s.consumer.got[0] == f[0] && s.consumer.got[1] == f[1];
    assert n == |f| && s.consumer.got == f;
    var rest := Frames(Pending(s)[1..]);
    assert Used(|s.buf|, s.w, s.consumer.p) == used - n == |rest|;
    WindowDrops(s.buf, s.r, f, rest);
    assert Pending(t) == Pending(s)[1..];
    assert t.popped == t.pushed[..|t.popped|];
  }

  lemma PushBeginKeepsInv(s: System, t: System, rec: seq<byte>)
    requires Inv(s) && PushBegin(s, t, rec)
    ensures Inv(t)
  {
    assert Frame(rec)[..0] == [];
  }

  lemma StepKeepsInv(s: System, t: System)
    requires Inv(s) && Step(s, t)
    ensures Inv(t)
    ensures s.pushed <= t.pushed && s.popped <= t.popped
  {
    hide RingInv, ProducerInv, ConsumerInv, HistoryInv;
    if PushByte(s, t) {
      PushByteKeepsInv(s, t);
    } else if PushPublish(s, t) {
      PushPublishKeepsInv(s, t);
    } else if PopBegin(s, t) {
      PopBeginKeepsInv(s, t);
    } else if PopByte(s, t) {
      PopByteKeepsInv(s, t);
    } else if PopPublish(s, t) {
      PopPublishKeepsInv(s, t);
    } else {
      var rec :| PushBegin(s, t, rec);
      PushBeginKeepsInv(s, t, rec);
    }
  }

  // ---------------------------------------------------------------- whole runs

  /** A run: any interleaving of producer and consumer steps from an empty ring. */
  ghost predicate Run(run: seq<System>) {
    && run != []
    && Init(run[0])
    && forall i :: 0 <= i < |run| - 1 ==> Step(run[i], run[i + 1])
  }

  lemma {:induction false} RunKeepsInv(run: seq<System>, i: nat)
    requires Run(run) && i < |run|
    ensures Inv(run[i])
  {
    if i > 0 {
      RunKeepsInv(run, i - 1);
      StepKeepsInv(run[i - 1], run[i]);
    }
  }

  /**
   For every interleaving, at every moment: what was popped is a prefix of what was pushed,
   record for record and byte for byte; and a `pop` that finds the ring empty has missed
   nothing.
   */
  lemma PoppedIsPrefixOfPushed(run: seq<System>, i: nat)
    requires Run(run) && i < |run|
    ensures run[i].popped <= run[i].pushed
    ensures run[i].w == run[i].r ==> run[i].popped == run[i].pushed
  {
    RunKeepsInv(run, i);
    var s := run[i];
    assert s.w == s.r ==> |Frames(Pending(s))| == 0;
  }

  /** The producer never touches a byte that is still readable, in any run. */
  lemma ProducerOnlyWritesFreeBytes(run: seq<System>, i: nat)
    requires Run(run) && i + 1 < |run|
    requires run[i].buf != run[i + 1].buf
    ensures PushByte(run[i], run[i + 1]) && InRange(run[i])
    ensures forall k :: 0 <= k < Used(|run[i].buf|, run[i].w, run[i].r) ==>
              At(|run[i].buf|, run[i].r, k) != run[i].producer.p
  {
    RunKeepsInv(run, i);
    assert Step(run[i], run[i + 1]);
    PushByteWritesFreeByte(run[i], run[i + 1]);
  }
}
