/**
 The ring as the code has it: a buffer and two offsets updated in place by copy loops
 (lib/Lightnet/Core/Common/SpscByteQueue.hpp). Each method is proved to be a run of the steps
 of SpscRing, so what holds of every interleaving of those steps holds of the code.
 */
module SpscByteQueues {
  import opened Bytes
  import opened SpscRing

  /** A stretch of a run from one state to another: consecutive states are one step apart. */
  ghost predicate Runs(trace: seq<System>, from: System, end: System) {
    && trace != [] && trace[0] == from && trace[|trace| - 1] == end
    && forall i :: 0 <= i < |trace| - 1 ==> Step(trace[i], trace[i + 1])
  }

  lemma RunStarts(s: System)
    ensures Runs([s], s, s)
  {
  }

  /** One more step at the end of a run. */
  lemma RunExtends(trace: seq<System>, from: System, s: System, t: System)
    requires Runs(trace, from, s) && Step(s, t)
    ensures Runs(trace + [t], from, t)
  {
  }

  class SpscByteQueue {
    const buf: array<byte>
    var w: nat
    var r: nat
    ghost var pushed: seq<seq<byte>>
    ghost var popped: seq<seq<byte>>

    ghost function State(): System
      reads this, buf
    {
      System(buf[..], w, r, Idle, Waiting, pushed, popped)
    }

    ghost predicate Valid()
      reads this, buf
    {
      buf.Length < 0x1_0000 && Inv(State())
    }

    /** The records that are in the ring, oldest first. */
    ghost function Queued(): (q: seq<seq<byte>>)
      reads this, buf
      requires Valid()
      ensures Sized(q)
    {
      Pending(State())
    }

    ghost function UsedBytes(): nat
      reads this, buf
      requires Valid()
    {
      Used(buf.Length, w, r)
    }

    constructor (cap: nat)
      requires 0 < cap < 0x1_0000
      ensures Valid() && fresh(buf) && buf.Length == cap
      ensures Init(State()) && Queued() == []
    {
      buf := new byte[cap];
      w, r := 0, 0;
      pushed, popped := [], [];
    }

    /**
     `len` is a uint16_t in the code, and the room test adds the header in 16 bits. The two longest
     lengths wrap it (SpscRing.AcceptsIsSoundIff): they pass whenever there is a byte of room, and
     overwrite the ring, of which nothing is then promised.
     */
    method Push(data: seq<byte>) returns (ok: bool, ghost trace: seq<System>)
      requires Valid() && |data| < 0x1_0000
      modifies this`w, this`pushed, buf
      ensures ok <==> 0 < |data| && (HEADER + |data|) % 0x1_0000 <= buf.Length - 1 - old(UsedBytes())
      ensures !ok ==> State() == old(State())
      ensures |data| <= 0xFFFD ==>
        && Valid()
        && (ok <==> 0 < |data| && HEADER + |data| <= buf.Length - 1 - old(UsedBytes()))
        && Queued() == old(Queued()) + (if ok then [data] else [])
        && Runs(trace, old(State()), State())
    {
      hide Runs, RingInv, ProducerInv, ConsumerInv, Frame, Window;
      ghost var s := State();
      ghost var fits := |data| <= 0xFFFD;
      trace := [s];
      RunStarts(s);
      if |data| == 0 {
        return false, trace;
      }
      var need := (HEADER + |data|) % 0x1_0000;
      var used := if w >= r then w - r else buf.Length - r + w;
      var freeB := buf.Length - 1 - used;
      if need > freeB {
        return false, trace;
      }
      ghost var t := s.(producer := Writing(data, 0, w));
      if fits {
        assert PushBegin(s, t, data);
        StepKeepsInv(s, t);
        RunExtends(trace, s, s, t);
      }
      var p;
      p, t, trace := PutRecord(w, data, s, t, trace + [t]);
      w := p;
      pushed := pushed + [data];
      if fits {
        assert PushPublish(t, State());
        PushPublishKeepsInv(t, State());
        RunExtends(trace, old(State()), t, State());
        assert Queued() == old(Queued()) + [data];
      }
      return true, trace + [State()];
    }

    /** The run so far has brought the producer to the `k`-th byte of this record, at `p`. */
    ghost predicate Writes(data: seq<byte>, k: nat, p: nat, from: System, s: System, trace: seq<System>)
      reads buf
    {
      Inv(s) && s.buf == buf[..] && s.producer == Writing(data, k, p) && Runs(trace, from, s)
    }

    /** The length, then the bytes, one `put` each. */
    method PutRecord(start: nat, data: seq<byte>, ghost from: System, ghost s: System, ghost trace: seq<System>)
      returns (p: nat, ghost t: System, ghost longer: seq<System>)
      requires start < buf.Length && |data| < 0x1_0000
      requires |data| <= 0xFFFD ==> Writes(data, 0, start, from, s, trace)
      modifies buf
      ensures p < buf.Length
      ensures |data| <= 0xFFFD ==>
        Writes(data, HEADER + |data|, p, from, t, longer)
        && t == s.(buf := buf[..], producer := Writing(data, HEADER + |data|, p))
    {
      hide Runs, Inv;
      p, t, longer := Put(start, |data| % 256, data, 0, from, s, trace);
      p, t, longer := Put(p, |data| / 256, data, 1, from, t, longer);
      for i := 0 to |data|
        invariant p < buf.Length
        invariant |data| <= 0xFFFD ==>
          Writes(data, HEADER + i, p, from, t, longer) && t == s.(buf := buf[..], producer := Writing(data, HEADER + i, p))
      {
        p, t, longer := Put(p, data[i], data, HEADER + i, from, t, longer);
      }
    }

    /** `put`: one byte in, and the next position; a step of the producer. */
    method Put(p: nat, b: byte, ghost data: seq<byte>, ghost k: nat,
               ghost from: System, ghost s: System, ghost trace: seq<System>)
      returns (next: nat, ghost t: System, ghost longer: seq<System>)
      requires p < buf.Length && |data| < 0x1_0000
      requires k < HEADER + |data| && b == Frame(data)[k]
      requires |data| <= 0xFFFD ==> Writes(data, k, p, from, s, trace)
      modifies buf
      ensures next < buf.Length
      ensures |data| <= 0xFFFD ==>
        Writes(data, k + 1, next, from, t, longer) && t == s.(buf := buf[..], producer := Writing(data, k + 1, next))
    {
      buf[p] := b;
      next := if p + 1 == buf.Length then 0 else p + 1;
      t := s.(buf := buf[..], producer := Writing(data, k + 1, next));
      longer := trace + [t];
      if |data| <= 0xFFFD {
        assert PushByte(s, t);
        PushByteKeepsInv(s, t);
        RunExtends(trace, from, s, t);
      }
    }

    /**
     The next record, as much of it as `outCap` holds, and its full length; 0 when the ring is
     empty.
     */
    method Pop(out: array<byte>, outCap: nat) returns (n: nat, ghost trace: seq<System>)
      requires Valid() && out != buf && outCap <= out.Length
      modifies this`r, this`popped, out
      ensures Valid()
      ensures n == 0 <==> old(Queued()) == []
      ensures n == 0 ==> State() == old(State()) && out[..] == old(out[..])
      ensures n > 0 ==>
        var rec, k := old(Queued())[0], if n < outCap then n else outCap;
        && n == |rec|
        && Queued() == old(Queued())[1..]
        && out[..k] == rec[..k] && out[k..] == old(out[k..])
      ensures Runs(trace, old(State()), State())
    {
      hide Runs, Window;
      ghost var s := State();
      trace := [s];
      RunStarts(s);
      if w == r {
        assert Queued() == [] by { assert |Frames(Queued())| == 0; }
        return 0, trace;
      }
      ghost var t := s.(consumer := Reading([], r));
      assert PopBegin(s, t);
      PopBeginKeepsInv(s, t);
      RunExtends(trace, s, s, t);
      ghost var rec := Queued()[0];
      var p;
      n, p, t, trace := GetRecord(r, out, outCap, s, t, trace + [t]);
      r := p;
      popped := popped + [rec];
      assert PopPublish(t, State());
      PopPublishKeepsInv(t, State());
      RunExtends(trace, old(State()), t, State());
      return n, trace + [State()];
    }

    /** The length, then the bytes, one `get` each; `out` takes what it holds. */
    method GetRecord(start: nat, out: array<byte>, outCap: nat, ghost from: System, ghost s: System,
                     ghost trace: seq<System>)
      returns (n: nat, p: nat, ghost t: System, ghost longer: seq<System>)
      requires out != buf && outCap <= out.Length
      requires start < buf.Length && Inv(s) && s.buf == buf[..] && s.consumer == Reading([], start)
      requires Runs(trace, from, s)
      modifies out
      ensures p < buf.Length && Pending(s) != [] && n == |Pending(s)[0]| > 0
      ensures var rec, k := Pending(s)[0], if n < outCap then n else outCap;
        && out[..k] == rec[..k] && out[k..] == old(out[k..])
        && t == s.(consumer := Reading(Frame(rec), p))
      ensures Inv(t)
      ensures Runs(longer, from, t)
    {
      hide Runs, RingInv, ProducerInv, Window;
      ghost var rec := Pending(s)[0];
      var lo: byte, hi: byte;
      lo, p, t, longer := Get(start, from, s, trace);
      hi, p, t, longer := Get(p, from, t, longer);
      n := lo + 256 * hi;
      for i := 0 to n
        invariant p < buf.Length && Inv(t)
        invariant Runs(longer, from, t)
        invariant t == s.(consumer := t.consumer) && t.consumer.Reading? && t.consumer.p == p
        invariant |t.consumer.got| == HEADER + i
        invariant forall k :: 0 <= k < out.Length ==>
          out[k] == if k < i && k < outCap then rec[k] else old(out[k])
      {
        var b: byte;
        b, p, t, longer := Get(p, from, t, longer);
        if i < outCap {
          out[i] := b;
        }
      }
      assert t.consumer.got == Frame(rec);
    }

    /** `get`: one byte out, and the next position; a step of the consumer. */
    method Get(p: nat, ghost from: System, ghost s: System, ghost trace: seq<System>)
      returns (b: byte, next: nat, ghost t: System, ghost longer: seq<System>)
      requires p < buf.Length
      requires Inv(s) && s.buf == buf[..] && s.consumer.Reading? && s.consumer.p == p
      requires |s.consumer.got| < |Frame(Pending(s)[0])|
      requires Runs(trace, from, s)
      ensures next < buf.Length
      ensures b == Frame(Pending(s)[0])[|s.consumer.got|]
      ensures t == s.(consumer := Reading(s.consumer.got + [b], next))
      ensures Inv(t)
      ensures Runs(longer, from, t)
    {
      b := buf[p];
      next := if p + 1 == buf.Length then 0 else p + 1;
      t := s.(consumer := Reading(s.consumer.got + [b], next));
      ghost var f := Frame(Pending(s)[0]);
      assert |s.consumer.got| >= HEADER ==> s.consumer.got[0] == f[0] && s.consumer.got[1] == f[1];
      assert PopByte(s, t);
      PopByteKeepsInv(s, t);
      RunExtends(trace, from, s, t);
      longer := trace + [t];
    }
  }
}
