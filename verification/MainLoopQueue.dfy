/**
 Deferred tasks over the record ring (lib/Lightnet/Utils/MainLoopQueue.hpp). `post` and `drain`
 are critical sections on the ring, so here they are atomic; between two of them anything may
 post, which `Drain` takes as a parameter.
 */
module MainLoopQueues {
  import opened Bytes
  import opened SpscRing
  import opened SpscByteQueues

  /** sizeof(TaskFn) on the 32-bit controller. */
  const FN_SIZE := 4
  const CAPACITY := 512
  const MAX_ARGS := 64

  /** A function pointer, as the bytes `memcpy` sees. */
  type TaskFn = fn: seq<byte> | |fn| == FN_SIZE witness [0, 0, 0, 0]

  const NULL_FN: TaskFn := [0, 0, 0, 0]

  datatype Task = Task(fn: TaskFn, args: seq<byte>)

  function Blob(task: Task): seq<byte> {
    task.fn + task.args
  }

  function Unblob(blob: seq<byte>): Task
    requires FN_SIZE <= |blob|
  {
    Task(blob[..FN_SIZE], blob[FN_SIZE..])
  }

  ghost predicate WellFormed(recs: seq<seq<byte>>) {
    forall i :: 0 <= i < |recs| ==> FN_SIZE <= |recs[i]| <= FN_SIZE + MAX_ARGS
  }

  function Tasks(recs: seq<seq<byte>>): (tasks: seq<Task>)
    requires WellFormed(recs)
    ensures |tasks| == |recs|
  {
    seq(|recs|, i requires 0 <= i < |recs| => Unblob(recs[i]))
  }

  lemma NoTask(recs: seq<seq<byte>>)
    requires WellFormed(recs)
    ensures recs == [] <==> Tasks(recs) == []
  {
  }

  lemma FirstTask(recs: seq<seq<byte>>)
    requires WellFormed(recs) && recs != []
    ensures WellFormed(recs[1..]) && [Unblob(recs[0])] + Tasks(recs[1..]) == Tasks(recs)
  {
  }

  lemma Posted(ran: seq<Task>, waiting: seq<Task>, first: seq<Task>, accepted: seq<Task>, more: seq<Task>)
    requires ran + waiting == first + accepted
    ensures ran + (waiting + more) == first + (accepted + more)
  {
    assert ran + (waiting + more) == (ran + waiting) + more;
  }

  lemma Ran(ran: seq<Task>, waiting: seq<Task>, called: seq<Task>, rest: seq<Task>)
    requires waiting == called + rest
    ensures ran + waiting == (ran + called) + rest
  {
  }

  class MainLoopQueue {
    const ring: SpscByteQueue

    ghost predicate Valid()
      reads this, ring, ring.buf
    {
      ring.Valid() && ring.buf.Length == CAPACITY && WellFormed(ring.Queued())
    }

    /** The tasks accepted and not yet run, oldest first. */
    ghost function Waiting(): seq<Task>
      reads this, ring, ring.buf
      requires Valid()
    {
      Tasks(ring.Queued())
    }

    ghost function Room(): nat
      reads this, ring, ring.buf
      requires Valid()
    {
      CAPACITY - 1 - ring.UsedBytes()
    }

    constructor ()
      ensures Valid() && fresh(ring) && fresh(ring.buf) && Waiting() == []
    {
      ring := new SpscByteQueue(CAPACITY);
    }

    method Post(task: Task) returns (ok: bool)
      requires Valid()
      modifies ring, ring.buf
      ensures Valid()
      ensures ok <==> task.fn != NULL_FN && |task.args| <= MAX_ARGS
                      && HEADER + FN_SIZE + |task.args| <= old(Room())
      ensures Waiting() == old(Waiting()) + (if ok then [task] else [])
    {
      if task.fn == NULL_FN || |task.args| > MAX_ARGS {
        return false;
      }
      var blob := Blob(task);
      assert Unblob(blob) == task;
      ghost var steps;
      ok, steps := ring.Push(blob);
    }

    /** One pass of the loop in `drain`: copy the next record out, and make the call it describes. */
    method RunNext(blob: array<byte>) returns (n: nat, ran: seq<Task>)
      requires Valid() && blob != ring.buf && blob.Length == FN_SIZE + MAX_ARGS
      modifies ring`r, ring`popped, blob
      ensures Valid()
      ensures n == 0 <==> old(Waiting()) == []
      ensures n == 0 ==> ran == [] && Waiting() == []
      ensures n > 0 ==> |ran| == 1 && ran + Waiting() == old(Waiting())
    {
      hide Unblob, Tasks;
      ghost var queued: seq<seq<byte>> := ring.Queued();
      ghost var steps;
      n, steps := ring.Pop(blob, blob.Length);
      if n == 0 {
        NoTask(queued);
        return n, [];
      }
      assert blob[..n] == queued[0];
      FirstTask(queued);
      ran := [Unblob(blob[..n])];
    }

    /**
     Runs tasks until the ring is empty. `others[i]` is what anyone else posts before the i-th
     pop: another thread, or the task that just ran. `ran` is every call `fn(args)` made, in
     order; `accepted` is every task of `others` that was posted with success.
     */
    method Drain(others: seq<seq<Task>>) returns (ran: seq<Task>, accepted: seq<Task>)
      requires Valid()
      modifies ring, ring.buf
      ensures Valid() && Waiting() == []
      ensures ran == old(Waiting()) + accepted
    {
      ran, accepted := [], [];
      var blob := new byte[FN_SIZE + MAX_ARGS];
      var i := 0;
      while true
        invariant Valid() && i <= |others|
        invariant ran + Waiting() == old(Waiting()) + accepted
        invariant fresh(blob)
        decreases |others| - i, |Waiting()|
      {
        if i < |others| {
          ghost var before := Waiting();
          var more := PostAll(others[i]);
          Posted(ran, before, old(Waiting()), accepted, more);
          accepted := accepted + more;
          i := i + 1;
        }
        ghost var waiting := Waiting();
        var n, called := RunNext(blob);
        Ran(ran, waiting, called, Waiting());
        ran := ran + called;
        if n == 0 {
          return;
        }
      }
    }

    method PostAll(tasks: seq<Task>) returns (accepted: seq<Task>)
      requires Valid()
      modifies ring, ring.buf
      ensures Valid()
      ensures Waiting() == old(Waiting()) + accepted
    {
      accepted := [];
      for i := 0 to |tasks|
        invariant Valid()
        invariant Waiting() == old(Waiting()) + accepted
      {
        var ok := Post(tasks[i]);
        if ok {
          accepted := accepted + [tasks[i]];
        }
      }
    }
  }
}
