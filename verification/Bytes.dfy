/** Vocabulary shared by the models: bytes, sequences, and records in a buffer. */
module Bytes {
  /** An 8-bit unsigned byte, as an integer. */
  type byte = b: int | 0 <= b < 256

  /** The two bytes of a 16-bit count, least significant first. */
  function Le16(n: nat): (bytes: seq<byte>)
    requires n < 0x1_0000
    ensures |bytes| == 2
    ensures FromLe16(bytes[0], bytes[1]) == n
  {
    [n % 256, n / 256]
  }

  function FromLe16(lo: byte, hi: byte): nat {
    lo + 256 * hi
  }

  function Max(a: nat, b: nat): nat {
    if a < b then b else a
  }

  lemma Assoc<T>(a: seq<T>, b: seq<T>, c: seq<T>)
    ensures (a + b) + c == a + (b + c)
  {
  }

  function Flatten<T>(parts: seq<seq<T>>): seq<T> {
    if parts == [] then [] else parts[0] + Flatten(parts[1..])
  }

  // ------------------------------------------------------------------ records

  /** A record in a queue's buffer: its 16-bit length, then its bytes. */
  function Frame(record: seq<byte>): (bytes: seq<byte>)
    requires |record| < 0x1_0000
    ensures |bytes| == 2 + |record|
  {
    Le16(|record|) + record
  }

  predicate Short(records: seq<seq<byte>>) {
    forall r :: r in records ==> |r| < 0x1_0000
  }

  function Frames(records: seq<seq<byte>>): (bytes: seq<byte>)
    requires Short(records)
    ensures bytes == [] <==> records == []
  {
    if records == [] then [] else Frame(records[0]) + Frames(records[1..])
  }

  lemma {:induction false} FramesAppend(records: seq<seq<byte>>, record: seq<byte>)
    requires Short(records) && |record| < 0x1_0000
    ensures Frames(records + [record]) == Frames(records) + Frame(record)
  {
    if records == [] {
      assert ([] + [record])[1..] == [];
    } else {
      assert (records + [record])[1..] == records[1..] + [record];
      FramesAppend(records[1..], record);
      Assoc(Frame(records[0]), Frames(records[1..]), Frame(record));
    }
  }
}
