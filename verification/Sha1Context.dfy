/**
 SHA1Init, SHA1Update and SHA1Final of lib/WebSockets/libsha1/libsha1.c: data of any size in any
 number of pieces, collected into blocks, with a 64-bit count kept in two words.
 */
module Sha1Contexts {
  import opened Sha1
  import T = Sha1Transform

  const TWO32: nat := 0x1_0000_0000
  const TWO64: nat := 0x1_0000_0000_0000_0000

  // ------------------------------------------------------------------ the count

  /** The two-word count after `len` more bytes. */
  function LowAfter(low: nat, len: nat): (r: nat)
    ensures r < TWO32
  {
    (low + 8 * len % TWO32) % TWO32
  }

  function HighAfter(low: nat, high: nat, len: nat): nat {
    ((if LowAfter(low, len) < low then (high + 1) % TWO32 else high) + len / 0x2000_0000) % TWO32
  }

  function Carry(low: nat, len: nat): nat {
    if low + 8 * len % TWO32 >= TWO32 then 1 else 0
  }

  /** A carry is seen as the low word getting smaller. */
  lemma LowCarries(low: nat, len: nat)
    requires low < TWO32
    ensures LowAfter(low, len) + TWO32 * Carry(low, len) == low + 8 * len % TWO32
    ensures LowAfter(low, len) < low <==> Carry(low, len) == 1
  {
  }

  lemma HighAdds(low: nat, high: nat, len: nat)
    requires low < TWO32 && high < TWO32
    ensures HighAfter(low, high, len) == (high + Carry(low, len) + len / 0x2000_0000) % TWO32
  {
    hide Carry, LowAfter;
    LowCarries(low, len);
    CarryIsBit(low, len);
  }

  lemma CarryIsBit(low: nat, len: nat)
    ensures Carry(low, len) <= 1
  {
  }

  lemma BitsOfLength(len: nat)
    ensures 8 * len == 8 * len % TWO32 + TWO32 * (len / 0x2000_0000)
  {
  }

  /** The count is right modulo 2^64. */
  lemma CountAdds(low: nat, high: nat, n: nat, len: nat)
    requires low < TWO32 && high < TWO32 && len < TWO32
    requires low + TWO32 * high == 8 * n % TWO64
    ensures LowAfter(low, len) + TWO32 * HighAfter(low, high, len) == 8 * (n + len) % TWO64
  {
    hide Carry, LowAfter, HighAfter;
    LowCarries(low, len);
    HighAdds(low, high, len);
    BitsOfLength(len);
    SplitMod(LowAfter(low, len), high + Carry(low, len) + len / 0x2000_0000);
    ModAdds(8 * n, 8 * len);
  }

  lemma SplitMod(low: nat, high: nat)
    requires low < TWO32
    ensures (low + TWO32 * high) % TWO64 == low + TWO32 * (high % TWO32)
  {
    var q := high / TWO32;
    assert high == high % TWO32 + TWO32 * q;
    assert low + TWO32 * high == low + TWO32 * (high % TWO32) + TWO64 * q;
  }

  lemma ModAdds(a: nat, b: nat)
    ensures (a % TWO64 + b) % TWO64 == (a + b) % TWO64
  {
  }

  lemma MultiplesDropOut(n: nat, y: nat)
    requires n >= 64 * y
    ensures (n - 64 * y) % 64 == n % 64
  {
  }

  /** Where in the buffer the next byte goes. */
  lemma CountGivesOffset(low: nat, high: nat, n: nat)
    requires low < TWO32 && low + TWO32 * high == 8 * n % TWO64
    ensures low / 8 % 64 == n % 64
  {
    var x := high + TWO32 * (8 * n / TWO64);
    assert 8 * n == low + TWO32 * x;
    var y := 0x80_0000 * x;
    assert low == 8 * (n - 64 * y);
    MultiplesDropOut(n, y);
  }

  /**
   The test for a full block adds in 32 bits. It is right exactly while the bytes waiting and the new
   ones together are fewer than 2^32.
   */
  lemma FullBlockTestIff(j: nat, len: nat)
    requires j < 64 && len < TWO32
    ensures ((j + len) % TWO32 > 63 <==> j + len > 63) <==> j + len < TWO32
  {
  }

  predicate FullBlock(j: nat, len: nat): (b: bool)
    requires j < 64 && j + len < TWO32
    ensures b <==> j + len > 63
  {
    (j + len) % TWO32 > 63
  }

  // ------------------------------------------------------------------ blocks of a message

  /** The whole blocks of a message, and the bytes behind them. */
  function Whole(m: seq<byte>): (w: seq<byte>)
    ensures |w| % 64 == 0
  {
    m[..|m| - |m| % 64]
  }

  function Tail(m: seq<byte>): (t: seq<byte>)
    ensures |t| == |m| % 64
  {
    m[|m| - |m| % 64..]
  }

  lemma OneMoreBlock(m: seq<byte>, n: nat)
    requires n % 64 == 0 && n + 64 <= |m|
    ensures HashBlocks(INITIAL, m[..n + 64]) == Compress(HashBlocks(INITIAL, m[..n]), m[n..n + 64])
  {
    hide Compress;
    var block := m[n..n + 64];
    assert m[..n + 64] == m[..n] + block;
    HashBlocksConcat(INITIAL, m[..n], block);
    assert block[..64] == block && block[64..] == [];
  }

  /** The bytes waiting in the buffer, filled up from new data, are the next block of the whole. */
  lemma FirstBlock(before: seq<byte>, data: seq<byte>, i: nat)
    requires |before| % 64 + i == 64 && i <= |data|
    ensures var all := before + data;
            (|before| + i) % 64 == 0
            && HashBlocks(INITIAL, all[..|before| + i])
            == Compress(HashBlocks(INITIAL, Whole(before)), Tail(before) + data[..i])
  {
    hide Compress, HashBlocks;
    var all := before + data;
    var n := |before| - |before| % 64;
    OneMoreBlock(all, n);
    assert all[..n] == Whole(before);
    assert all[n..n + 64] == Tail(before) + data[..i];
  }

  lemma LongTail(m: seq<byte>, data: seq<byte>, i: nat)
    requires (|m| + i) % 64 == 0 && i <= |data| < i + 64
    ensures Whole(m + data) == (m + data)[..|m| + i]
    ensures Tail(m + data) == data[i..] && |m + data| % 64 == |data| - i
  {
  }

  lemma ShortTail(m: seq<byte>, data: seq<byte>)
    requires |m| % 64 + |data| < 64
    ensures Whole(m + data) == Whole(m)
    ensures Tail(m + data) == Tail(m) + data && |m + data| % 64 == |m| % 64 + |data|
  {
    var n := |m| - |m| % 64;
    var all := m + data;
    SmallAddition(|m|, |data|);
    assert |all| - |all| % 64 == n;
    assert all[..n] == m[..n] && all[n..] == m[n..] + data;
  }

  lemma SmallAddition(n: nat, len: nat)
    requires n % 64 + len < 64
    ensures (n + len) % 64 == n % 64 + len
  {
  }

  // ------------------------------------------------------------------ the end of a message

  /** The eight count bytes, high word first and most significant byte first. */
  function CountBytes(low: nat, high: nat): (b: seq<byte>)
    ensures |b| == 8
  {
    seq(8, i requires 0 <= i < 8 => ByteAt(if i >= 4 then low else high, 3 - i % 4))
  }

  lemma CountByteIsLengthByte(low: nat, high: nat, n: nat, i: nat)
    requires low < TWO32 && high < TWO32 && low + TWO32 * high == n % TWO64 && i < 8
    ensures ByteAt(if i >= 4 then low else high, 3 - i % 4) == ByteAt(n, 7 - i)
  {
    hide ByteAt;
    var q := n / TWO64;
    assert n == low + TWO32 * (high + TWO32 * q);
    if i >= 4 {
      LowBytes(low, high + TWO32 * q, 3 - i % 4);
    } else {
      HighBytes(low, high + TWO32 * q, 3 - i % 4);
      LowBytes(high, q, 3 - i % 4);
    }
  }

  function Pow256(k: nat): nat {
    if k == 0 then 1 else 256 * Pow256(k - 1)
  }

  lemma DropMultiple(a: nat, y: nat)
    ensures (a + 256 * y) % 256 == a % 256 && (a + 256 * y) / 256 == a / 256 + y
  {
  }

  lemma PowTimes(j: nat, x: nat)
    requires j > 0
    ensures Pow256(j) * x == 256 * (Pow256(j - 1) * x)
  {
    TimesAssociates(Pow256(j - 1), x);
  }

  lemma TimesAssociates(p: nat, x: nat)
    ensures 256 * p * x == 256 * (p * x)
  {
  }

  lemma {:induction false} DropFromSum(low: nat, x: nat, j: nat, k: nat)
    requires k <= j
    ensures DropBytes(low + Pow256(j) * x, k) == DropBytes(low, k) + Pow256(j - k) * x
    decreases k
  {
    hide Pow256;
    if k > 0 {
      var y := Pow256(j - 1) * x;
      PowTimes(j, x);
      DropMultiple(low, y);
      DropFromSum(low / 256, x, j - 1, k - 1);
    }
  }

  lemma {:induction false} DropInTwo(n: nat, j: nat, k: nat)
    ensures DropBytes(n, j + k) == DropBytes(DropBytes(n, j), k)
    decreases j
  {
    if j > 0 {
      DropInTwo(n / 256, j - 1, k);
    }
  }

  lemma FourBytesIsAll(low: nat)
    requires low < TWO32
    ensures DropBytes(low, 4) == 0 && Pow256(4) == TWO32
  {
    assert low / 256 < 0x100_0000 && low / 256 / 256 < 0x1_0000 && low / 256 / 256 / 256 < 0x100;
    assert DropBytes(low, 4) == DropBytes(low / 256 / 256, 2);
    assert Pow256(4) == 0x1_0000 * Pow256(2);
  }

  lemma LowBytes(low: nat, x: nat, k: nat)
    requires low < TWO32 && k < 4
    ensures ByteAt(low + TWO32 * x, k) == ByteAt(low, k)
  {
    hide DropBytes;
    FourBytesIsAll(low);
    DropFromSum(low, x, 4, k);
    var y := Pow256(3 - k) * x;
    PowTimes(4 - k, x);
    DropMultiple(DropBytes(low, k), y);
  }

  lemma HighBytes(low: nat, x: nat, k: nat)
    requires low < TWO32 && k < 4
    ensures ByteAt(low + TWO32 * x, 4 + k) == ByteAt(x, k)
  {
    hide DropBytes;
    FourBytesIsAll(low);
    DropInTwo(low + TWO32 * x, 4, k);
    DropFromSum(low, x, 4, 4);
  }

  lemma CountIsLength(low: nat, high: nat, n: nat)
    requires low < TWO32 && high < TWO32 && low + TWO32 * high == 8 * n % TWO64
    ensures CountBytes(low, high) == LengthBytes(8 * n)
  {
    hide ByteAt;
    forall i | 0 <= i < 8
      ensures CountBytes(low, high)[i] == LengthBytes(8 * n)[i]
    {
      CountByteIsLengthByte(low, high, 8 * n, i);
    }
  }

  /** The digest as bytes: each word most significant byte first. */
  function StateBytes(h: Hash): seq<byte> {
    WordBytes(h.a) + WordBytes(h.b) + WordBytes(h.c) + WordBytes(h.d) + WordBytes(h.e)
  }

  function WordBytes(w: word): seq<byte> {
    [((w >> 24) & 255) as byte, ((w >> 16) & 255) as byte, ((w >> 8) & 255) as byte, (w & 255) as byte]
  }

  /** Read back as words, most significant byte first, the bytes are the digest. */
  lemma StateBytesAreWords(h: Hash)
    ensures var b := StateBytes(h);
      && |b| == 20
      && BigEndian(b[0], b[1], b[2], b[3]) == h.a && BigEndian(b[4], b[5], b[6], b[7]) == h.b
      && BigEndian(b[8], b[9], b[10], b[11]) == h.c && BigEndian(b[12], b[13], b[14], b[15]) == h.d
      && BigEndian(b[16], b[17], b[18], b[19]) == h.e
  {
    hide WordBytes, BigEndian;
    BytesAreWord(h.a);
    BytesAreWord(h.b);
    BytesAreWord(h.c);
    BytesAreWord(h.d);
    BytesAreWord(h.e);
  }

  lemma BytesAreWord(w: word)
    ensures var b := WordBytes(w); |b| == 4 && BigEndian(b[0], b[1], b[2], b[3]) == w
  {
  }

  /** While zeros are added one by one, the count shows the end after exactly the fewest. */
  lemma EndShowsInCount(n: nat, zeros: nat, low: nat, high: nat)
    requires low < TWO32 && low + TWO32 * high == 8 * (n + 1 + zeros) % TWO64 && zeros <= ZeroBytes(n)
    ensures low / 8 % 64 == 56 <==> zeros == ZeroBytes(n)
  {
    hide ZeroBytes;
    CountGivesOffset(low, high, n + 1 + zeros);
    ZeroBytesAreFewest(n, 55 + 64 * (n / 64 + 1) - n);
    if (n + 1 + zeros) % 64 == 56 {
      ZeroBytesAreFewest(n, zeros);
    }
  }

  lemma PaddedMessage(m: seq<byte>, zeros: seq<byte>, count: seq<byte>)
    requires zeros == seq(ZeroBytes(|m|), i => 0) && count == LengthBytes(8 * |m|)
    ensures m + [0x80] + zeros + count == m + Padding(|m|)
  {
    hide LengthBytes, ZeroBytes;
    assert Padding(|m|) == [0x80] + zeros + count;
  }

  lemma StateIsDigest(m: seq<byte>)
    ensures HashBlocks(INITIAL, Whole(m + Padding(|m|))) == Digest(m)
  {
    hide HashBlocks, Padding;
    PaddedIsWhole(m);
  }

  lemma PaddedIsWhole(m: seq<byte>)
    ensures Whole(m + Padding(|m|)) == m + Padding(|m|)
  {
    var p := Padding(|m|);
    var all := m + p;
    assert |all| % 64 == 0;
    assert all[..|all|] == all;
  }

  class Sha1Context {
    var state: Hash
    var low: nat
    var high: nat
    const buffer: array<byte>
    /** Everything given to the context so far. */
    ghost var message: seq<byte>

    ghost predicate Counts()
      reads this
    {
      low < TWO32 && high < TWO32 && low + TWO32 * high == 8 * |message| % TWO64
    }

    ghost predicate Valid()
      reads this, buffer
    {
      && buffer.Length == 64 && Counts()
      && state == HashBlocks(INITIAL, Whole(message))
      && buffer[..|message| % 64] == Tail(message)
    }

    /** SHA1Init. */
    constructor ()
      ensures Valid() && message == [] && fresh(buffer)
    {
      state, low, high := INITIAL, 0, 0;
      buffer := new byte[64](_ => 0);
      message := [];
    }

    /** The count goes up; the result is where the first new byte goes in the buffer. */
    method NextOffset(len: nat) returns (j: nat)
      requires Counts() && len < TWO32
      modifies this`low, this`high
      ensures low < TWO32 && high < TWO32 && low + TWO32 * high == 8 * (|message| + len) % TWO64
      ensures j == |message| % 64
    {
      CountAdds(low, high, |message|, len);
      CountGivesOffset(low, high, |message|);
      j := low;
      low := (low + 8 * len % TWO32) % TWO32;
      if low < j {
        high := (high + 1) % TWO32;
      }
      high := (high + len / 0x2000_0000) % TWO32;
      j := j / 8 % 64;
    }

    /** The memcpy into the buffer. */
    method CopyIn(j: nat, data: seq<byte>)
      requires buffer.Length == 64 && j + |data| <= 64
      modifies buffer
      ensures buffer[..j + |data|] == old(buffer[..j]) + data
    {
      for k := 0 to |data|
        invariant buffer[..j] == old(buffer[..j]) && buffer[j..j + k] == data[..k]
      {
        buffer[j + k] := data[k];
      }
      assert data[..|data|] == data;
      assert buffer[..j + |data|] == buffer[..j] + buffer[j..j + |data|];
    }

    /** The block that was waiting, filled up with the first `i` new bytes. */
    method FillBlock(j: nat, data: seq<byte>, i: nat)
      requires buffer.Length == 64 && state == HashBlocks(INITIAL, Whole(message))
      requires j == |message| % 64 && buffer[..j] == Tail(message) && j + i == 64 && i <= |data|
      modifies this`state, buffer
      ensures (|message| + i) % 64 == 0
      ensures state == HashBlocks(INITIAL, (message + data)[..|message| + i])
    {
      hide HashBlocks, Compress, Whole, Tail;
      CopyIn(j, data[..i]);
      assert buffer[..64] == buffer[..];
      FirstBlock(message, data, i);
      state := T.SHA1Transform(state, buffer[..]);
    }

    /**
     The blocks that are complete once the new data is there: the one waiting, filled up, and those
     within the data. `i` bytes of the data are used up.
     */
    method Blocks(j: nat, data: seq<byte>) returns (i: nat)
      requires buffer.Length == 64 && state == HashBlocks(INITIAL, Whole(message))
      requires j == |message| % 64 && buffer[..j] == Tail(message) && j + |data| > 63
      modifies this`state, buffer
      ensures i <= |data| < i + 64 && (|message| + i) % 64 == 0
      ensures state == HashBlocks(INITIAL, (message + data)[..|message| + i])
    {
      hide HashBlocks, Compress, Whole, Tail;
      ghost var all := message + data;
      i := 64 - j;
      FillBlock(j, data, i);
      while i + 63 < |data|
        invariant i <= |data| && (|message| + i) % 64 == 0
        invariant state == HashBlocks(INITIAL, all[..|message| + i])
      {
        OneMoreBlock(all, |message| + i);
        assert all[|message| + i..|message| + i + 64] == data[i..i + 64];
        state := T.SHA1Transform(state, data[i..i + 64]);
        i := i + 64;
      }
    }

    /** SHA1Update: what it leaves depends on the bytes given so far and not on the pieces. */
    method Update(data: seq<byte>)
      requires Valid() && |message| % 64 + |data| < TWO32
      modifies this, buffer
      ensures Valid() && message == old(message) + data
    {
      hide HashBlocks, Whole, Tail;
      var j := NextOffset(|data|);
      var i := 0;
      if FullBlock(j, |data|) {
        i := Blocks(j, data);
        j := 0;
        LongTail(message, data, i);
        assert buffer[..0] + data[i..] == data[i..];
      } else {
        ShortTail(message, data);
        assert data[0..] == data;
      }
      CopyIn(j, data[i..]);
      message := message + data;
    }

    /** SHA1Final: the padding of section 5.1.1, then the state as twenty bytes. The context is wiped. */
    method Final() returns (digest: seq<byte>)
      requires Valid()
      modifies this, buffer
      ensures digest == StateBytes(Digest(old(message)))
      ensures state == Hash(0, 0, 0, 0, 0) && low == high == 0 && forall i :: 0 <= i < buffer.Length ==> buffer[i] == 0
    {
      hide HashBlocks, Whole, Tail, Digest, LengthBytes, CountBytes, StateBytes, Padding;
      ghost var start := message;
      CountIsLength(low, high, |start|);
      var finalCount := CountBytes(low, high);
      Update([0x80]);
      ghost var zeros := Pad(start);
      Update(finalCount);
      PaddedMessage(start, zeros, finalCount);
      StateIsDigest(start);
      digest := StateBytes(state);
      state, low, high := Hash(0, 0, 0, 0, 0), 0, 0;
      for i := 0 to buffer.Length
        invariant forall j :: 0 <= j < i ==> buffer[j] == 0
        invariant state == Hash(0, 0, 0, 0, 0) && low == high == 0
      {
        buffer[i] := 0;
      }
    }

    /** Zero bytes until the count says that the block has room for the length and no more. */
    method Pad(ghost start: seq<byte>) returns (ghost zeros: seq<byte>)
      requires Valid() && message == start + [0x80]
      modifies this, buffer
      ensures Valid() && message == start + [0x80] + zeros && zeros == seq(ZeroBytes(|start|), i => 0)
    {
      hide HashBlocks, Whole, Tail, ZeroBytes;
      zeros := [];
      EndShowsInCount(|start|, 0, low, high);
      while low / 8 % 64 != 56
        invariant Valid() && message == start + [0x80] + zeros
        invariant |zeros| <= ZeroBytes(|start|) && zeros == seq(|zeros|, i => 0)
        invariant low / 8 % 64 == 56 <==> |zeros| == ZeroBytes(|start|)
        decreases ZeroBytes(|start|) - |zeros|
      {
        Update([0]);
        zeros := zeros + [0];
        EndShowsInCount(|start|, |zeros|, low, high);
      }
    }
  }
}
