/**
 CRC-16 as lib/Lightnet/Utils/Crc.cpp computes it (reflected polynomial 0xA001, initial value
 0xFFFF), and which damage it detects.
 */
module Crc {
  type byte = bv8

  const POLY: bv16 := 0xA001
  const START: bv16 := 0xFFFF

  // The word operations, by name, so that proofs can use their laws without their bits.

  function Xor(a: bv16, b: bv16): bv16 {
    a ^ b
  }

  function Half(a: bv16): bv16 {
    a >> 1
  }

  function Twice(a: bv16): bv16 {
    a << 1
  }

  predicate Low(a: bv16) {
    a & 1 == 1
  }

  /** One shift of the register. */
  function Shift(crc: bv16): bv16 {
    if Low(crc) then Xor(Half(crc), POLY) else Half(crc)
  }

  function ShiftN(crc: bv16, n: nat): bv16
    decreases n
  {
    if n == 0 then crc else ShiftN(Shift(crc), n - 1)
  }

  function Update(crc: bv16, a: byte): bv16 {
    ShiftN(Xor(crc, a as bv16), 8)
  }

  function UpdateAll(crc: bv16, data: seq<byte>): bv16
    decreases |data|
  {
    if data == [] then crc else UpdateAll(Update(crc, data[0]), data[1..])
  }

  function Crc16(data: seq<byte>): bv16 {
    UpdateAll(START, data)
  }

  /** crc16Update: eight passes of the loop. */
  method Crc16Update(crc0: bv16, a: byte) returns (crc: bv16)
    ensures crc == Update(crc0, a)
  {
    crc := crc0 ^ (a as bv16);
    for i := 0 to 8
      invariant ShiftN(crc, 8 - i) == Update(crc0, a)
    {
      crc := if crc & 1 == 1 then (crc >> 1) ^ POLY else crc >> 1;
    }
  }

  method ComputeCrc16(data: seq<byte>) returns (crc: bv16)
    ensures crc == Crc16(data)
  {
    crc := START;
    for i := 0 to |data|
      invariant UpdateAll(crc, data[i..]) == Crc16(data)
    {
      crc := Crc16Update(crc, data[i]);
      assert data[i..][1..] == data[i + 1..];
    }
  }

  lemma {:induction false} UpdateAllConcat(crc: bv16, a: seq<byte>, b: seq<byte>)
    ensures UpdateAll(crc, a + b) == UpdateAll(UpdateAll(crc, a), b)
    decreases |a|
  {
    if a == [] {
      assert a + b == b;
    } else {
      assert (a + b)[1..] == a[1..] + b;
      UpdateAllConcat(Update(crc, a[0]), a[1..], b);
    }
  }

  // ---------------------------------------------------------------- linearity

  lemma XorAssociates(a: bv16, b: bv16, c: bv16)
    ensures Xor(a, Xor(b, c)) == Xor(Xor(a, b), c)
  {
  }

  lemma XorZero(a: bv16)
    ensures Xor(a, 0) == a
  {
  }

  lemma XorCancels(a: bv16, b: bv16, c: bv16)
    requires Xor(a, b) == Xor(a, c)
    ensures b == c
  {
  }

  lemma XorCancelsRight(a: bv16, b: bv16, c: bv16)
    requires Xor(a, c) == Xor(b, c)
    ensures a == b
  {
  }

  lemma HalfOfXor(x: bv16, y: bv16)
    ensures Half(Xor(x, y)) == Xor(Half(x), Half(y))
  {
  }

  lemma LowOfXor(x: bv16, y: bv16)
    ensures Low(Xor(x, y)) == (Low(x) != Low(y))
  {
  }

  lemma XorSwaps(a: bv16, b: bv16, c: bv16)
    ensures Xor(Xor(a, b), c) == Xor(Xor(a, c), b)
  {
  }

  lemma XorTwice(a: bv16, b: bv16)
    ensures Xor(Xor(a, b), b) == a
  {
  }

  lemma XorDropsPair(a: bv16, b: bv16, c: bv16)
    ensures Xor(Xor(a, c), Xor(b, c)) == Xor(a, b)
  {
    hide Xor;
    XorAssociates(Xor(a, c), b, c);
    XorSwaps(a, c, b);
    XorTwice(Xor(a, b), c);
  }

  /** The register is linear: shifting a sum is summing the shifts. */
  lemma ShiftIsLinear(x: bv16, y: bv16)
    ensures Shift(Xor(x, y)) == Xor(Shift(x), Shift(y))
  {
    hide Xor, Half, Low;
    HalfOfXor(x, y);
    LowOfXor(x, y);
    XorAssociates(Half(x), Half(y), POLY);
    XorSwaps(Half(x), Half(y), POLY);
    XorDropsPair(Half(x), Half(y), POLY);
  }

  /** The polynomial's top bit is set, so no information is lost in a shift. */
  lemma ShiftIsInjective(x: bv16, y: bv16)
    requires Shift(x) == Shift(y)
    ensures x == y
  {
  }

  lemma {:induction false} ShiftNIsInjective(x: bv16, y: bv16, n: nat)
    requires ShiftN(x, n) == ShiftN(y, n)
    ensures x == y
    decreases n
  {
    hide Shift;
    if n > 0 {
      ShiftNIsInjective(Shift(x), Shift(y), n - 1);
      ShiftIsInjective(x, y);
    }
  }

  // ---------------------------------------------------------------- bit by bit

  function BitWord(bit: bool): bv16 {
    if bit then 1 else 0
  }

  /** Feeding one bit, least significant first: what the byte loop does eight times over. */
  function Feed(crc: bv16, bit: bool): bv16 {
    Shift(Xor(crc, BitWord(bit)))
  }

  function FeedAll(crc: bv16, bits: seq<bool>): bv16
    decreases |bits|
  {
    if bits == [] then crc else FeedAll(Feed(crc, bits[0]), bits[1..])
  }

  /** The `n` low bits of a word, least significant first. */
  function LowBits(w: bv16, n: nat): (bits: seq<bool>)
    ensures |bits| == n
    decreases n
  {
    if n == 0 then [] else [Low(w)] + LowBits(Half(w), n - 1)
  }

  /** The word whose low bits are these. */
  function Word(bits: seq<bool>): bv16 {
    if bits == [] then 0 else Xor(BitWord(bits[0]), Twice(Word(bits[1..])))
  }

  /** Only the `n` low bits of `w` can be set. */
  predicate Fits(w: bv16, n: nat)
    decreases n
  {
    if n == 0 then w == 0 else Fits(Half(w), n - 1)
  }

  function Bits(data: seq<byte>): (bits: seq<bool>)
    ensures |bits| == 8 * |data|
  {
    if data == [] then [] else LowBits(data[0] as bv16, 8) + Bits(data[1..])
  }

  lemma {:induction false} FeedAllConcat(crc: bv16, a: seq<bool>, b: seq<bool>)
    ensures FeedAll(crc, a + b) == FeedAll(FeedAll(crc, a), b)
    decreases |a|
  {
    if a == [] {
      assert a + b == b;
    } else {
      assert (a + b)[1..] == a[1..] + b;
      FeedAllConcat(Feed(crc, a[0]), a[1..], b);
    }
  }

  lemma SplitLowBit(w: bv16)
    ensures w == Xor(BitWord(Low(w)), Twice(Half(w)))
    ensures Short(Half(w))
  {
  }

  /** The top bit is free. */
  predicate Short(w: bv16) {
    w & 0x8000 == 0
  }

  lemma ShiftUndoesTwice(w: bv16)
    requires Short(w)
    ensures Shift(Twice(w)) == w
  {
  }

  lemma HalfOfPushed(bit: bool, w: bv16)
    requires Short(w)
    ensures Half(Xor(BitWord(bit), Twice(w))) == w
  {
  }

  lemma LowOfPushed(bit: bool, w: bv16)
    ensures Low(Xor(BitWord(bit), Twice(w))) == bit
  {
  }

  /** One shift of a register that holds a word on top of `crc` consumes the word's low bit. */
  lemma ShiftFeedsLowBit(crc: bv16, bit: bool, rest: bv16)
    requires Short(rest)
    ensures Shift(Xor(crc, Xor(BitWord(bit), Twice(rest)))) == Xor(Feed(crc, bit), rest)
  {
    hide Shift, BitWord, Xor, Twice, Short;
    XorAssociates(crc, BitWord(bit), Twice(rest));
    ShiftIsLinear(Xor(crc, BitWord(bit)), Twice(rest));
    ShiftUndoesTwice(rest);
  }

  /** Shifting a word through the register is feeding its bits. */
  lemma {:induction false} ShiftsFeedLowBits(crc: bv16, w: bv16, n: nat)
    requires Fits(w, n)
    ensures ShiftN(Xor(crc, w), n) == FeedAll(crc, LowBits(w, n))
    decreases n
  {
    hide Shift, BitWord, Xor, Twice, Short, Half, Low, Feed;
    if n == 0 {
      XorZero(crc);
    } else {
      var bit, rest := Low(w), Half(w);
      SplitLowBit(w);
      ShiftFeedsLowBit(crc, bit, rest);
      ShiftsFeedLowBits(Feed(crc, bit), rest, n - 1);
      assert LowBits(w, n)[1..] == LowBits(rest, n - 1);
    }
  }

  lemma ByteFits(a: byte)
    ensures Fits(a as bv16, 8)
  {
    var w := a as bv16;
    var w2 := Half(Half(w));
    var w4 := Half(Half(w2));
    var w6 := Half(Half(w4));
    assert Half(Half(w6)) == 0;
    assert Fits(w6, 2);
    assert Fits(w4, 4);
    assert Fits(w2, 6);
  }

  /** The checksum of a message is that of its bits, least significant bit of each byte first. */
  lemma {:induction false} CrcIsBitwise(crc: bv16, data: seq<byte>)
    ensures UpdateAll(crc, data) == FeedAll(crc, Bits(data))
    decreases |data|
  {
    hide ShiftN, Feed, Fits;
    if data != [] {
      ByteFits(data[0]);
      ShiftsFeedLowBits(crc, data[0] as bv16, 8);
      CrcIsBitwise(Update(crc, data[0]), data[1..]);
      FeedAllConcat(crc, LowBits(data[0] as bv16, 8), Bits(data[1..]));
    }
  }

  // ---------------------------------------------------------------- bursts

  lemma {:induction false} FitsMore(w: bv16, n: nat)
    requires Fits(w, n)
    ensures Fits(w, n + 1)
    decreases n
  {
    if n > 0 {
      FitsMore(Half(w), n - 1);
    }
  }

  lemma {:induction false} FitsUpTo(w: bv16, n: nat, m: nat)
    requires Fits(w, n) && n <= m
    ensures Fits(w, m)
    decreases m - n
  {
    if n < m {
      FitsMore(w, n);
      FitsUpTo(w, n + 1, m);
    }
  }

  lemma FifteenBitsAreShort(w: bv16)
    requires Fits(w, 15)
    ensures Short(w)
  {
    var w5 := Half(Half(Half(Half(Half(w)))));
    assert Fits(Half(Half(w)), 13);
    assert Fits(Half(Half(Half(Half(w)))), 11);
    assert Fits(w5, 10);
    var w10 := Half(Half(Half(Half(Half(w5)))));
    assert Fits(Half(Half(w5)), 8);
    assert Fits(Half(Half(Half(Half(w5)))), 6);
    assert Fits(w10, 5);
    assert Fits(Half(Half(w10)), 3);
    assert Fits(Half(Half(Half(Half(w10)))), 1);
  }

  lemma {:induction false} WordFits(bits: seq<bool>)
    requires |bits| <= 16
    ensures Fits(Word(bits), |bits|)
    ensures |bits| <= 15 ==> Short(Word(bits))
  {
    hide Half, Xor, Twice, BitWord, Short;
    if bits != [] {
      WordFits(bits[1..]);
      HalfOfPushed(bits[0], Word(bits[1..]));
    }
    if |bits| <= 15 {
      FitsUpTo(Word(bits), |bits|, 15);
      FifteenBitsAreShort(Word(bits));
    }
  }

  lemma {:induction false} WordIsInjective(a: seq<bool>, b: seq<bool>)
    requires |a| == |b| <= 16 && Word(a) == Word(b)
    ensures a == b
  {
    hide Half, Low, Xor, Twice, BitWord, Short;
    if a != [] {
      var p, q := a[1..], b[1..];
      WordFits(p);
      WordFits(q);
      HalfOfPushed(a[0], Word(p));
      HalfOfPushed(b[0], Word(q));
      LowOfPushed(a[0], Word(p));
      LowOfPushed(b[0], Word(q));
      WordIsInjective(p, q);
      assert a == [a[0]] + p && b == [b[0]] + q;
    }
  }

  /** Up to a register's worth of bits acts like one word added to the register. */
  lemma {:induction false} FeedWord(crc: bv16, bits: seq<bool>)
    requires |bits| <= 16
    ensures FeedAll(crc, bits) == ShiftN(Xor(crc, Word(bits)), |bits|)
    decreases |bits|
  {
    hide Shift, BitWord, Xor, Twice, Short, Feed;
    if bits == [] {
      XorZero(crc);
    } else {
      var rest := bits[1..];
      WordFits(rest);
      ShiftFeedsLowBit(crc, bits[0], Word(rest));
      FeedWord(Feed(crc, bits[0]), rest);
    }
  }

  /** From one register, different short strings of bits lead to different registers. */
  lemma ShortStringsDiffer(crc: bv16, a: seq<bool>, b: seq<bool>)
    requires |a| == |b| <= 16 && a != b
    ensures FeedAll(crc, a) != FeedAll(crc, b)
  {
    hide Xor, Word, FeedAll, ShiftN;
    FeedWord(crc, a);
    FeedWord(crc, b);
    if FeedAll(crc, a) == FeedAll(crc, b) {
      ShiftNIsInjective(Xor(crc, Word(a)), Xor(crc, Word(b)), |a|);
      XorCancels(crc, Word(a), Word(b));
      WordIsInjective(a, b);
    }
  }

  /** Registers that differ stay different while they are fed the same bits. */
  lemma {:induction false} DifferenceSurvives(s: bv16, t: bv16, bits: seq<bool>)
    requires s != t
    ensures FeedAll(s, bits) != FeedAll(t, bits)
    decreases |bits|
  {
    hide Shift, Xor, BitWord;
    if bits != [] {
      if Feed(s, bits[0]) == Feed(t, bits[0]) {
        ShiftIsInjective(Xor(s, BitWord(bits[0])), Xor(t, BitWord(bits[0])));
        XorCancelsRight(s, t, BitWord(bits[0]));
      }
      DifferenceSurvives(Feed(s, bits[0]), Feed(t, bits[0]), bits[1..]);
    }
  }

  lemma BurstInBits(crc: bv16, p: seq<bool>, u: seq<bool>, v: seq<bool>, q: seq<bool>)
    requires |u| == |v| <= 16 && u != v
    ensures FeedAll(crc, p + u + q) != FeedAll(crc, p + v + q)
  {
    hide FeedAll;
    FeedAllConcat(crc, p + u, q);
    FeedAllConcat(crc, p + v, q);
    FeedAllConcat(crc, p, u);
    FeedAllConcat(crc, p, v);
    ShortStringsDiffer(FeedAll(crc, p), u, v);
    DifferenceSurvives(FeedAll(FeedAll(crc, p), u), FeedAll(FeedAll(crc, p), v), q);
  }

  lemma {:induction false} LowBitsAreInjective(w: bv16, v: bv16, n: nat)
    requires Fits(w, n) && Fits(v, n) && LowBits(w, n) == LowBits(v, n)
    ensures w == v
    decreases n
  {
    hide Half, Low, Xor, Twice, BitWord, Short;
    if n > 0 {
      SplitLowBit(w);
      SplitLowBit(v);
      assert LowBits(w, n)[0] == Low(w) && LowBits(v, n)[0] == Low(v);
      assert LowBits(w, n)[1..] == LowBits(Half(w), n - 1);
      assert LowBits(v, n)[1..] == LowBits(Half(v), n - 1);
      LowBitsAreInjective(Half(w), Half(v), n - 1);
    }
  }

  lemma WidenIsInjective(a: byte, b: byte)
    requires a as bv16 == b as bv16
    ensures a == b
  {
  }

  lemma BitsOfFirst(x: seq<byte>)
    requires x != []
    ensures LowBits(x[0] as bv16, 8) == Bits(x)[..8]
    ensures Bits(x[1..]) == Bits(x)[8..]
  {
    hide LowBits;
  }

  lemma {:induction false} BitsAreInjective(x: seq<byte>, y: seq<byte>)
    requires |x| == |y| && Bits(x) == Bits(y)
    ensures x == y
  {
    hide LowBits, Fits;
    if x != [] {
      hide Bits;
      var u, v := x[0] as bv16, y[0] as bv16;
      BitsOfFirst(x);
      BitsOfFirst(y);
      ByteFits(x[0]);
      ByteFits(y[0]);
      LowBitsAreInjective(u, v, 8);
      WidenIsInjective(x[0], y[0]);
      BitsAreInjective(x[1..], y[1..]);
      assert x == [x[0]] + x[1..] && y == [y[0]] + y[1..];
    }
  }

  /** The two bit strings agree everywhere except in the sixteen positions from `k`. */
  predicate AgreeOutsideBurst(a: seq<bool>, b: seq<bool>, k: nat)
    requires |a| == |b|
  {
    forall i :: 0 <= i < |a| && !(k <= i < k + 16) ==> a[i] == b[i]
  }

  /**
   Every burst of at most sixteen bits is detected: equal-length messages that differ, but only
   inside one window of sixteen consecutive bits, have different checksums.
   */
  lemma BurstsAreDetected(x: seq<byte>, y: seq<byte>, k: nat)
    requires |x| == |y| && x != y
    requires AgreeOutsideBurst(Bits(x), Bits(y), k)
    ensures Crc16(x) != Crc16(y)
  {
    hide Bits, FeedAll, UpdateAll;
    var a, b := Bits(x), Bits(y);
    if a == b {
      BitsAreInjective(x, y);
    }
    var lo := if k < |a| then k else |a|;
    var hi := if k + 16 < |a| then k + 16 else |a|;
    assert a[..lo] == b[..lo];
    assert a[hi..] == b[hi..];
    assert a == a[..lo] + a[lo..hi] + a[hi..];
    assert b == b[..lo] + b[lo..hi] + b[hi..];
    BurstInBits(START, a[..lo], a[lo..hi], b[lo..hi], a[hi..]);
    CrcIsBitwise(START, x);
    CrcIsBitwise(START, y);
  }

  /** The bound is tight: these two messages differ in a window of seventeen bits and collide. */
  lemma SeventeenBitBurstCollides()
    ensures Crc16([0, 0, 0]) == Crc16([3, 0x40, 1])
  {
  }

  lemma NextByte(crc: bv16, data: seq<byte>, next: bv16, rest: seq<byte>)
    requires data != [] && rest == data[1..] && Update(crc, data[0]) == next
    ensures UpdateAll(crc, data) == UpdateAll(next, rest)
  {
  }

  lemma FirstSteps()
    ensures Update(0xFFFF, 0x31) == 0x947E && Update(0x947E, 0x32) == 0xF595 && Update(0xF595, 0x33) == 0x7A75
  {
  }

  lemma MiddleSteps()
    ensures Update(0x7A75, 0x34) == 0x30BA && Update(0x30BA, 0x35) == 0xA471 && Update(0xA471, 0x36) == 0x32E4
  {
  }

  lemma LastSteps()
    ensures Update(0x32E4, 0x37) == 0x9D73 && Update(0x9D73, 0x38) == 0x37DD && Update(0x37DD, 0x39) == 0x4B37
  {
  }

  /** The check value of this CRC: that of the nine digits "123456789". */
  lemma CheckValue()
    ensures Crc16([0x31, 0x32, 0x33, 0x34, 0x35, 0x36, 0x37, 0x38, 0x39]) == 0x4B37
  {
    hide Update, UpdateAll;
    FirstSteps();
    MiddleSteps();
    LastSteps();
    NextByte(0xFFFF, [0x31, 0x32, 0x33, 0x34, 0x35, 0x36, 0x37, 0x38, 0x39], 0x947E, [0x32, 0x33, 0x34, 0x35, 0x36, 0x37, 0x38, 0x39]);
    NextByte(0x947E, [0x32, 0x33, 0x34, 0x35, 0x36, 0x37, 0x38, 0x39], 0xF595, [0x33, 0x34, 0x35, 0x36, 0x37, 0x38, 0x39]);
    NextByte(0xF595, [0x33, 0x34, 0x35, 0x36, 0x37, 0x38, 0x39], 0x7A75, [0x34, 0x35, 0x36, 0x37, 0x38, 0x39]);
    NextByte(0x7A75, [0x34, 0x35, 0x36, 0x37, 0x38, 0x39], 0x30BA, [0x35, 0x36, 0x37, 0x38, 0x39]);
    NextByte(0x30BA, [0x35, 0x36, 0x37, 0x38, 0x39], 0xA471, [0x36, 0x37, 0x38, 0x39]);
    NextByte(0xA471, [0x36, 0x37, 0x38, 0x39], 0x32E4, [0x37, 0x38, 0x39]);
    NextByte(0x32E4, [0x37, 0x38, 0x39], 0x9D73, [0x38, 0x39]);
    NextByte(0x9D73, [0x38, 0x39], 0x37DD, [0x39]);
    NextByte(0x37DD, [0x39], 0x4B37, []);
    NoBytes(0x4B37);
  }

  lemma NoBytes(crc: bv16)
    ensures UpdateAll(crc, []) == crc
  {
  }
}
