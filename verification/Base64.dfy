/**
 The streaming base64 codec of lib/WebSockets/libb64: an encoder and a decoder that can be fed in
 pieces, and what they compute in the terms of section 4 of RFC 4648.
 */
module Base64 {
  import opened Bytes

  const CHARS_PER_LINE: nat := 72
  const NEWLINE: byte := 10
  const PAD: byte := 61

  /** The alphabet of table 1: A to Z, a to z, 0 to 9, + and /. */
  function EncodeValue(v: nat): byte {
    if v < 26 then 65 + v
    else if v < 52 then 97 + (v - 26)
    else if v < 62 then 48 + (v - 52)
    else if v == 62 then 43
    else if v == 63 then 47
    else PAD
  }

  /**
   What the decoder makes of a character: its place in the alphabet, something negative for any other,
   and for '{' whatever stands behind the decoding table.
   */
  function DecodeValue(c: byte, past: int): int {
    if 65 <= c <= 90 then c - 65
    else if 97 <= c <= 122 then c - 97 + 26
    else if 48 <= c <= 57 then c - 48 + 52
    else if c == 43 then 62
    else if c == 47 then 63
    else if c == PAD then -2
    else if c == 123 then past
    else -1
  }

  lemma DecodeUndoesEncode(v: nat, past: int)
    requires v < 64
    ensures DecodeValue(EncodeValue(v), past) == v
  {
  }

  /** The decoding table, from '+' to 'z': up to '@', the capital letters, what is between, and the small letters. */
  function Decoding(): (table: seq<int>)
    ensures |table| == 80
  {
    SignRow() + CapitalRow() + [-1, -1, -1, -1, -1, -1] + SmallRow()
  }

  function SignRow(): seq<int> {
    [62, -1, -1, -1, 63, 52, 53, 54, 55, 56, 57, 58, 59, 60, 61, -1, -1, -1, -2, -1, -1, -1]
  }

  function CapitalRow(): seq<int> {
    [0, 1, 2, 3, 4, 5, 6, 7, 8, 9, 10, 11, 12, 13, 14, 15, 16, 17, 18, 19, 20, 21, 22, 23, 24, 25]
  }

  function SmallRow(): seq<int> {
    [26, 27, 28, 29, 30, 31, 32, 33, 34, 35, 36, 37, 38, 39, 40, 41, 42, 43, 44, 45, 46, 47, 48, 49, 50, 51]
  }

  /** Storing a number in a signed `char`. */
  function Narrow(x: int): (v: int)
    ensures -128 <= v < 128
  {
    (x + 128) % 256 - 128
  }

  /** `value_in - 43`, as a signed `char`. */
  function TableIndex(c: byte): int {
    Narrow(Narrow(c) - 43)
  }

  /** The guard in front of the table. */
  predicate LooksUp(c: byte) {
    !(TableIndex(c) < 0 || TableIndex(c) > |Decoding()|)
  }

  /** The guard lets an index through that the table does not have, for one character: '{'. */
  lemma PastTableIff(c: byte)
    ensures LooksUp(c) && TableIndex(c) >= |Decoding()| <==> c == '{' as int
  {
    hide Decoding;
    TableSize();
  }

  lemma TableSize()
    ensures |Decoding()| == 80
  {
  }

  lemma SignRowMeans(i: nat, past: int)
    requires i < 22
    ensures |SignRow()| == 22 && SignRow()[i] == DecodeValue(43 + i, past)
  {
  }

  lemma LetterRowsMean(i: nat, past: int)
    requires i < 26
    ensures |CapitalRow()| == |SmallRow()| == 26
    ensures CapitalRow()[i] == DecodeValue(65 + i, past) && SmallRow()[i] == DecodeValue(97 + i, past)
  {
  }

  /** The entries of the table are the places in the alphabet. */
  lemma TableMeans(i: nat, past: int)
    requires i < 80
    ensures Decoding()[i] == DecodeValue(43 + i, past)
  {
    hide SignRow, CapitalRow, SmallRow;
    SignRowMeans(if i < 22 then i else 0, past);
    LetterRowsMean(if 22 <= i < 48 then i - 22 else if 54 <= i then i - 54 else 0, past);
  }

  /** base64_decode_value: guard, table, and what stands behind the table. */
  method LookUp(c: byte, past: int) returns (v: int)
    ensures v == DecodeValue(c, past)
  {
    hide Decoding;
    TableSize();
    PastTableIff(c);
    var i := TableIndex(c);
    if i < 0 || i > |Decoding()| {
      return -1;
    }
    if i == |Decoding()| {
      return past;
    }
    TableMeans(i, past);
    return Decoding()[i];
  }

  // ------------------------------------------------------------------ RFC 4648

  /** Three bytes as four characters. */
  function Quad(a: byte, b: byte, c: byte): (q: seq<byte>)
    ensures |q| == 4
  {
    [EncodeValue(a / 4), EncodeValue(a % 4 * 16 + b / 16), EncodeValue(b % 16 * 4 + c / 64), EncodeValue(c % 64)]
  }

  /** A full group, with the newline that ends a line. */
  function Group(plain: seq<byte>, groups: nat): seq<byte>
    requires |plain| >= 3
  {
    var quad := Quad(plain[0], plain[1], plain[2]);
    if groups == 17 then quad + [10] else quad
  }

  /** The encoding of section 4, with a newline behind every eighteenth full group. */
  function Encoding(plain: seq<byte>, groups: nat): seq<byte> {
    if |plain| == 0 then []
    else if |plain| == 1 then [EncodeValue(plain[0] / 4), EncodeValue(plain[0] % 4 * 16), PAD, PAD]
    else if |plain| == 2 then
      [EncodeValue(plain[0] / 4), EncodeValue(plain[0] % 4 * 16 + plain[1] / 16), EncodeValue(plain[1] % 16 * 4), PAD]
    else
      Group(plain, groups) + Encoding(plain[3..], if groups == CHARS_PER_LINE / 4 - 1 then 0 else groups + 1)
  }

  lemma {:induction false} EncodingLength(plain: seq<byte>, groups: nat)
    requires groups < 18
    ensures |Encoding(plain, groups)| == 4 * ((|plain| + 2) / 3) + (|plain| / 3 + groups) / 18
    decreases |plain|
  {
    hide Quad;
    if |plain| >= 3 {
      var next := if groups == 17 then 0 else groups + 1;
      EncodingLength(plain[3..], next);
      GroupLength(plain, groups);
      GroupCounts(|plain|, groups);
    }
  }

  lemma GroupLength(plain: seq<byte>, groups: nat)
    requires |plain| >= 3 && groups < 18
    ensures |Encoding(plain, groups)|
         == 4 + (if groups == 17 then 1 else 0) + |Encoding(plain[3..], if groups == 17 then 0 else groups + 1)|
  {
  }

  lemma GroupCounts(n: nat, groups: nat)
    requires n >= 3 && groups < 18
    ensures (n + 2) / 3 == (n - 3 + 2) / 3 + 1
    ensures (n / 3 + groups) / 18
         == (if groups == 17 then 1 else 0) + ((n - 3) / 3 + (if groups == 17 then 0 else groups + 1)) / 18
  {
  }

  /** 4 * ceil(n / 3) characters and floor(n / 54) newlines. */
  lemma EncodingLengthFromStart(plain: seq<byte>)
    ensures |Encoding(plain, 0)| == 4 * ((|plain| + 2) / 3) + |plain| / 54
  {
    EncodingLength(plain, 0);
  }

  // ------------------------------------------------------------------ the encoder

  /** Between bytes: how many of a group of three have been read, and the bits left over. */
  datatype EncodeStep = StepA | StepB | StepC
  datatype EncodeState = EncodeState(step: EncodeStep, result: nat, stepCount: nat)

  const ENCODE_START := EncodeState(StepA, 0, 0)

  function EncodeByte(s: EncodeState, f: byte): (EncodeState, seq<byte>) {
    match s.step
    case StepA => (EncodeState(StepB, f % 4 * 16, s.stepCount), [EncodeValue(f / 4)])
    case StepB => (EncodeState(StepC, f % 16 * 4, s.stepCount), [EncodeValue(s.result + f / 16)])
    case StepC =>
      var quad := [EncodeValue(s.result + f / 64), EncodeValue(f % 64)];
      if s.stepCount + 1 == CHARS_PER_LINE / 4 then (EncodeState(StepA, f % 64, 0), quad + [NEWLINE])
      else (EncodeState(StepA, f % 64, s.stepCount + 1), quad)
  }

  function EncodeAll(s: EncodeState, plain: seq<byte>): (EncodeState, seq<byte>)
    decreases |plain|
  {
    if plain == [] then (s, [])
    else
      var (next, out) := EncodeByte(s, plain[0]);
      var (end, rest) := EncodeAll(next, plain[1..]);
      (end, out + rest)
  }

  function EncodeEnd(s: EncodeState): seq<byte> {
    match s.step
    case StepA => [0]
    case StepB => [EncodeValue(s.result), PAD, PAD, 0]
    case StepC => [EncodeValue(s.result), PAD, 0]
  }

  /** Pieces do not matter: encoding them one after the other is encoding their concatenation. */
  lemma {:induction false} EncodeInPieces(s: EncodeState, a: seq<byte>, b: seq<byte>)
    ensures var (mid, first) := EncodeAll(s, a);
            var (end, second) := EncodeAll(mid, b);
            EncodeAll(s, a + b) == (end, first + second)
    decreases |a|
  {
    hide EncodeByte;
    if a == [] {
      assert a + b == b;
      assert [] + EncodeAll(s, b).1 == EncodeAll(s, b).1;
    } else {
      var step := EncodeByte(s, a[0]);
      EncodeInPieces(step.0, a[1..], b);
      assert (a + b)[0] == a[0] && (a + b)[1..] == a[1..] + b;
      var first := EncodeAll(step.0, a[1..]);
      var second := EncodeAll(first.0, b);
      Assoc(step.1, first.1, second.1);
    }
  }

  /** The encoder computes the encoding of RFC 4648, a newline after every 72 characters, and a NUL. */
  lemma {:induction false} EncoderIsRfc4648(plain: seq<byte>, result: nat, groups: nat)
    requires groups < 18
    ensures var (end, out) := EncodeAll(EncodeState(StepA, result, groups), plain);
            out + EncodeEnd(end) == Encoding(plain, groups) + [0]
    decreases |plain|
  {
    hide EncodeValue;
    var s := EncodeState(StepA, result, groups);
    if |plain| == 1 {
      assert EncodeAll(EncodeByte(s, plain[0]).0, plain[1..]) == (EncodeByte(s, plain[0]).0, []);
    } else if |plain| == 2 {
      TwoBytes(s, plain);
    } else if |plain| >= 3 {
      var next := ThreeBytes(s, plain);
      EncoderIsRfc4648(plain[3..], next.result, next.stepCount);
      var group := Group(plain, groups);
      var rest := EncodeAll(next, plain[3..]);
      Assoc(group, rest.1, EncodeEnd(rest.0));
      Assoc(group, Encoding(plain[3..], next.stepCount), [0]);
    }
  }

  lemma TwoBytes(s: EncodeState, plain: seq<byte>)
    requires |plain| == 2 && s.step == StepA
    ensures EncodeAll(s, plain).0 == EncodeState(StepC, plain[1] % 16 * 4, s.stepCount)
    ensures EncodeAll(s, plain).1 == [EncodeValue(plain[0] / 4), EncodeValue(plain[0] % 4 * 16 + plain[1] / 16)]
  {
    hide EncodeValue;
    var r1 := EncodeByte(s, plain[0]);
    var r2 := EncodeByte(r1.0, plain[1]);
    var p1 := plain[1..];
    assert p1[0] == plain[1] && p1[1..] == [];
    assert EncodeAll(r1.0, p1) == (r2.0, r2.1 + []);
    assert EncodeAll(s, plain) == (r2.0, r1.1 + (r2.1 + []));
  }

  /** One group of three bytes. */
  lemma ThreeBytes(s: EncodeState, plain: seq<byte>) returns (next: EncodeState)
    requires |plain| >= 3 && s.step == StepA && s.stepCount < 18
    ensures next.step == StepA && next.stepCount == if s.stepCount == 17 then 0 else s.stepCount + 1
    ensures EncodeAll(s, plain).0 == EncodeAll(next, plain[3..]).0
    ensures EncodeAll(s, plain).1 == Group(plain, s.stepCount) + EncodeAll(next, plain[3..]).1
  {
    hide EncodeValue;
    var r1 := EncodeByte(s, plain[0]);
    var r2 := EncodeByte(r1.0, plain[1]);
    var r3 := EncodeByte(r2.0, plain[2]);
    next := r3.0;
    var p1, p2 := plain[1..], plain[2..];
    assert p1[1..] == p2 && p2[1..] == plain[3..];
    var e3 := EncodeAll(next, plain[3..]);
    assert EncodeAll(r2.0, p2) == (e3.0, r3.1 + e3.1);
    assert EncodeAll(r1.0, p1) == (e3.0, r2.1 + (r3.1 + e3.1));
    assert EncodeAll(s, plain) == (e3.0, r1.1 + (r2.1 + (r3.1 + e3.1)));
    var group := Group(plain, s.stepCount);
    assert r1.1 + r2.1 + r3.1 == group;
    Assoc(r2.1, r3.1, e3.1);
    Assoc(r1.1, r2.1 + r3.1, e3.1);
    Assoc(r1.1, r2.1, r3.1);
    assert r1.1 + (r2.1 + (r3.1 + e3.1)) == group + e3.1;
  }

  // ------------------------------------------------------------------ the decoder

  /** Between characters: how many of a group of four have been read, and the byte begun with them. */
  datatype DecodeState = ReadNone | ReadOne(pending: nat) | ReadTwo(pending: nat) | ReadThree(pending: nat)

  /** The bits of the byte begun that are still to come are zero. */
  predicate Good(s: DecodeState) {
    match s
    case ReadNone => true
    case ReadOne(p) => p < 256 && p % 4 == 0
    case ReadTwo(p) => p < 256 && p % 16 == 0
    case ReadThree(p) => p < 256 && p % 64 == 0
  }

  /** Six bits go into the zero bits of the byte begun, or begin one. */
  lemma SextetFits(s: DecodeState, f: nat)
    requires Good(s) && f < 64
    ensures s.ReadOne? ==> s.pending + f / 16 < 256
    ensures s.ReadTwo? ==> s.pending + f / 4 < 256
    ensures s.ReadThree? ==> s.pending + f < 256
    ensures Good(ReadOne(f * 4)) && Good(ReadTwo(f % 16 * 16)) && Good(ReadThree(f % 4 * 64))
  {
    if s.ReadOne? {
      RoundRoom(s.pending, 4, 64);
    } else if s.ReadTwo? {
      RoundRoom(s.pending, 16, 16);
    } else if s.ReadThree? {
      RoundRoom(s.pending, 64, 4);
    }
  }

  lemma RoundRoom(p: nat, unit: nat, count: nat)
    requires 0 < unit && unit * count == 256 && p < 256 && p % unit == 0
    ensures p + unit <= 256
  {
    var k := p / unit;
    assert p == k * unit;
    if k >= count {
      Times(count, k, unit);
    } else {
      Times(k + 1, count, unit);
    }
  }

  lemma Times(a: nat, b: nat, unit: nat)
    requires a <= b
    ensures a * unit <= b * unit
  {
  }

  function TakeSextet(s: DecodeState, f: nat): (r: (DecodeState, seq<byte>))
    requires Good(s) && f < 64
    ensures Good(r.0)
  {
    SextetFits(s, f);
    match s
    case ReadNone => (ReadOne(f * 4), [])
    case ReadOne(p) => (ReadTwo(f % 16 * 16), [p + f / 16])
    case ReadTwo(p) => (ReadThree(f % 4 * 64), [p + f / 4])
    case ReadThree(p) => (ReadNone, [p + f])
  }

  /** Anything outside the alphabet is passed over. */
  function DecodeChar(s: DecodeState, c: byte, past: int): (r: (DecodeState, seq<byte>))
    requires Good(s)
    ensures Good(r.0)
  {
    var v := DecodeValue(c, past);
    if v < 0 then (s, []) else TakeSextet(s, v % 64)
  }

  function DecodeAll(s: DecodeState, code: seq<byte>, past: int): (r: (DecodeState, seq<byte>))
    requires Good(s)
    ensures Good(r.0)
    decreases |code|
  {
    if code == [] then (s, [])
    else
      var step := DecodeChar(s, code[0], past);
      var rest := DecodeAll(step.0, code[1..], past);
      (rest.0, step.1 + rest.1)
  }

  lemma {:induction false} DecodeInPieces(s: DecodeState, a: seq<byte>, b: seq<byte>, past: int)
    requires Good(s)
    ensures var first := DecodeAll(s, a, past);
            var second := DecodeAll(first.0, b, past);
            DecodeAll(s, a + b, past) == (second.0, first.1 + second.1)
    decreases |a|
  {
    hide DecodeChar;
    if a == [] {
      assert a + b == b;
      assert [] + DecodeAll(s, b, past).1 == DecodeAll(s, b, past).1;
    } else {
      var step := DecodeChar(s, a[0], past);
      DecodeInPieces(step.0, a[1..], b, past);
      assert (a + b)[0] == a[0] && (a + b)[1..] == a[1..] + b;
      var first := DecodeAll(step.0, a[1..], past);
      Assoc(step.1, first.1, DecodeAll(first.0, b, past).1);
    }
  }

  // ------------------------------------------------------------------ what stands behind the table

  /** How many characters of `code` have a value. */
  function Sextets(code: seq<byte>, past: int): nat {
    if code == [] then 0 else (if DecodeValue(code[0], past) < 0 then 0 else 1) + Sextets(code[1..], past)
  }

  /** The part of a byte begun that has been read, in quarters. */
  function Quarters(s: DecodeState): nat {
    match s
    case ReadNone => 0
    case ReadOne(_) => 3
    case ReadTwo(_) => 2
    case ReadThree(_) => 1
  }

  /** Each character with a value adds three quarters of a byte. */
  lemma {:induction false} SextetsAreCounted(s: DecodeState, code: seq<byte>, past: int)
    requires Good(s)
    ensures var r := DecodeAll(s, code, past);
      4 * |r.1| + Quarters(r.0) == Quarters(s) + 3 * Sextets(code, past)
    decreases |code|
  {
    hide DecodeValue;
    if code != [] {
      SextetsAreCounted(DecodeChar(s, code[0], past).0, code[1..], past);
    }
  }

  lemma {:induction false} PastAddsSextets(code: seq<byte>)
    ensures Sextets(code, -1) <= Sextets(code, 0)
    ensures '{' as int in code ==> Sextets(code, -1) < Sextets(code, 0)
  {
    if code != [] {
      PastAddsSextets(code[1..]);
    }
  }

  lemma {:induction false} PastIsNotRead(s: DecodeState, code: seq<byte>, past1: int, past2: int)
    requires Good(s) && '{' as int !in code
    ensures DecodeAll(s, code, past1) == DecodeAll(s, code, past2)
    decreases |code|
  {
    hide TakeSextet;
    if code != [] {
      PastIsNotRead(DecodeChar(s, code[0], past1).0, code[1..], past1, past2);
    }
  }

  /** What a message decodes to is independent of the memory behind the table exactly if it holds no '{'. */
  lemma MemoryIsReadIff(code: seq<byte>)
    ensures (forall past1, past2 :: DecodeAll(ReadNone, code, past1) == DecodeAll(ReadNone, code, past2))
       <==> '{' as int !in code
  {
    if '{' as int in code {
      SextetsAreCounted(ReadNone, code, -1);
      SextetsAreCounted(ReadNone, code, 0);
      PastAddsSextets(code);
      assert DecodeAll(ReadNone, code, -1) != DecodeAll(ReadNone, code, 0);
    } else {
      forall past1, past2 ensures DecodeAll(ReadNone, code, past1) == DecodeAll(ReadNone, code, past2) {
        PastIsNotRead(ReadNone, code, past1, past2);
      }
    }
  }

  /** The shortest such message: it decodes to nothing or begins a byte. */
  lemma OneBraceReadsMemory(past: int)
    ensures DecodeAll(ReadNone, ['{' as int], past).0 == if past < 0 then ReadNone else ReadOne(past % 64 * 4)
    ensures DecodeAll(ReadNone, ['{' as int], past).1 == []
  {
    var code: seq<byte> := ['{' as int];
    var step := DecodeChar(ReadNone, code[0], past);
    assert code[1..] == [];
    assert DecodeAll(step.0, code[1..], past) == (step.0, []);
    assert step.1 == [] && step.1 + DecodeAll(step.0, code[1..], past).1 == [];
  }

  /** An encoded sextet is taken for what it is. */
  lemma DecodeSextet(s: DecodeState, v: nat, past: int)
    requires Good(s) && v < 64
    ensures DecodeChar(s, EncodeValue(v), past) == TakeSextet(s, v)
  {
    hide EncodeValue, DecodeValue, TakeSextet;
    DecodeUndoesEncode(v, past);
  }

  lemma FirstByte(a: byte, b: byte)
    ensures a / 4 * 4 + (a % 4 * 16 + b / 16) / 16 == a && (a % 4 * 16 + b / 16) % 16 == b / 16
  {
  }

  lemma SecondByte(b: byte, c: byte)
    ensures b / 16 * 16 + (b % 16 * 4 + c / 64) / 4 == b && (b % 16 * 4 + c / 64) % 4 == c / 64
  {
  }

  lemma DecodeNext(s: DecodeState, v: nat, rest: seq<byte>, past: int)
    requires Good(s) && v < 64
    ensures var t := TakeSextet(s, v);
            && DecodeAll(s, [EncodeValue(v)] + rest, past).0 == DecodeAll(t.0, rest, past).0
            && DecodeAll(s, [EncodeValue(v)] + rest, past).1 == t.1 + DecodeAll(t.0, rest, past).1
  {
    hide EncodeValue, DecodeChar, TakeSextet;
    var code := [EncodeValue(v)] + rest;
    assert code[0] == EncodeValue(v) && code[1..] == rest;
    DecodeSextet(s, v, past);
  }

  /** Padding, newlines and the final NUL are passed over. */
  lemma DecodeSkips(s: DecodeState, c: byte, rest: seq<byte>, past: int)
    requires Good(s) && (c == PAD || c == NEWLINE || c == 0)
    ensures DecodeAll(s, [c] + rest, past) == DecodeAll(s, rest, past)
  {
    var code := [c] + rest;
    assert code[0] == c && code[1..] == rest;
    var r := DecodeAll(s, rest, past);
    assert [] + r.1 == r.1;
    assert DecodeAll(s, code, past) == (r.0, [] + r.1);
  }

  /** The first two characters of a group give its first byte. */
  lemma DecodeTwo(a: byte, b: byte, rest: seq<byte>, past: int)
    ensures Good(ReadTwo(b / 16 * 16))
    ensures DecodeAll(ReadNone, [EncodeValue(a / 4)] + ([EncodeValue(a % 4 * 16 + b / 16)] + rest), past).1
         == [a] + DecodeAll(ReadTwo(b / 16 * 16), rest, past).1
  {
    hide EncodeValue, DecodeAll;
    FirstByte(a, b);
    DecodeNext(ReadNone, a / 4, [EncodeValue(a % 4 * 16 + b / 16)] + rest, past);
    DecodeNext(ReadOne(a / 4 * 4), a % 4 * 16 + b / 16, rest, past);
    var after := DecodeAll(ReadTwo(b / 16 * 16), rest, past).1;
    assert [] + ([a] + after) == [a] + after;
  }

  lemma DecodeThird(b: byte, c: byte, rest: seq<byte>, past: int)
    ensures Good(ReadTwo(b / 16 * 16)) && Good(ReadThree(c / 64 * 64))
    ensures DecodeAll(ReadTwo(b / 16 * 16), [EncodeValue(b % 16 * 4 + c / 64)] + rest, past).1
         == [b] + DecodeAll(ReadThree(c / 64 * 64), rest, past).1
  {
    hide EncodeValue, DecodeAll;
    SecondByte(b, c);
    DecodeNext(ReadTwo(b / 16 * 16), b % 16 * 4 + c / 64, rest, past);
  }

  /** A full group, with or without a newline behind it. */
  lemma DecodeGroup(plain: seq<byte>, groups: nat, rest: seq<byte>, past: int)
    requires |plain| >= 3
    ensures DecodeAll(ReadNone, Group(plain, groups) + rest, past).1
         == plain[..3] + DecodeAll(ReadNone, rest, past).1
  {
    hide EncodeValue, DecodeAll;
    var a, b, c := plain[0], plain[1], plain[2];
    var w, x := EncodeValue(a / 4), EncodeValue(a % 4 * 16 + b / 16);
    var y, z := EncodeValue(b % 16 * 4 + c / 64), EncodeValue(c % 64);
    var tail := if groups == 17 then [NEWLINE] + rest else rest;
    assert Group(plain, groups) + rest == [w] + ([x] + ([y] + ([z] + tail)));
    DecodeTwo(a, b, [y] + ([z] + tail), past);
    DecodeThird(b, c, [z] + tail, past);
    DecodeNext(ReadThree(c / 64 * 64), c % 64, tail, past);
    assert c / 64 * 64 + c % 64 == c;
    if groups == 17 {
      DecodeSkips(ReadNone, NEWLINE, rest, past);
    }
    var after := DecodeAll(ReadNone, rest, past).1;
    assert [a] + ([b] + ([c] + after)) == plain[..3] + after;
  }

  /** Decoding an encoding gives the bytes back. */
  lemma {:induction false} DecodeUndoesEncoding(plain: seq<byte>, groups: nat, past: int)
    ensures DecodeAll(ReadNone, Encoding(plain, groups) + [0], past).1 == plain
    decreases |plain|
  {
    hide EncodeValue, DecodeAll, Group;
    if |plain| == 0 {
      assert Encoding(plain, groups) + [0] == [0] + [];
      DecodeSkips(ReadNone, 0, [], past);
      DecodeNothing(ReadNone, past);
    } else if |plain| == 1 {
      var a := plain[0];
      assert Encoding(plain, groups) + [0]
          == [EncodeValue(a / 4)] + ([EncodeValue(a % 4 * 16 + 0 / 16)] + ([PAD] + ([PAD] + ([0] + []))));
      DecodeTwo(a, 0, [PAD] + ([PAD] + ([0] + [])), past);
      DecodeSkips(ReadTwo(0), PAD, [PAD] + ([0] + []), past);
      DecodeSkips(ReadTwo(0), PAD, [0] + [], past);
      DecodeSkips(ReadTwo(0), 0, [], past);
      DecodeNothing(ReadTwo(0), past);
    } else if |plain| == 2 {
      var a, b := plain[0], plain[1];
      assert Encoding(plain, groups) + [0]
          == [EncodeValue(a / 4)] + ([EncodeValue(a % 4 * 16 + b / 16)]
             + ([EncodeValue(b % 16 * 4 + 0 / 64)] + ([PAD] + ([0] + []))));
      DecodeTwo(a, b, [EncodeValue(b % 16 * 4 + 0 / 64)] + ([PAD] + ([0] + [])), past);
      DecodeThird(b, 0, [PAD] + ([0] + []), past);
      DecodeSkips(ReadThree(0), PAD, [0] + [], past);
      DecodeSkips(ReadThree(0), 0, [], past);
      DecodeNothing(ReadThree(0), past);
    } else {
      var next := if groups == 17 then 0 else groups + 1;
      var rest := Encoding(plain[3..], next);
      Assoc(Group(plain, groups), rest, [0]);
      DecodeGroup(plain, groups, rest + [0], past);
      DecodeUndoesEncoding(plain[3..], next, past);
    }
  }

  lemma DecodeNothing(s: DecodeState, past: int)
    requires Good(s)
    ensures DecodeAll(s, [], past).1 == []
  {
  }

  // ------------------------------------------------------------------ any pieces

  function EncodeBlocks(s: EncodeState, blocks: seq<seq<byte>>): (EncodeState, seq<byte>)
    decreases |blocks|
  {
    if blocks == [] then (s, [])
    else
      var first := EncodeAll(s, blocks[0]);
      var rest := EncodeBlocks(first.0, blocks[1..]);
      (rest.0, first.1 + rest.1)
  }

  function DecodeBlocks(s: DecodeState, blocks: seq<seq<byte>>, past: int): seq<byte>
    requires Good(s)
    decreases |blocks|
  {
    if blocks == [] then []
    else
      var first := DecodeAll(s, blocks[0], past);
      first.1 + DecodeBlocks(first.0, blocks[1..], past)
  }

  lemma {:induction false} EncodeBlocksIsEncodeAll(s: EncodeState, blocks: seq<seq<byte>>)
    ensures EncodeBlocks(s, blocks) == EncodeAll(s, Flatten(blocks))
    decreases |blocks|
  {
    hide EncodeAll;
    if blocks == [] {
      EncodeNothing(s);
    } else {
      EncodeInPieces(s, blocks[0], Flatten(blocks[1..]));
      EncodeBlocksIsEncodeAll(EncodeAll(s, blocks[0]).0, blocks[1..]);
    }
  }

  lemma EncodeNothing(s: EncodeState)
    ensures EncodeAll(s, []) == (s, [])
  {
  }

  lemma {:induction false} DecodeBlocksIsDecodeAll(s: DecodeState, blocks: seq<seq<byte>>, past: int)
    requires Good(s)
    ensures DecodeBlocks(s, blocks, past) == DecodeAll(s, Flatten(blocks), past).1
    decreases |blocks|
  {
    hide DecodeAll;
    if blocks == [] {
      DecodeNothing(s, past);
    } else {
      DecodeInPieces(s, blocks[0], Flatten(blocks[1..]), past);
      DecodeBlocksIsDecodeAll(DecodeAll(s, blocks[0], past).0, blocks[1..], past);
    }
  }

  /** However the input was cut for the encoder and its output for the decoder, the input comes back. */
  lemma RoundTrip(blocks: seq<seq<byte>>, codeBlocks: seq<seq<byte>>, past: int)
    requires var e := EncodeBlocks(ENCODE_START, blocks); Flatten(codeBlocks) == e.1 + EncodeEnd(e.0)
    ensures DecodeBlocks(ReadNone, codeBlocks, past) == Flatten(blocks)
    ensures Flatten(codeBlocks) == Encoding(Flatten(blocks), 0) + [0]
  {
    hide EncodeAll, DecodeAll, EncodeBlocks, DecodeBlocks, Encoding;
    EncodeBlocksIsEncodeAll(ENCODE_START, blocks);
    EncoderIsRfc4648(Flatten(blocks), 0, 0);
    DecodeBlocksIsDecodeAll(ReadNone, codeBlocks, past);
    DecodeUndoesEncoding(Flatten(blocks), 0, past);
  }

  // ------------------------------------------------------------------ the code

  /** Having encoded the first `i` bytes into `code`, the encoder is at `s`. */
  predicate EncodedSoFar(start: EncodeState, plain: seq<byte>, i: nat, s: EncodeState, code: seq<byte>) {
    && i <= |plain|
    && EncodeAll(start, plain).0 == EncodeAll(s, plain[i..]).0
    && EncodeAll(start, plain).1 == code + EncodeAll(s, plain[i..]).1
  }

  lemma EncodingStarts(start: EncodeState, plain: seq<byte>)
    ensures EncodedSoFar(start, plain, 0, start, [])
  {
    hide EncodeAll;
    assert plain[0..] == plain;
  }

  lemma EncodingSteps(start: EncodeState, plain: seq<byte>, i: nat, s: EncodeState, code: seq<byte>)
    requires EncodedSoFar(start, plain, i, s, code) && i < |plain|
    ensures EncodedSoFar(start, plain, i + 1, EncodeByte(s, plain[i]).0, code + EncodeByte(s, plain[i]).1)
  {
    hide EncodeByte;
    var step := EncodeByte(s, plain[i]);
    assert plain[i..][0] == plain[i] && plain[i..][1..] == plain[i + 1..];
    Assoc(code, step.1, EncodeAll(step.0, plain[i + 1..]).1);
  }

  lemma EncodingEnds(start: EncodeState, plain: seq<byte>, s: EncodeState, code: seq<byte>)
    requires EncodedSoFar(start, plain, |plain|, s, code)
    ensures EncodeAll(start, plain).0 == s && EncodeAll(start, plain).1 == code
  {
    assert plain[|plain|..] == [];
    assert EncodeAll(s, plain[|plain|..]) == (s, []);
  }

  class Encoder {
    var state: EncodeState

    constructor ()
      ensures state == ENCODE_START
    {
      state := ENCODE_START;
    }

    /** base64_encode_block: resumes at the step the last block ended with. */
    method EncodeBlock(plain: seq<byte>) returns (code: seq<byte>)
      modifies this
      ensures state == EncodeAll(old(state), plain).0 && code == EncodeAll(old(state), plain).1
    {
      hide EncodeAll, EncodeValue, EncodedSoFar;
      code := [];
      var step, result, stepCount := state.step, state.result, state.stepCount;
      EncodingStarts(state, plain);
      for i := 0 to |plain|
        invariant EncodedSoFar(old(state), plain, i, EncodeState(step, result, stepCount), code)
      {
        EncodingSteps(old(state), plain, i, EncodeState(step, result, stepCount), code);
        var out;
        step, result, stepCount, out := EncodeOne(step, result, stepCount, plain[i]);
        code := code + out;
      }
      state := EncodeState(step, result, stepCount);
      EncodingEnds(old(state), plain, state, code);
    }

    /** One byte, at the step it meets. */
    method EncodeOne(step0: EncodeStep, result0: nat, stepCount0: nat, fragment: byte)
      returns (step: EncodeStep, result: nat, stepCount: nat, out: seq<byte>)
      ensures EncodeState(step, result, stepCount) == EncodeByte(EncodeState(step0, result0, stepCount0), fragment).0
      ensures out == EncodeByte(EncodeState(step0, result0, stepCount0), fragment).1
    {
      hide EncodeValue;
      step, result, stepCount := step0, result0, stepCount0;
      match step0 {
        case StepA =>
          out := [EncodeValue(fragment / 4)];
          result := fragment % 4 * 16;
          step := StepB;
        case StepB =>
          result := result + fragment / 16;
          out := [EncodeValue(result)];
          result := fragment % 16 * 4;
          step := StepC;
        case StepC =>
          result := result + fragment / 64;
          out := [EncodeValue(result)];
          result := fragment % 64;
          out := out + [EncodeValue(result)];
          stepCount := stepCount + 1;
          if stepCount == CHARS_PER_LINE / 4 {
            out := out + [NEWLINE];
            stepCount := 0;
          }
          step := StepA;
      }
    }

    /** base64_encode_blockend. */
    method EncodeBlockEnd() returns (code: seq<byte>)
      ensures code == EncodeEnd(state)
    {
      code := [];
      match state.step {
        case StepB =>
          code := code + [EncodeValue(state.result)];
          code := code + [PAD];
          code := code + [PAD];
        case StepC =>
          code := code + [EncodeValue(state.result)];
          code := code + [PAD];
        case StepA =>
      }
      code := code + [0];
    }
  }

  /** Having decoded the first `i` characters into `plain`, the decoder is at `s`. */
  predicate DecodedSoFar(start: DecodeState, code: seq<byte>, past: int, i: nat, s: DecodeState, plain: seq<byte>) {
    && i <= |code| && Good(start) && Good(s)
    && DecodeAll(start, code, past).0 == DecodeAll(s, code[i..], past).0
    && DecodeAll(start, code, past).1 == plain + DecodeAll(s, code[i..], past).1
  }

  lemma DecodingStarts(start: DecodeState, code: seq<byte>, past: int)
    requires Good(start)
    ensures DecodedSoFar(start, code, past, 0, start, [])
  {
    hide DecodeAll;
    assert code[0..] == code;
  }

  lemma DecodingSteps(start: DecodeState, code: seq<byte>, past: int, i: nat, s: DecodeState, plain: seq<byte>)
    requires DecodedSoFar(start, code, past, i, s, plain) && i < |code|
    ensures var step := DecodeChar(s, code[i], past);
            DecodedSoFar(start, code, past, i + 1, step.0, plain + step.1)
  {
    hide DecodeValue, TakeSextet;
    var step := DecodeChar(s, code[i], past);
    DecodeCharIsGood(s, code[i], past);
    assert code[i..][0] == code[i] && code[i..][1..] == code[i + 1..];
    Assoc(plain, step.1, DecodeAll(step.0, code[i + 1..], past).1);
  }

  lemma DecodeCharIsGood(s: DecodeState, c: byte, past: int)
    requires Good(s)
    ensures Good(DecodeChar(s, c, past).0)
  {
  }

  lemma DecodingEnds(start: DecodeState, code: seq<byte>, past: int, s: DecodeState, plain: seq<byte>)
    requires DecodedSoFar(start, code, past, |code|, s, plain)
    ensures DecodeAll(start, code, past).0 == s && DecodeAll(start, code, past).1 == plain
  {
    assert code[|code|..] == [];
    assert DecodeAll(s, code[|code|..], past) == (s, []);
  }

  class Decoder {
    var state: DecodeState
    /** The entry behind the decoding table. */
    const past: int

    constructor (past: int)
      ensures state == ReadNone && this.past == past
    {
      state, this.past := ReadNone, past;
    }

    /** base64_decode_block: resumes with the byte the last block had begun. */
    method DecodeBlock(code: seq<byte>) returns (plain: seq<byte>)
      requires Good(state)
      modifies this
      ensures Good(state)
      ensures state == DecodeAll(old(state), code, past).0 && plain == DecodeAll(old(state), code, past).1
    {
      hide DecodeAll, DecodeValue, DecodeChar, DecodedSoFar;
      plain := [];
      DecodingStarts(state, code, past);
      for i := 0 to |code|
        invariant Good(state) && DecodedSoFar(old(state), code, past, i, state, plain)
      {
        DecodingSteps(old(state), code, past, i, state, plain);
        plain := DecodeOne(code[i], plain);
      }
      DecodingEnds(old(state), code, past, state, plain);
    }

    /** One character: passed over, or its six bits put where the step says. */
    method DecodeOne(c: byte, plain0: seq<byte>) returns (plain: seq<byte>)
      requires Good(state)
      modifies this
      ensures Good(state) && state == DecodeChar(old(state), c, past).0
      ensures plain == plain0 + DecodeChar(old(state), c, past).1
    {
      hide DecodeValue;
      plain := plain0;
      var value := LookUp(c, past);
      if value < 0 {
        return;
      }
      var fragment := value % 64;
      SextetFits(state, fragment);
      match state {
        case ReadNone =>
          state := ReadOne(fragment * 4);
        case ReadOne(p) =>
          plain := plain + [p + fragment / 16];
          state := ReadTwo(fragment % 16 * 16);
        case ReadTwo(p) =>
          plain := plain + [p + fragment / 4];
          state := ReadThree(fragment % 4 * 64);
        case ReadThree(p) =>
          plain := plain + [p + fragment];
          state := ReadNone;
      }
    }
  }
}
