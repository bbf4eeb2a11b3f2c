/**
 SHA1Transform of lib/WebSockets/libsha1/libsha1.c: a sixteen-word ring in place of the eighty-word
 schedule, and working variables that change roles instead of moving.
 */
module Sha1Transform {
  import opened Sha1
  import WordLaws

  /** Sixteen words as a little-endian machine loads them. */
  function LittleEndian(b0: byte, b1: byte, b2: byte, b3: byte): word {
    (b0 as word) | ((b1 as word) << 8) | ((b2 as word) << 16) | ((b3 as word) << 24)
  }

  function Rol24(l: word): word {
    (l << 24) | (l >> 8)
  }

  function Rol8(l: word): word {
    (l << 8) | (l >> 24)
  }

  /** blk0: the bytes of a loaded word turned round. */
  function SwapBytes(l: word): word {
    (Rol24(l) & 0xFF00FF00) | (Rol8(l) & 0x00FF00FF)
  }

  lemma SwappedIsBigEndian(b0: byte, b1: byte, b2: byte, b3: byte)
    ensures SwapBytes(LittleEndian(b0, b1, b2, b3)) == BigEndian(b0, b1, b2, b3)
  {
    WordLaws.TurnedRound(b0, b1, b2, b3, LittleEndian(b0, b1, b2, b3));
  }

  /** The choice and majority functions in the form the macros use. */
  function Choose(w: word, x: word, y: word): word {
    (w & (x ^ y)) ^ y
  }

  function Majority(w: word, x: word, y: word): word {
    ((w | x) & y) | (w & x)
  }

  lemma ChooseIsCh(w: word, x: word, y: word)
    ensures Choose(w, x, y) == Ch(w, x, y)
  {
    WordLaws.ChooseByMask(w, x, y);
  }

  lemma MajorityIsMaj(w: word, x: word, y: word)
    ensures Majority(w, x, y) == Maj(w, x, y)
  {
    WordLaws.MajorityByMasks(w, x, y);
  }

  function Loaded(buffer: seq<byte>, s: nat): word
    requires |buffer| == 64 && s < 16
  {
    LittleEndian(buffer[4 * s], buffer[4 * s + 1], buffer[4 * s + 2], buffer[4 * s + 3])
  }

  /** Before round `t` the ring holds the last sixteen schedule words and, at first, words as loaded. */
  ghost predicate RingHolds(ring: seq<word>, buffer: seq<byte>, t: nat)
    requires |buffer| == 64
  {
    && |ring| == 16
    && (forall j :: 0 <= j < t <= j + 16 ==> ring[j % 16] == W(Words(buffer), j))
    && (forall s :: t <= s < 16 ==> ring[s] == Loaded(buffer, s))
  }

  lemma LoadedIsFirstSixteen(buffer: seq<byte>, t: nat)
    requires |buffer| == 64 && t < 16
    ensures SwapBytes(Loaded(buffer, t)) == W(Words(buffer), t)
  {
    SwappedIsBigEndian(buffer[4 * t], buffer[4 * t + 1], buffer[4 * t + 2], buffer[4 * t + 3]);
  }

  /** Overwriting the slot that holds word `t - 16` with word `t` keeps the last sixteen. */
  lemma RingAdvances(ring: seq<word>, buffer: seq<byte>, t: nat)
    requires |buffer| == 64 && RingHolds(ring, buffer, t)
    ensures RingHolds(ring[t % 16 := W(Words(buffer), t)], buffer, t + 1)
  {
    hide W, Words, Loaded;
    var next := ring[t % 16 := W(Words(buffer), t)];
    forall j | 0 <= j < t + 1 <= j + 16
      ensures next[j % 16] == W(Words(buffer), j)
    {
      if j < t {
        assert j % 16 != t % 16;
      }
    }
  }

  /** Four slots of the ring hold what the schedule combines. */
  lemma RingMixes(ring: seq<word>, buffer: seq<byte>, t: nat)
    requires |buffer| == 64 && RingHolds(ring, buffer, t) && 16 <= t
    ensures Mix(ring[(t + 13) % 16], ring[(t + 8) % 16], ring[(t + 2) % 16], ring[t % 16]) == W(Words(buffer), t)
  {
    hide Words, Loaded, Mix;
    assert (t - 3) % 16 == (t + 13) % 16;
    assert (t - 8) % 16 == (t + 8) % 16;
    assert (t - 14) % 16 == (t + 2) % 16;
    assert (t - 16) % 16 == t % 16;
    assert ring[(t - 3) % 16] == W(Words(buffer), t - 3);
    assert ring[(t - 8) % 16] == W(Words(buffer), t - 8);
    assert ring[(t - 14) % 16] == W(Words(buffer), t - 14);
    assert ring[(t - 16) % 16] == W(Words(buffer), t - 16);
  }

  /** blk0 and blk: the schedule word of round `t`, left in its ring slot. */
  method Blk(block: array<word>, ghost buffer: seq<byte>, t: nat) returns (w: word)
    requires block.Length == 16 && |buffer| == 64 && RingHolds(block[..], buffer, t)
    modifies block
    ensures w == W(Words(buffer), t)
    ensures RingHolds(block[..], buffer, t + 1)
  {
    hide RingHolds, W, Words, SwapBytes, Mix;
    ghost var ring := block[..];
    if t < 16 {
      FirstSlotIsLoaded(ring, buffer, t);
      LoadedIsFirstSixteen(buffer, t);
      w := SwapBytes(block[t]);
      block[t] := w;
    } else {
      RingMixes(ring, buffer, t);
      w := Mix(block[(t + 13) % 16], block[(t + 8) % 16], block[(t + 2) % 16], block[t % 16]);
      block[t % 16] := w;
    }
    RingAdvances(ring, buffer, t);
    assert block[..] == ring[t % 16 := w];
  }

  lemma FirstSlotIsLoaded(ring: seq<word>, buffer: seq<byte>, t: nat)
    requires |buffer| == 64 && RingHolds(ring, buffer, t) && t < 16
    ensures |ring| == 16 && ring[t] == Loaded(buffer, t) && t % 16 == t
  {
  }

  /** The five macros: the round function in its own form, with its constant. */
  function Mixed(t: nat, w: word, x: word, y: word): word {
    if t < 20 then Choose(w, x, y) else if t < 40 then w ^ x ^ y else if t < 60 then Majority(w, x, y) else w ^ x ^ y
  }

  lemma MixedIsF(t: nat, w: word, x: word, y: word)
    ensures Mixed(t, w, x, y) == F(t, w, x, y)
  {
    ChooseIsCh(w, x, y);
    MajorityIsMaj(w, x, y);
  }

  function Accumulated(z: word, f: word, blk: word, k: word, rotated: word): word {
    z + (f + blk + k + rotated)
  }

  lemma AccumulatedIsSum(v: word, f: word, z: word, k: word, blk: word)
    ensures Accumulated(z, f, blk, k, v) == Sum5(v, f, z, k, blk)
  {
    WordLaws.SumInAnyOrder(v, f, z, k, blk);
  }

  lemma AccumulatedIsTemp(t: nat, v: word, w: word, x: word, y: word, z: word, blk: word)
    ensures Accumulated(z, Mixed(t, w, x, y), blk, K(t), Rotl5(v)) == Temp(t, v, w, x, y, z, blk)
  {
    hide Mixed, F, Rotl5, K, Accumulated, Sum5;
    MixedIsF(t, w, x, y);
    AccumulatedIsSum(Rotl5(v), F(t, w, x, y), z, K(t), blk);
  }

  /** One macro call: `z` takes the new value and `w` is rotated, both in place. */
  method R(block: array<word>, ghost buffer: seq<byte>, v: word, w: word, x: word, y: word, z: word, t: nat)
    returns (z1: word, w1: word)
    requires block.Length == 16 && |buffer| == 64 && RingHolds(block[..], buffer, t)
    modifies block
    ensures z1 == Temp(t, v, w, x, y, z, W(Words(buffer), t)) && w1 == Rotl30(w)
    ensures RingHolds(block[..], buffer, t + 1)
  {
    hide RingHolds, W, Words, Mixed, Rotl5, Rotl30, Accumulated, Temp, K;
    var blk := Blk(block, buffer, t);
    AccumulatedIsTemp(t, v, w, x, y, z, blk);
    z1 := Accumulated(z, Mixed(t, w, x, y), blk, K(t), Rotl5(v));
    w1 := Rotl30(w);
  }

  /** Where the five variables stand for the working variables of the standard. */
  lemma RoundByRoles(h: Hash, m: seq<word>, t: nat, v: word, w: word, x: word, y: word, z: word)
    requires |m| == 16 && Rounds(h, m, t) == Hash(v, w, x, y, z)
    ensures Rounds(h, m, t + 1) == Hash(Temp(t, v, w, x, y, z, W(m, t)), v, Rotl30(w), x, y)
  {
    hide Temp, W, Rotl30;
  }

  method SHA1Transform(state: Hash, buffer: seq<byte>) returns (r: Hash)
    requires |buffer| == 64
    ensures r == Compress(state, buffer)
  {
    hide W, Words, RingHolds, Rounds, Loaded, Sum;
    var block := new word[16](i requires 0 <= i < 16 => Loaded(buffer, i));
    RingStarts(block[..], buffer);
    var a, b, c, d, e := state.a, state.b, state.c, state.d, state.e;
    RoundsStart(state, Words(buffer));
    var i := 0;
    while i < 80
      invariant 0 <= i <= 80 && i % 5 == 0
      invariant RingHolds(block[..], buffer, i)
      invariant Rounds(state, Words(buffer), i) == Hash(a, b, c, d, e)
    {
      a, b, c, d, e := FiveRounds(block, state, buffer, a, b, c, d, e, i);
      i := i + 5;
    }
    r := Sum(state, Hash(a, b, c, d, e));
  }

  /** Five macro calls, after which the variables have their first roles again. */
  method FiveRounds(block: array<word>, ghost h: Hash, ghost buffer: seq<byte>,
                    a0: word, b0: word, c0: word, d0: word, e0: word, i: nat)
    returns (a: word, b: word, c: word, d: word, e: word)
    requires block.Length == 16 && |buffer| == 64 && RingHolds(block[..], buffer, i)
    requires Rounds(h, Words(buffer), i) == Hash(a0, b0, c0, d0, e0)
    modifies block
    ensures RingHolds(block[..], buffer, i + 5)
    ensures Rounds(h, Words(buffer), i + 5) == Hash(a, b, c, d, e)
  {
    hide W, Words, Temp, Rotl30, RingHolds, Rounds;
    ghost var m := Words(buffer);
    a, b, c, d, e := a0, b0, c0, d0, e0;
    RoundByRoles(h, m, i, a, b, c, d, e);
    e, b := R(block, buffer, a, b, c, d, e, i);
    RoundByRoles(h, m, i + 1, e, a, b, c, d);
    d, a := R(block, buffer, e, a, b, c, d, i + 1);
    RoundByRoles(h, m, i + 2, d, e, a, b, c);
    c, e := R(block, buffer, d, e, a, b, c, i + 2);
    RoundByRoles(h, m, i + 3, c, d, e, a, b);
    b, d := R(block, buffer, c, d, e, a, b, i + 3);
    RoundByRoles(h, m, i + 4, b, c, d, e, a);
    a, c := R(block, buffer, b, c, d, e, a, i + 4);
  }

  lemma RingStarts(ring: seq<word>, buffer: seq<byte>)
    requires |buffer| == 64 && |ring| == 16
    requires forall s :: 0 <= s < 16 ==> ring[s] == Loaded(buffer, s)
    ensures RingHolds(ring, buffer, 0)
  {
  }

  lemma RoundsStart(h: Hash, m: seq<word>)
    requires |m| == 16
    ensures Rounds(h, m, 0) == h
  {
  }
}
