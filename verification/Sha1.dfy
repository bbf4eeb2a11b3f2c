/** SHA-1 as FIPS 180-4 states it: the message schedule, the rounds and the padding. */
module Sha1 {
  type byte = bv8
  type word = bv32

  /** ROTL of section 3.2, for the amounts that occur. */
  function Rotl1(x: word): word {
    (x << 1) | (x >> 31)
  }

  function Rotl5(x: word): word {
    (x << 5) | (x >> 27)
  }

  function Rotl30(x: word): word {
    (x << 30) | (x >> 2)
  }

  function Xor3(x: word, y: word, z: word): word {
    x ^ y ^ z
  }

  /** The functions of section 4.1.1. */
  function Ch(x: word, y: word, z: word): word {
    (x & y) ^ (!x & z)
  }

  function Maj(x: word, y: word, z: word): word {
    (x & y) ^ (x & z) ^ (y & z)
  }

  function F(t: nat, x: word, y: word, z: word): word {
    if t < 20 then Ch(x, y, z) else if t < 40 then Xor3(x, y, z) else if t < 60 then Maj(x, y, z) else Xor3(x, y, z)
  }

  /** The constants of section 4.2.1. */
  function K(t: nat): word {
    if t < 20 then 0x5A827999 else if t < 40 then 0x6ED9EBA1 else if t < 60 then 0x8F1BBCDC else 0xCA62C1D6
  }

  /** A big-endian word. */
  function BigEndian(b0: byte, b1: byte, b2: byte, b3: byte): word {
    ((b0 as word) << 24) | ((b1 as word) << 16) | ((b2 as word) << 8) | (b3 as word)
  }

  function Words(block: seq<byte>): (w: seq<word>)
    requires |block| == 64
    ensures |w| == 16
  {
    seq(16, i requires 0 <= i < 16 => BigEndian(block[4 * i], block[4 * i + 1], block[4 * i + 2], block[4 * i + 3]))
  }

  function Mix(x: word, y: word, z: word, v: word): word {
    Rotl1(x ^ y ^ z ^ v)
  }

  /** Word `t` of the 80-word schedule of section 6.1.2, step 1. */
  function W(m: seq<word>, t: nat): word
    requires |m| == 16
  {
    if t < 16 then m[t] else Mix(W(m, t - 3), W(m, t - 8), W(m, t - 14), W(m, t - 16))
  }

  datatype Hash = Hash(a: word, b: word, c: word, d: word, e: word)

  const INITIAL := Hash(0x67452301, 0xEFCDAB89, 0x98BADCFE, 0x10325476, 0xC3D2E1F0)

  function Sum5(a: word, b: word, c: word, d: word, e: word): word {
    a + b + c + d + e
  }

  function Temp(t: nat, a: word, b: word, c: word, d: word, e: word, w: word): word {
    Sum5(Rotl5(a), F(t, b, c, d), e, K(t), w)
  }

  /** One round of section 6.1.2, step 3. */
  function Round(h: Hash, t: nat, w: word): Hash {
    Hash(Temp(t, h.a, h.b, h.c, h.d, h.e, w), h.a, Rotl30(h.b), h.c, h.d)
  }

  /** The working variables after `t` rounds. */
  function Rounds(h: Hash, m: seq<word>, t: nat): Hash
    requires |m| == 16
  {
    if t == 0 then h else Round(Rounds(h, m, t - 1), t - 1, W(m, t - 1))
  }

  function Sum(h: Hash, g: Hash): Hash {
    Hash(h.a + g.a, h.b + g.b, h.c + g.c, h.d + g.d, h.e + g.e)
  }

  function Compress(h: Hash, block: seq<byte>): Hash
    requires |block| == 64
  {
    Sum(h, Rounds(h, Words(block), 80))
  }

  function HashBlocks(h: Hash, data: seq<byte>): Hash
    decreases |data|
  {
    if |data| < 64 then h else HashBlocks(Compress(h, data[..64]), data[64..])
  }

  lemma {:induction false} HashBlocksConcat(h: Hash, a: seq<byte>, b: seq<byte>)
    requires |a| % 64 == 0
    ensures HashBlocks(h, a + b) == HashBlocks(HashBlocks(h, a), b)
    decreases |a|
  {
    hide Compress;
    if |a| == 0 {
      assert a + b == b;
    } else {
      assert (a + b)[..64] == a[..64];
      assert (a + b)[64..] == a[64..] + b;
      HashBlocksConcat(Compress(h, a[..64]), a[64..], b);
    }
  }

  // ---------------------------------------------------------------- padding, section 5.1.1

  /** The eight bytes of a 64-bit length, most significant first. */
  function LengthBytes(bits: nat): (b: seq<byte>)
    ensures |b| == 8
  {
    seq(8, i requires 0 <= i < 8 => ByteAt(bits, 7 - i))
  }

  /** A number without its last `k` bytes. */
  function DropBytes(n: nat, k: nat): nat
    decreases k
  {
    if k == 0 then n else DropBytes(n / 256, k - 1)
  }

  function ByteAt(n: nat, k: nat): byte {
    (DropBytes(n, k) % 256) as byte
  }

  /** How many zero bytes bring a message of `n` bytes and the 0x80 up to 8 short of a block. */
  function ZeroBytes(n: nat): nat {
    (119 - n % 64) % 64
  }

  /** The fewest that do. */
  lemma ZeroBytesAreFewest(n: nat, z: nat)
    requires (n + 1 + z) % 64 == 56
    ensures (n + 1 + ZeroBytes(n)) % 64 == 56 && ZeroBytes(n) <= z
  {
    var r := n % 64;
    assert ZeroBytes(n) == if r <= 55 then 55 - r else 119 - r;
    assert (r + 1 + z) % 64 == 56;
  }

  function Padding(n: nat): (p: seq<byte>)
    ensures (n + |p|) % 64 == 0
  {
    [0x80] + seq(ZeroBytes(n), i => 0) + LengthBytes(8 * n)
  }

  function Digest(message: seq<byte>): Hash {
    HashBlocks(INITIAL, message + Padding(|message|))
  }
}
