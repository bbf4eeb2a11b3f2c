/** Identities of 32-bit words, each stated on its own for the solver's sake. */
module WordLaws {
  lemma ChooseByMask(w: bv32, x: bv32, y: bv32)
    ensures (w & (x ^ y)) ^ y == (w & x) ^ (!w & y)
  {
  }

  lemma MajorityByMasks(w: bv32, x: bv32, y: bv32)
    ensures ((w | x) & y) | (w & x) == (w & x) ^ (w & y) ^ (x & y)
  {
  }

  lemma TurnedRound(b0: bv8, b1: bv8, b2: bv8, b3: bv8, l: bv32)
    requires l == (b0 as bv32) | ((b1 as bv32) << 8) | ((b2 as bv32) << 16) | ((b3 as bv32) << 24)
    ensures (((l << 24) | (l >> 8)) & 0xFF00FF00) | (((l << 8) | (l >> 24)) & 0x00FF00FF)
         == ((b0 as bv32) << 24) | ((b1 as bv32) << 16) | ((b2 as bv32) << 8) | (b3 as bv32)
  {
  }

  lemma SumInAnyOrder(v: bv32, f: bv32, z: bv32, k: bv32, w: bv32)
    ensures z + (f + w + k + v) == v + f + z + k + w
  {
  }

  lemma HalvesJoin(c: bv16)
    ensures (((c & 0xFF) as bv8) as bv16) | ((((c >> 8) as bv8) as bv16) << 8) == c
  {
  }

  lemma NextByte(b: bv8)
    requires b < 255
    ensures (b + 1) as int == b as int + 1
  {
  }

  lemma ByteOrder(b: bv8)
    ensures b < 255 <==> b as int < 255
  {
  }

  /** The byte of a given value, counted up so that no integer has to be turned into bits at once. */
  function ByteOf(n: nat): (b: bv8)
    requires n < 256
    ensures b as int == n
  {
    if n == 0 then 0
    else
      var b := ByteOf(n - 1);
      ByteOrder(b);
      NextByte(b);
      b + 1
  }
}
