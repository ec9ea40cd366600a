/** Interleaving two 32-bit words into one 64-bit code, and taking the code apart again. */
module Morton {
  import opened Words

  /** The server's ladder: five shift-and-mask steps put each bit of v on the even place twice as high. */
  function Spread(v: Uint32): Uint64 {
    var r0: Uint64 := v;
    var r1 := (r0 | (r0 << 16)) & 0x0000FFFF0000FFFF;
    var r2 := (r1 | (r1 << 8)) & 0x00FF00FF00FF00FF;
    var r3 := (r2 | (r2 << 4)) & 0x0F0F0F0F0F0F0F0F;
    var r4 := (r3 | (r3 << 2)) & 0x3333333333333333;
    (r4 | (r4 << 1)) & 0x5555555555555555
  }

  /** The reverse ladder: gathers the even places. */
  function Compact(c: Uint64): Uint32 {
    var r0 := c & 0x5555555555555555;
    var r1 := (r0 | (r0 >> 1)) & 0x3333333333333333;
    var r2 := (r1 | (r1 >> 2)) & 0x0F0F0F0F0F0F0F0F;
    var r3 := (r2 | (r2 >> 4)) & 0x00FF00FF00FF00FF;
    var r4 := (r3 | (r3 >> 8)) & 0x0000FFFF0000FFFF;
    (r4 | (r4 >> 16)) & 0x00000000FFFFFFFF
  }

  function Interleave(x: Uint32, y: Uint32): Uint64 { Spread(x) | (Spread(y) << 1) }

  /** The coordinates that a code carries on its even and on its odd places. */
  function Even(c: Uint64): Uint32 { Compact(c) }

  function OddPlaces(c: Uint64): Uint32 { Compact(Half(c)) }

  // ----- the ladders are the bit-by-bit definitions -----

  /** Bit i of v on place 2i, one bit at a time. */
  function SpreadBits(v: bv64, k: nat): bv64
    decreases k
  {
    if k == 0 then 0 else (v & 1) | (SpreadBits(Half(v), k - 1) << 2)
  }

  /** Bit 2i of c on place i, one bit at a time. */
  function CompactBits(c: bv64, k: nat): bv64
    decreases k
  {
    if k == 0 then 0 else (c & 1) | (CompactBits(Half(Half(c)), k - 1) << 1)
  }

  lemma SpreadStep(v: Uint32)
    ensures Half(v) <= 0xFFFF_FFFF
    ensures Spread(v) == (v & 1) | (Spread(Half(v)) << 2)
  {
  }

  lemma CompactStep(c: bv64)
    ensures Compact(c) == (c & 1) | (Compact(Half(Half(c))) << 1)
  {
  }

  lemma LaddersOfZero()
    ensures Spread(0) == 0 && Compact(0) == 0
  {
  }

  lemma {:induction false} SpreadOfFitting(v: Uint32, k: nat)
    requires Fits(v, k)
    ensures Spread(v) == SpreadBits(v, k)
    decreases k
  {
    hide Spread, Half;
    if k == 0 {
      LaddersOfZero();
    } else {
      SpreadStep(v);
      SpreadOfFitting(Half(v), k - 1);
    }
  }

  lemma {:induction false} CompactOfFitting(c: bv64, k: nat)
    requires Fits(c, 2 * k)
    ensures Compact(c) == CompactBits(c, k)
    decreases k
  {
    hide Compact, Half;
    if k == 0 {
      LaddersOfZero();
    } else {
      assert ShiftRight(c, 2 * k) == ShiftRight(Half(c), 2 * k - 1) == ShiftRight(Half(Half(c)), 2 * (k - 1));
      CompactStep(c);
      CompactOfFitting(Half(Half(c)), k - 1);
    }
  }

  /** Both ladders agree with the bit-by-bit definitions on all words. */
  lemma LaddersAreBitByBit(v: Uint32, c: Uint64)
    ensures Spread(v) == SpreadBits(v, 32)
    ensures Compact(c) == CompactBits(c, 32)
  {
    hide Spread, Compact;
    Fits32(v);
    SpreadOfFitting(v, 32);
    AllFit(c);
    CompactOfFitting(c, 32);
  }

  // ----- interleaving is a bijection -----

  lemma EvenOfInterleave(x: Uint32, y: Uint32)
    ensures Even(Interleave(x, y)) == x
  {
  }

  lemma OddOfInterleave(x: Uint32, y: Uint32)
    ensures OddPlaces(Interleave(x, y)) == y
  {
  }

  lemma InterleaveOfParts(c: Uint64)
    ensures Interleave(Even(c), OddPlaces(c)) == c
  {
  }

  /** A code is determined by its two coordinates, and every pair of coordinates has its code. */
  lemma InterleaveIsBijective(c: Uint64, x: Uint32, y: Uint32)
    ensures c == Interleave(x, y) <==> Even(c) == x && OddPlaces(c) == y
  {
    hide Interleave, Even, OddPlaces;
    EvenOfInterleave(x, y);
    OddOfInterleave(x, y);
    InterleaveOfParts(c);
  }

  // ----- dropping low bits of a code drops low bits of both coordinates -----

  lemma DropBit(b: bv64, w: Uint32)
    ensures Half((b & 1) | (w << 1)) == w
  {
  }

  lemma EvenOfQuarter(c: Uint64)
    ensures Even(Half(Half(c))) == Half(Even(c))
  {
    hide Compact, Half;
    CompactStep(c);
    DropBit(c, Compact(Half(Half(c))));
  }

  lemma OddOfQuarter(c: Uint64)
    ensures OddPlaces(Half(Half(c))) == Half(OddPlaces(c))
  {
    hide Compact, Half;
    EvenOfQuarter(Half(c));
  }

  lemma {:induction false} PartsOfShift(c: Uint64, s: nat)
    ensures Even(ShiftRight(c, 2 * s)) == ShiftRight(Even(c), s)
    ensures OddPlaces(ShiftRight(c, 2 * s)) == ShiftRight(OddPlaces(c), s)
    decreases s
  {
    hide Even, OddPlaces, Half;
    if s > 0 {
      var q := Half(Half(c));
      assert ShiftRight(c, 2 * s) == ShiftRight(Half(c), 2 * s - 1) == ShiftRight(q, 2 * (s - 1));
      EvenOfQuarter(c);
      OddOfQuarter(c);
      PartsOfShift(q, s - 1);
    }
  }

  lemma InterleaveOfZero()
    ensures Interleave(0, 0) == 0
  {
  }

  /** Coordinates of k bits give a code of 2k bits, and the other way round. */
  lemma FitsByParts(c: Uint64, k: nat)
    ensures Fits(c, 2 * k) <==> Fits(Even(c), k) && Fits(OddPlaces(c), k)
  {
    hide Even, OddPlaces, Interleave, ShiftRight;
    PartsOfShift(c, k);
    InterleaveOfZero();
    InterleaveIsBijective(ShiftRight(c, 2 * k), 0, 0);
  }
}
