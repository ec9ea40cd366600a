/** Unsigned machine words as bit vectors, their numeric value, and shifts by a variable number of places.

    A Go `uint32` is a 64-bit word below 2^32; converting it to `uint64` changes nothing. The proofs take words
    apart through `Half` and `Odd`, so that only the lemmas in the first section reason about bits.
  */
module Words {
  type Uint64 = bv64

  type Uint32 = b: bv64 | b <= 0xFFFF_FFFF witness 0

  // ----- one bit at a time -----

  function Half(c: bv64): bv64 { c >> 1 }

  function Doubled(c: bv64): bv64 { c << 1 }

  predicate Odd(c: bv64) { c & 1 == 1 }

  function WithBit(w: bv64, bit: bool): bv64 { (if bit then 1 else 0) | (w << 1) }

  predicate Less(c: bv64, d: bv64) { c < d }

  predicate HasRoom(c: bv64) { c <= 0x7FFF_FFFF_FFFF_FFFF }

  lemma Rejoin(c: bv64)
    ensures c == WithBit(Half(c), Odd(c))
  {
  }

  lemma LessIsAsymmetric(c: bv64, d: bv64)
    ensures !(Less(c, d) && Less(d, c))
  {
  }

  lemma LessIsIrreflexive(c: bv64)
    ensures !Less(c, c)
  {
  }

  lemma LessHalf(c: bv64, d: bv64)
    requires Less(Half(c), Half(d))
    ensures Less(c, d)
  {
  }

  lemma LessBit(c: bv64, d: bv64)
    requires Half(c) == Half(d) && !Odd(c) && Odd(d)
    ensures Less(c, d)
  {
  }

  lemma SameHalves(c: bv64, d: bv64)
    requires Half(c) == Half(d) && Odd(c) == Odd(d)
    ensures c == d
  {
    hide Half, Odd, WithBit;
    Rejoin(c);
    Rejoin(d);
  }

  lemma HalfOfWithBit(w: bv64, bit: bool)
    ensures HasRoom(w) ==> Half(WithBit(w, bit)) == w
    ensures Odd(WithBit(w, bit)) == bit
  {
  }

  function Shr4(c: bv64): bv64 { c >> 4 }

  function Shr8(c: bv64): bv64 { c >> 8 }

  function Shr16(c: bv64): bv64 { c >> 16 }

  function Shr32(c: bv64): bv64 { c >> 32 }

  lemma HalveFourTimes(c: bv64)
    ensures Half(Half(Half(Half(c)))) == Shr4(c)
  {
  }

  lemma FourTwice(c: bv64)
    ensures Shr4(Shr4(c)) == Shr8(c)
  {
  }

  lemma EightTwice(c: bv64)
    ensures Shr8(Shr8(c)) == Shr16(c)
  {
  }

  lemma SixteenTwice(c: bv64)
    ensures Shr16(Shr16(c)) == Shr32(c)
  {
  }

  function Shr60(c: bv64): bv64 { c >> 60 }

  function Shr63(c: bv64): bv64 { c >> 63 }

  lemma Sixty(c: bv64)
    ensures Shr4(Shr8(Shr16(Shr32(c)))) == Shr60(c)
  {
  }

  lemma SixtyThree(c: bv64)
    ensures Half(Half(Half(Shr60(c)))) == Shr63(c)
  {
  }

  lemma TopBit(c: bv64)
    ensures Half(Shr63(c)) == 0
    ensures Shr63(c) == 0 <==> HasRoom(c)
  {
  }

  // ----- numbers -----

  function Pow2(k: nat): (p: nat)
    ensures p >= 1
  {
    if k == 0 then 1 else 2 * Pow2(k - 1)
  }

  /** `c >> k`, one place at a time. */
  function ShiftRight(c: bv64, k: nat): bv64
    decreases k
  {
    if k == 0 then c else ShiftRight(Half(c), k - 1)
  }

  /** `c << k`, one place at a time. */
  function ShiftLeft(c: bv64, k: nat): bv64
    decreases k
  {
    if k == 0 then c else ShiftLeft(Doubled(c), k - 1)
  }

  /** The number that the lowest k bits of c denote. */
  function Low(c: bv64, k: nat): nat
    decreases k
  {
    if k == 0 then 0 else (if Odd(c) then 1 else 0) + 2 * Low(Half(c), k - 1)
  }

  /** The number a word denotes. */
  function Value(c: bv64): nat { Low(c, 64) }

  /** The word of k bits that denotes n, or its remainder by 2^k if n is too large. */
  function Word(n: nat, k: nat): bv64
    decreases k
  {
    if k == 0 then 0 else WithBit(Word(n / 2, k - 1), n % 2 == 1)
  }

  // ----- shifts -----

  lemma {:induction false} ShiftAdds(c: bv64, a: nat, b: nat)
    ensures ShiftRight(c, a + b) == ShiftRight(ShiftRight(c, a), b)
    decreases a
  {
    hide Half;
    if a > 0 {
      ShiftAdds(Half(c), a - 1, b);
    }
  }

  lemma ShiftFour(c: bv64)
    ensures ShiftRight(c, 1) == Half(c)
    ensures ShiftRight(c, 4) == Shr4(c)
  {
    HalveFourTimes(c);
    hide Half, Shr4;
    var c1 := Half(c);
    var c2 := Half(c1);
    var c3 := Half(c2);
    assert ShiftRight(c3, 1) == ShiftRight(Half(c3), 0) == Half(c3);
    assert ShiftRight(c1, 3) == ShiftRight(c2, 2) == ShiftRight(c3, 1);
  }

  lemma ShiftEight(c: bv64)
    ensures ShiftRight(c, 8) == Shr8(c)
  {
    hide Half, Shr4, Shr8, Shr16, Shr32;
    ShiftFour(c);
    ShiftFour(Shr4(c));
    ShiftAdds(c, 4, 4);
    FourTwice(c);
  }

  lemma ShiftConstants(c: bv64)
    ensures ShiftRight(c, 8) == Shr8(c)
    ensures ShiftRight(c, 16) == Shr16(c)
    ensures ShiftRight(c, 32) == Shr32(c)
  {
    hide Half, Shr4, Shr8, Shr16, Shr32;
    ShiftSixteen(c);
    ShiftSixteen(Shr16(c));
    ShiftAdds(c, 16, 16);
    ShiftEight(c);
    SixteenTwice(c);
  }

  lemma ShiftSixteen(c: bv64)
    ensures ShiftRight(c, 16) == Shr16(c)
  {
    hide Half, Shr4, Shr8, Shr16, Shr32;
    ShiftEight(c);
    ShiftEight(Shr8(c));
    ShiftAdds(c, 8, 8);
    EightTwice(c);
  }

  lemma {:induction false} ShiftZero(k: nat)
    ensures ShiftRight(0, k) == 0
    decreases k
  {
    if k > 0 {
      ShiftZero(k - 1);
    }
  }

  lemma Shift60(c: bv64)
    ensures ShiftRight(c, 60) == Shr60(c)
  {
    hide Half, Shr4, Shr8, Shr16, Shr32, Shr60, ShiftRight;
    var c32 := Shr32(c);
    var c48 := Shr16(c32);
    ShiftConstants(c);
    ShiftSixteen(c32);
    ShiftEight(c48);
    ShiftFour(Shr8(c48));
    ShiftAdds(c, 32, 28);
    ShiftAdds(c32, 16, 12);
    ShiftAdds(c48, 8, 4);
    Sixty(c);
  }

  lemma ShiftOne(c: bv64, k: nat)
    ensures ShiftRight(c, k + 1) == Half(ShiftRight(c, k))
  {
    hide Half;
    ShiftAdds(c, k, 1);
    assert ShiftRight(ShiftRight(c, k), 1) == ShiftRight(Half(ShiftRight(c, k)), 0);
  }

  lemma Shift63(c: bv64)
    ensures ShiftRight(c, 63) == Shr63(c)
    ensures ShiftRight(c, 64) == 0
  {
    hide Half, Shr60, Shr63, ShiftRight, HasRoom;
    Shift60(c);
    ShiftOne(c, 60);
    ShiftOne(c, 61);
    ShiftOne(c, 62);
    ShiftOne(c, 63);
    SixtyThree(c);
    TopBit(c);
  }

  /** A word with no bit at or above place k. */
  predicate Fits(c: bv64, k: nat) { ShiftRight(c, k) == 0 }

  lemma AllFit(c: bv64)
    ensures Fits(c, 64)
  {
    Shift63(c);
  }

  lemma FitsMore(c: bv64, k: nat, m: nat)
    requires Fits(c, k) && k <= m
    ensures Fits(c, m)
  {
    ShiftAdds(c, k, m - k);
    ShiftZero(m - k);
  }

  lemma TopBitClear(c: bv64, k: nat)
    requires Fits(c, k) && k < 64
    ensures HasRoom(c)
  {
    FitsMore(c, k, 63);
    Shift63(c);
    TopBit(c);
  }

  // ----- values -----

  lemma {:induction false} SameLowBits(c: bv64, d: bv64, k: nat)
    requires Fits(c, k) && Fits(d, k) && Low(c, k) == Low(d, k)
    ensures c == d
    decreases k
  {
    hide Half, Odd, Less;
    if k > 0 {
      SameLowBits(Half(c), Half(d), k - 1);
      SameHalves(c, d);
    }
  }

  lemma {:induction false} LowIsMonotone(c: bv64, d: bv64, k: nat)
    requires Fits(c, k) && Fits(d, k) && Low(c, k) < Low(d, k)
    ensures Less(c, d)
    decreases k
  {
    hide Half, Odd, Less;
    if k > 0 {
      if Low(Half(c), k - 1) < Low(Half(d), k - 1) {
        LowIsMonotone(Half(c), Half(d), k - 1);
        LessHalf(c, d);
      } else {
        SameLowBits(Half(c), Half(d), k - 1);
        LessBit(c, d);
      }
    }
  }

  /** Words are ordered as the numbers they denote, and equal when those are. */
  lemma ValueOrder(c: bv64, d: bv64)
    ensures c < d <==> Value(c) < Value(d)
    ensures c == d <==> Value(c) == Value(d)
  {
    ValueOrderLess(c, d);
    ValueOrderLess(d, c);
    if Value(c) == Value(d) {
      AllFit(c);
      AllFit(d);
      SameLowBits(c, d, 64);
    }
  }

  lemma ValueOrderLess(c: bv64, d: bv64)
    ensures Less(c, d) <==> Value(c) < Value(d)
  {
    hide Less;
    AllFit(c);
    AllFit(d);
    if Value(c) < Value(d) {
      LowIsMonotone(c, d, 64);
    } else if Value(d) < Value(c) {
      LowIsMonotone(d, c, 64);
      LessIsAsymmetric(c, d);
    } else {
      SameLowBits(c, d, 64);
      LessIsIrreflexive(c);
    }
  }

  lemma {:induction false} WordFits(n: nat, k: nat)
    requires n < Pow2(k) && k <= 64
    ensures Fits(Word(n, k), k) && Low(Word(n, k), k) == n
    decreases k
  {
    hide Half, Odd, WithBit, HasRoom;
    if k > 0 {
      WordFits(n / 2, k - 1);
      TopBitClear(Word(n / 2, k - 1), k - 1);
      HalfOfWithBit(Word(n / 2, k - 1), n % 2 == 1);
    }
  }

  lemma {:induction false} LowOfFitting(c: bv64, k: nat, m: nat)
    requires Fits(c, k) && k <= m
    ensures Low(c, m) == Low(c, k)
    decreases m
  {
    hide Half, Odd;
    if k > 0 {
      LowOfFitting(Half(c), k - 1, m - 1);
    } else {
      LowOfZero(m);
    }
  }

  lemma {:induction false} LowOfZero(m: nat)
    ensures Low(0, m) == 0
    decreases m
  {
    if m > 0 {
      LowOfZero(m - 1);
    }
  }

  lemma {:induction false} LowBound(c: bv64, k: nat)
    ensures Low(c, k) < Pow2(k)
    decreases k
  {
    hide Half, Odd;
    if k > 0 {
      LowBound(Half(c), k - 1);
    }
  }

  /** A number of at most k bits survives the conversion to a word. */
  lemma ValueOfWord(n: nat, k: nat)
    requires n < Pow2(k) && k <= 64
    ensures Value(Word(n, k)) == n && Fits(Word(n, k), k)
  {
    WordFits(n, k);
    LowOfFitting(Word(n, k), k, 64);
  }

  /** A word of at most k bits is the word of its value. */
  lemma WordOfValue(c: bv64, k: nat)
    requires Fits(c, k) && k <= 64
    ensures Value(c) < Pow2(k) && Word(Value(c), k) == c
  {
    hide Low, Word, Pow2, Fits;
    LowOfFitting(c, k, 64);
    LowBound(c, k);
    ValueOfWord(Value(c), k);
    ValueOrder(Word(Value(c), k), c);
  }

  /** A word has no bit at or above place k exactly when its value is below 2^k. */
  lemma FitsByValue(c: bv64, k: nat)
    requires k <= 64
    ensures Fits(c, k) <==> Value(c) < Pow2(k)
  {
    hide Low, Word, Pow2, Fits;
    if Fits(c, k) {
      WordOfValue(c, k);
    }
    if Value(c) < Pow2(k) {
      ValueOfWord(Value(c), k);
      ValueOrder(Word(Value(c), k), c);
    }
  }

  lemma Fits32(c: bv64)
    ensures Fits(c, 32) <==> c <= 0xFFFF_FFFF
  {
    ShiftConstants(c);
    Below32(c);
  }

  lemma Below32(c: bv64)
    ensures Shr32(c) == 0 <==> c <= 0xFFFF_FFFF
  {
  }

  /** A number as a `uint32`. */
  function FromNat(n: nat): (w: Uint32)
    requires n < 0x1_0000_0000
    ensures Value(w) == n
  {
    Powers();
    ValueOfWord(n, 32);
    Fits32(Word(n, 32));
    Word(n, 32)
  }

  lemma Powers()
    ensures Pow2(26) == 0x400_0000 && Pow2(27) == 0x800_0000
    ensures Pow2(32) == 0x1_0000_0000
    ensures Pow2(52) == 0x10_0000_0000_0000
    ensures Pow2(53) == 0x20_0000_0000_0000
    ensures Pow2(54) == 0x40_0000_0000_0000
    ensures Pow2(64) == 0x1_0000_0000_0000_0000
  {
    SmallPowers();
    hide Pow2;
    PowAdds(16, 10);
    PowAdds(26, 1);
    PowAdds(26, 26);
    PowAdds(52, 1);
    PowAdds(53, 1);
    PowAdds(16, 16);
    PowAdds(32, 32);
  }

  lemma SmallPowers()
    ensures Pow2(1) == 2 && Pow2(2) == 4 && Pow2(10) == 1024 && Pow2(16) == 65536
  {
    assert Pow2(4) == 16;
    PowAdds(4, 4);
    PowAdds(8, 8);
    PowAdds(8, 2);
  }

  lemma {:induction false} PowAdds(a: nat, b: nat)
    ensures Pow2(a + b) == Pow2(a) * Pow2(b)
    decreases a
  {
    if a > 0 {
      PowAdds(a - 1, b);
      assert 2 * (Pow2(a - 1) * Pow2(b)) == 2 * Pow2(a - 1) * Pow2(b);
    }
  }
}
