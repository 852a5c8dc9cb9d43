// Converting an ECC between its stored and its canonical form only moves bits about: the
// number of bits in which two ECCs differ is the same in both forms.
module StoredBits {
  import opened Words
  import opened EccMeaning
  import opened EccFormats
  import opened SpareFlags

  lemma ConsParts(d: Word32, g: Word32)
    requires Within(g, 0x7FFF_FFFF)
    ensures Half(Cons(LowDigit(d), g)) == g
    ensures LowBit(Cons(LowDigit(d), g)) <==> LowBit(d)
  {}

  lemma CountCons(d: Word32, g: Word32)
    requires Within(g, 0x7FFF_FFFF)
    ensures BitCount(Cons(LowDigit(d), g)) == BitCount(g) + (if LowBit(d) then 1 else 0)
  {
    hide Within, Half, LowBit, Cons, LowDigit;
    ConsParts(d, g);
    CountParts(Cons(LowDigit(d), g));
  }

  lemma PairsWithin(e: Word32, o: Word32, m: Word32)
    requires Within(m, 0x7FF)
    ensures Within(Pairs(e, o, m), 0x7FFF_FFFF)
    ensures Within(Cons(LowDigit(o), Pairs(e, o, m)), 0x7FFF_FFFF)
  {}

  lemma ConsWithin(d: Word32, e: Word32, o: Word32, m: Word32)
    requires Within(m, 0x7FF)
    ensures Within(Cons(LowDigit(d), Pairs(e, o, m)), 0x7FFF_FFFF)
  {}

  lemma SmallerMask(n: nat)
    requires PowerOfTwo(n) && 1 < n <= 4096
    ensures Within(LowMask(n / 2), 0x7FF)
    ensures LowMask(n) & 1 == 1 && LowMask(n) >> 1 == LowMask(n / 2)
    ensures Half(LowMask(n)) == LowMask(n / 2) && LowBit(LowMask(n))
  {
    PowersOfTwo(n);
    LowMasks();
    hide LowMask;
  }

  lemma NoPairs(e: Word32, o: Word32)
    ensures Pairs(e, o, 0) == 0 && Masked(e, 0) == 0
  {}

  // Interleaving keeps every bit the mask selects.
  lemma {:induction false} PairsCount(e: Word32, o: Word32, n: nat)
    requires PowerOfTwo(n) && n <= 4096
    ensures BitCount(Pairs(e, o, LowMask(n))) == BitCount(Masked(e, LowMask(n))) + BitCount(Masked(o, LowMask(n)))
    decreases n
  {
    hide Within, Half, LowBit, Cons, LowDigit, Pairs, Masked, Push, BitCount;
    if n <= 1 {
      NoPairs(e, o);
      NoPairs(o, e);
      CountNone();
    } else {
      var m, half := LowMask(n), LowMask(n / 2);
      SmallerMask(n);
      FirstPair(e, o, m);
      PairsWithin(Half(e), Half(o), half);
      ConsWithin(o, Half(e), Half(o), half);
      CountCons(o, Pairs(Half(e), Half(o), half));
      CountCons(e, Cons(LowDigit(o), Pairs(Half(e), Half(o), half)));
      PairsCount(Half(e), Half(o), n / 2);
      MaskedParts(e, m);
      MaskedParts(o, m);
    }
  }

  lemma CountNone()
    ensures BitCount(0) == 0
  {}

  lemma MaskedParts(w: Word32, m: Word32)
    requires LowBit(m)
    ensures BitCount(Masked(w, m)) == BitCount(Masked(Half(w), Half(m))) + (if LowBit(w) then 1 else 0)
  {
    hide Half, LowBit, Masked, BitCount;
    CountParts(Masked(w, m));
    MaskedHalf(w, m);
    MaskedLow(w, m);
  }

  lemma OrHalf(v: Word32, w: Word32)
    ensures Half(Or(v, w)) == Or(Half(v), Half(w))
    ensures LowBit(Or(v, w)) <==> LowBit(v) || LowBit(w)
  {}

  lemma DisjointHalf(v: Word32, w: Word32)
    requires Masked(v, w) == 0
    ensures Masked(Half(v), Half(w)) == 0
    ensures !(LowBit(v) && LowBit(w))
  {}

  lemma OrNothing()
    ensures Or(0, 0) == 0
  {}

  lemma {:induction false} DisjointCount(v: Word32, w: Word32, n: nat)
    requires PowerOfTwo(n) && Fits(v, n) && Fits(w, n) && Masked(v, w) == 0
    ensures BitCount(Or(v, w)) == BitCount(v) + BitCount(w)
    decreases n
  {
    hide Fits, Half, LowBit, Masked, Or, BitCount;
    FitsZero(v, n);
    FitsZero(w, n);
    OrNothing();
    CountNone();
    if n > 1 {
      CountParts(Or(v, w));
      CountParts(v);
      CountParts(w);
      OrHalf(v, w);
      DisjointHalf(v, w);
      HalfWithin(v, n);
      HalfWithin(w, n);
      DisjointCount(Half(v), Half(w), n / 2);
    }
  }

  lemma ShiftedOne(w: Word32, d: Word32)
    requires Within(w, 0x7FFF_FFFF) && d == w << 1
    ensures BitCount(d) == BitCount(w)
  {
    CountParts(d);
    ShiftedParts(w);
    hide Half, LowBit, BitCount;
  }

  lemma ShiftedParts(w: Word32)
    requires Within(w, 0x7FFF_FFFF)
    ensures Half(w << 1) == w && !LowBit(w << 1)
  {}

  lemma SmallTwice(w: Word32)
    requires Within(w, 0x3FFF)
    ensures Within(w, 0x7FFF_FFFF) && Within(w << 1, 0x7FFF_FFFF)
    ensures w << 2 == (w << 1) << 1
  {}

  lemma ShiftedTwo(w: Word32)
    requires Within(w, 0x3FFF)
    ensures BitCount(w << 2) == BitCount(w)
  {
    hide Within, BitCount;
    SmallTwice(w);
    ShiftedOne(w, w << 1);
    ShiftedOne(w << 1, w << 2);
  }

  lemma SmallFour(w: Word32)
    requires Within(w, 0x0FFF)
    ensures Within(w, 0x3FFF) && Within(w << 2, 0x3FFF) && w << 4 == (w << 2) << 2
  {}

  lemma ShiftedFour(w: Word32)
    requires Within(w, 0x0FFF)
    ensures BitCount(w << 4) == BitCount(w)
  {
    hide Within, BitCount;
    SmallFour(w);
    ShiftedTwo(w);
    ShiftedTwo(w << 2);
  }

  // The parts of the third stored byte.
  lemma ThirdByte(c: Csst)
    ensures var low, high := (c.b2 & 0x0F) as Word32, (c.b2 & 0xF0) as Word32;
            && Or(low, high) == c.b2 as Word32 && Masked(low, high) == 0
            && Within(low, 0x0FFF) && Within(low << 4, 0x0FFF) && (low << 4) << 4 == low << 8 && Within(high, 0x0FFF)
  {}

  lemma EvenParts(c: Csst)
    ensures var low := (c.b2 & 0x0F) as Word32;
            && EvenOf(c) == Or(c.b0 as Word32, low << 8) && Masked(c.b0 as Word32, low << 8) == 0
            && Masked(EvenOf(c), 0xFFF) == EvenOf(c)
  {}

  lemma OddParts(c: Csst)
    ensures var high := (c.b2 & 0xF0) as Word32;
            && OddOf(c) == Or(c.b1 as Word32, high << 4) && Masked(c.b1 as Word32, high << 4) == 0
            && Masked(OddOf(c), 0xFFF) == OddOf(c)
  {}

  lemma FitsFour(w: Word32)
    requires LowMask(4096) == 0xFFF && Within(w, 0xFFF)
    ensures Fits(w, 4096)
  {
    hide LowMask;
  }

  lemma PartsWithin(c: Csst)
    ensures Within(c.b0 as Word32, 0xFFF) && Within(c.b1 as Word32, 0xFFF)
    ensures Within(((c.b2 & 0x0F) as Word32) << 8, 0xFFF) && Within(((c.b2 & 0xF0) as Word32) << 4, 0xFFF)
    ensures Within((c.b2 & 0x0F) as Word32, 0xFFF) && Within((c.b2 & 0xF0) as Word32, 0xFFF)
  {}

  lemma TwelveDigits()
    ensures PowerOfTwo(4096) && LowMask(4096) == 0xFFF
  {
    LowMasks();
    hide LowMask;
    assert PowerOfTwo(16);
    assert PowerOfTwo(256);
  }

  lemma SplitCount(v: Word32, w: Word32)
    requires Within(v, 0xFFF) && Within(w, 0xFFF) && Masked(v, w) == 0
    ensures BitCount(Or(v, w)) == BitCount(v) + BitCount(w)
  {
    hide Within, Fits, Masked, BitCount, Or, PowerOfTwo, LowMask;
    TwelveDigits();
    FitsFour(v);
    FitsFour(w);
    DisjointCount(v, w, 4096);
  }

  lemma EvenCount(c: Csst)
    ensures BitCount(EvenOf(c)) == BitCount(c.b0 as Word32) + BitCount((c.b2 & 0x0F) as Word32)
  {
    hide Within, Masked, BitCount, Or, EvenOf;
    var low := (c.b2 & 0x0F) as Word32;
    PartsWithin(c);
    ThirdByte(c);
    EvenParts(c);
    SplitCount(c.b0 as Word32, low << 8);
    ShiftedFour(low);
    ShiftedFour(low << 4);
  }

  lemma OddCount(c: Csst)
    ensures BitCount(OddOf(c)) == BitCount(c.b1 as Word32) + BitCount((c.b2 & 0xF0) as Word32)
  {
    hide Within, Masked, BitCount, Or, OddOf;
    var high := (c.b2 & 0xF0) as Word32;
    PartsWithin(c);
    ThirdByte(c);
    OddParts(c);
    SplitCount(c.b1 as Word32, high << 4);
    ShiftedFour(high);
  }

  lemma ThirdCount(c: Csst)
    ensures BitCount(c.b2 as Word32) == BitCount((c.b2 & 0x0F) as Word32) + BitCount((c.b2 & 0xF0) as Word32)
  {
    hide Within, Masked, BitCount, Or;
    PartsWithin(c);
    ThirdByte(c);
    SplitCount((c.b2 & 0x0F) as Word32, (c.b2 & 0xF0) as Word32);
  }

  lemma WholeParities(c: Csst)
    ensures Masked(EvenOf(c), 0xFFF) == EvenOf(c) && Masked(OddOf(c), 0xFFF) == OddOf(c)
  {}

  // As many canonical bits as stored bits.
  lemma RearrangingKeepsBits(c: Csst)
    ensures BitCount(Rearranged(c)) == BitCount(c.b0 as Word32) + BitCount(c.b1 as Word32) + BitCount(c.b2 as Word32)
  {
    hide Masked, BitCount, EvenOf, OddOf, Pairs, PowerOfTwo, LowMask;
    TwelveDigits();
    PairsCount(EvenOf(c), OddOf(c), 4096);
    WholeParities(c);
    EvenCount(c);
    OddCount(c);
    ThirdCount(c);
  }

  // Two stored ECCs differ in as many bits as their canonical words do.
  lemma SameDistance(c: Csst, d: Csst)
    ensures BitCount(Xor(CanonicalOf(c), CanonicalOf(d)))
         == BitCount(XorByte(c.b0, d.b0) as Word32) + BitCount(XorByte(c.b1, d.b1) as Word32)
             + BitCount(XorByte(c.b2, d.b2) as Word32)
  {
    hide Xor, XorByte, CanonicalOf, Rearranged, BitCount;
    DifferencePreserved(c, d);
    RearrangingKeepsBits(XorCsst(c, d));
  }
}
