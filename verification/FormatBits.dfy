// Where every bit of an ECC goes in each of its formats.
module FormatBits {
  import opened Words
  import opened EccMeaning
  import opened Bits
  import opened EccFormats

  // The byte, or four bits of it, are the lowest bits of a word.
  predicate LowByteOf(b: Byte, x: Word32) {
    b as Word32 == x & 0xFF
  }

  predicate LowNibbleOf(b: Byte, x: Word32) {
    (b as Word32) & 0xF == x & 0xF
  }

  predicate HighNibbleOf(b: Byte, x: Word32) {
    (b as Word32) >> 4 == x & 0xF
  }

  lemma LowestByte(x: Word32, b: Byte, k: nat)
    requires k < 8 && LowByteOf(b, x)
    ensures HasBit(b, k) <==> IsSet(x, k)
  {
    BitSet(x, k);
    hide IsSet;
    match k case 0 => case 1 => case 2 => case 3 => case 4 => case 5 => case 6 => case _ =>
  }

  // ---------- SSFDC ----------

  predicate AboveTwoOnes(b: Byte, w: Word32) {
    b as Word32 == ((w << 2) & 0xFF) | 3
  }

  predicate SixBitsOf(b: Byte, w: Word32) {
    (b as Word32) >> 2 == w & 0x3F
  }

  lemma SixUp(w: Word32, k: nat)
    ensures IsSet(w, 6 + k) <==> IsSet(w >> 6, k)
  {
    hide IsSet;
    FourUp(w, 2 + k);
    TwoUp(w >> 4, k);
    assert (w >> 4) >> 2 == w >> 6;
  }

  lemma FourteenUp(w: Word32, k: nat)
    ensures IsSet(w, 14 + k) <==> IsSet(w >> 14, k)
  {
    hide IsSet;
    EightUp(w, 6 + k);
    SixUp(w >> 8, k);
    assert (w >> 8) >> 6 == w >> 14;
  }

  lemma ThirdSsfdcByte(w: Word32, b: Byte, k: nat)
    requires k < 8 && AboveTwoOnes(b, w)
    ensures HasBit(b, k) <==> k < 2 || w & BitMask((k + 6) % 8) != 0
  {
    match k case 0 => case 1 => case 2 => case 3 => case 4 => case 5 => case 6 => case _ =>
  }

  lemma SsfdcParts(ecc: Word32)
    ensures var s := CanonicalToSsfdc(ecc);
            && LowByteOf(s.b0, ecc >> 6) && LowByteOf(s.b1, ecc >> 14)
            && AboveTwoOnes(s.b2, ecc)
  {}

  // Bits 6 to 13 of the word, then bits 14 to 21 ...
  lemma SsfdcBits(ecc: Word32, k: nat)
    requires k < 8
    ensures HasBit(CanonicalToSsfdc(ecc).b0, k) <==> IsSet(ecc, 6 + k)
    ensures HasBit(CanonicalToSsfdc(ecc).b1, k) <==> IsSet(ecc, 14 + k)
  {
    SsfdcParts(ecc);
    hide CanonicalToSsfdc, IsSet, HasBit, LowByteOf, AboveTwoOnes;
    LowestByte(ecc >> 6, CanonicalToSsfdc(ecc).b0, k);
    LowestByte(ecc >> 14, CanonicalToSsfdc(ecc).b1, k);
    SixUp(ecc, k);
    FourteenUp(ecc, k);
  }

  // ... then bits 0 to 5 above two ones.
  lemma SsfdcThird(ecc: Word32, k: nat)
    requires k < 8
    ensures HasBit(CanonicalToSsfdc(ecc).b2, k) <==> k < 2 || IsSet(ecc, k - 2)
  {
    SsfdcParts(ecc);
    hide CanonicalToSsfdc, IsSet, HasBit, BitMask, LowByteOf, AboveTwoOnes;
    ThirdSsfdcByte(ecc, CanonicalToSsfdc(ecc).b2, k);
    if k >= 2 { BitSet(ecc, k - 2); }
  }

  lemma SsfdcWord(s: Ssfdc)
    ensures var w := SsfdcToCanonical(s);
            && LowByteOf(s.b0, w >> 6) && LowByteOf(s.b1, w >> 14)
            && SixBitsOf(s.b2, w) && w >> 22 == 0
  {}

  lemma SsfdcLowest(w: Word32, b: Byte, k: nat)
    requires k < 6 && SixBitsOf(b, w)
    ensures w & BitMask(k) != 0 <==> HasBit(b, k + 2)
  {
    match k case 0 => case 1 => case 2 => case 3 => case 4 => case _ =>
  }

  // The other way round.
  lemma SsfdcWordBits(s: Ssfdc, k: nat)
    ensures IsSet(SsfdcToCanonical(s), k)
       <==> if k < 6 then HasBit(s.b2, k + 2) else if k < 14 then HasBit(s.b0, k - 6)
            else k < 22 && HasBit(s.b1, k - 14)
  {
    SsfdcWord(s);
    var w := SsfdcToCanonical(s);
    hide SsfdcToCanonical, IsSet, HasBit, LowByteOf, SixBitsOf;
    if k < 6 {
      BitSet(w, k);
      SsfdcLowest(w, s.b2, k);
    } else if k < 14 {
      SixUp(w, k - 6);
      LowestByte(w >> 6, s.b0, k - 6);
    } else if k < 22 {
      FourteenUp(w, k - 14);
      LowestByte(w >> 14, s.b1, k - 14);
    } else {
      EightUp(w, k - 8);
      FourteenUp(w >> 8, k - 22);
      assert (w >> 8) >> 14 == w >> 22;
      ZeroSet(k - 22);
    }
  }

  // ---------- CSST ----------

  // The upper four bits of two twelve-bit numbers.
  predicate UpperFours(b: Byte, even: Word32, odd: Word32) {
    LowNibbleOf(b, even >> 8) && HighNibbleOf(b, odd >> 8)
  }

  lemma UpperFoursBits(b: Byte, even: Word32, odd: Word32, k: nat)
    requires k < 4 && UpperFours(b, even, odd)
    ensures HasBit(b, k) <==> IsSet(even, 8 + k)
    ensures HasBit(b, 4 + k) <==> IsSet(odd, 8 + k)
  {
    hide IsSet, HasBit, LowNibbleOf, HighNibbleOf;
    EightUp(even, k);
    EightUp(odd, k);
    LowNibble(even >> 8, b, k);
    HighNibble(odd >> 8, b, k);
  }

  lemma InvertedParts(even: Word32, odd: Word32)
    ensures var c := CsstOfParities(Invert(even), Invert(odd));
            && LowByteOf(c.b0, Xor(even, 0xFFF)) && LowByteOf(c.b1, Xor(odd, 0xFFF))
            && UpperFours(c.b2, Xor(even, 0xFFF), Xor(odd, 0xFFF))
  {}

  lemma CsstParts(ecc: Word32)
    ensures var c, even, odd := CsstOf(ecc), Xor(EvenParities(ecc), 0xFFF), Xor(OddParities(ecc), 0xFFF);
            && LowByteOf(c.b0, even) && LowByteOf(c.b1, odd)
            && UpperFours(c.b2, even, odd)
  {
    hide Xor, EvenParities, OddParities, CsstOfParities, Invert, LowByteOf, UpperFours;
    InvertedParts(EvenParities(ecc), OddParities(ecc));
  }

  lemma LowNibble(x: Word32, b: Byte, k: nat)
    requires k < 4 && LowNibbleOf(b, x)
    ensures HasBit(b, k) <==> IsSet(x, k)
  {
    BitSet(x, k);
    hide IsSet;
    match k case 0 => case 1 => case 2 => case _ =>
  }

  lemma HighNibble(x: Word32, b: Byte, k: nat)
    requires k < 4 && HighNibbleOf(b, x)
    ensures HasBit(b, 4 + k) <==> IsSet(x, k)
  {
    BitSet(x, k);
    hide IsSet;
    match k case 0 => case 1 => case 2 => case _ =>
  }

  lemma TwelveOnes(k: nat)
    requires k < 12
    ensures IsSet(0xFFF, k)
  {
    BitSet(0xFFF, k);
    hide IsSet;
    match k
    case 0 => case 1 => case 2 => case 3 => case 4 => case 5 => case 6 => case 7 => case 8 => case 9 => case 10 =>
    case _ =>
  }

  lemma ParityBits(ecc: Word32, k: nat)
    requires k < 12
    ensures IsSet(Xor(EvenParities(ecc), 0xFFF), k) <==> !IsSet(ecc, 2 * k)
    ensures IsSet(Xor(OddParities(ecc), 0xFFF), k) <==> !IsSet(ecc, 2 * k + 1)
  {
    hide IsSet, Xor, Masked, Gather, Half;
    TwelveOnes(k);
    GatherSet(ecc, k);
    OddSet(ecc, k);
    MaskedSet(Gather(ecc), 0xFFF, k);
    MaskedSet(Gather(Half(ecc)), 0xFFF, k);
    XorSet(EvenParities(ecc), 0xFFF, k);
    XorSet(OddParities(ecc), 0xFFF, k);
  }

  // The first byte has the lower eight even parities, the second the lower eight odd ones ...
  lemma CsstBits(ecc: Word32, k: nat)
    requires k < 8
    ensures HasBit(CsstOf(ecc).b0, k) <==> !IsSet(ecc, 2 * k)
    ensures HasBit(CsstOf(ecc).b1, k) <==> !IsSet(ecc, 2 * k + 1)
  {
    CsstParts(ecc);
    hide IsSet, HasBit, Xor, EvenParities, OddParities, CsstOf, LowByteOf, UpperFours;
    ParityBits(ecc, k);
    LowestByte(Xor(EvenParities(ecc), 0xFFF), CsstOf(ecc).b0, k);
    LowestByte(Xor(OddParities(ecc), 0xFFF), CsstOf(ecc).b1, k);
  }

  // ... the third the upper four of both, the even ones low; all of them inverted.
  lemma CsstThird(ecc: Word32, k: nat)
    requires k < 4
    ensures HasBit(CsstOf(ecc).b2, k) <==> !IsSet(ecc, 16 + 2 * k)
    ensures HasBit(CsstOf(ecc).b2, 4 + k) <==> !IsSet(ecc, 17 + 2 * k)
  {
    CsstParts(ecc);
    hide IsSet, HasBit, Xor, EvenParities, OddParities, CsstOf, LowByteOf, UpperFours;
    ParityBits(ecc, 8 + k);
    UpperFoursBits(CsstOf(ecc).b2, Xor(EvenParities(ecc), 0xFFF), Xor(OddParities(ecc), 0xFFF), k);
  }

  // ---------- result register ----------

  lemma RegisterParts(r: Word32)
    ensures var c := RegisterBytes(r);
            && LowByteOf(c.b0, r) && LowByteOf(c.b1, r >> 16)
            && LowNibbleOf(c.b2, r >> 8) && HighNibbleOf(c.b2, r >> 24)
  {}

  // The same layout from a register: even parities in bits 0 to 11, odd ones in bits 16 to 27.
  lemma RegisterBits(r: Word32, k: nat)
    requires k < 8
    ensures HasBit(RegisterBytes(r).b0, k) <==> IsSet(r, k)
    ensures HasBit(RegisterBytes(r).b1, k) <==> IsSet(r, 16 + k)
    ensures HasBit(RegisterBytes(r).b2, k) <==> IsSet(r, if k < 4 then 8 + k else 24 + (k - 4))
  {
    RegisterParts(r);
    hide IsSet, HasBit, RegisterBytes, LowByteOf, LowNibbleOf, HighNibbleOf;
    var c := RegisterBytes(r);
    LowestByte(r, c.b0, k);
    SixteenUp(r, k);
    LowestByte(r >> 16, c.b1, k);
    if k < 4 {
      EightUp(r, k);
      LowNibble(r >> 8, c.b2, k);
    } else {
      SixteenUp(r, 8 + (k - 4));
      EightUp(r >> 16, k - 4);
      assert (r >> 16) >> 8 == r >> 24;
      HighNibble(r >> 24, c.b2, k - 4);
    }
  }
}
