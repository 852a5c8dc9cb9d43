// The GPMC result registers hold uninverted parities, even ones in bits 0 to 11 and odd
// ones in bits 16 to 27. Packed into three bytes they are what the software path computes.
module HardwareEcc {
  import opened Words
  import opened Bits
  import opened DclEcc
  import opened EccMeaning
  import opened EccFormats

  const SEGMENT := 512

  lemma SegmentLength()
    ensures ValidLength(SEGMENT) && ValidMask(SEGMENT) == 0x00FF_FFFF
  {
    assert PowerOfTwo(8);
    assert PowerOfTwo(64);
    BitHighestTable();
    hide HighestBit;
  }

  lemma SegmentDigits()
    ensures PowerOfTwo(8 * SEGMENT) && Digits(8 * SEGMENT) == 12 && LowMask(8 * SEGMENT) == 0xFFF
  {
    LowMasks();
    hide LowMask;
    assert PowerOfTwo(16) && Digits(16) == 4;
    assert PowerOfTwo(256) && Digits(256) == 8;
  }

  // What the OMAP35x specification says a result register holds for 512 bytes: the parity
  // of each subset of data bits. Its other bits may be anything.
  predicate HoldsParities(r: Word32, segment: seq<Byte>)
    requires |segment| == SEGMENT
  {
    forall k: nat :: k < 12 ==>
      && (IsSet(r, k) <==> !Even(Ones(segment, k, false, SEGMENT)))
      && (IsSet(r, 16 + k) <==> !Even(Ones(segment, k, true, SEGMENT)))
  }

  // ---------- the register against the software ECC ----------

  lemma TwelveBits(k: nat)
    ensures IsSet(0xFFF, k) <==> k < 12
  {
    hide IsSet, Digits, PowerOfTwo, LowMask;
    SegmentDigits();
    LowMaskSet(8 * SEGMENT, k);
  }

  // One parity of the software ECC, uninverted.
  lemma SoftwareParity(segment: seq<Byte>, k: nat)
    requires |segment| == SEGMENT && ValidLength(SEGMENT) && k < 12
    ensures IsSet(Xor(EvenParities(EccOf(segment)), 0xFFF), k) <==> !Even(Ones(segment, k, false, SEGMENT))
    ensures IsSet(Xor(OddParities(EccOf(segment)), 0xFFF), k) <==> !Even(Ones(segment, k, true, SEGMENT))
  {
    hide IsSet, Digits, PowerOfTwo, LowMask, EccOf, Xor, Masked, Gather, Half, Ones;
    var ecc := EccOf(segment);
    SegmentDigits();
    TwelveBits(k);
    EccMeans(segment, k, false);
    EccMeans(segment, k, true);
    GatherSet(ecc, k);
    OddSet(ecc, k);
    MaskedSet(Gather(ecc), 0xFFF, k);
    MaskedSet(Gather(Half(ecc)), 0xFFF, k);
    XorSet(EvenParities(ecc), 0xFFF, k);
    XorSet(OddParities(ecc), 0xFFF, k);
  }

  lemma FitsTwelve(w: Word32)
    requires LowMask(8 * SEGMENT) == 0xFFF
    ensures Fits(Masked(w, 0xFFF), 8 * SEGMENT)
    ensures Fits(Xor(Masked(w, 0xFFF), 0xFFF), 8 * SEGMENT)
  {
    hide LowMask;
  }

  lemma EvenHalf(r: Word32, segment: seq<Byte>)
    requires |segment| == SEGMENT && ValidLength(SEGMENT) && HoldsParities(r, segment)
    ensures LowParities(r) == Xor(EvenParities(EccOf(segment)), 0xFFF)
  {
    hide IsSet, Digits, PowerOfTwo, LowMask, EccOf, Xor, Masked, Gather, Half, Ones, Fits;
    SegmentDigits();
    FitsTwelve(r);
    FitsTwelve(Gather(EccOf(segment)));
    forall k: nat | k < 12 ensures IsSet(LowParities(r), k) <==> IsSet(Xor(EvenParities(EccOf(segment)), 0xFFF), k) {
      TwelveBits(k);
      MaskedSet(r, 0xFFF, k);
      SoftwareParity(segment, k);
    }
    SameDigits(LowParities(r), Xor(EvenParities(EccOf(segment)), 0xFFF), 8 * SEGMENT);
  }

  lemma OddHalf(r: Word32, segment: seq<Byte>)
    requires |segment| == SEGMENT && ValidLength(SEGMENT) && HoldsParities(r, segment)
    ensures HighParities(r) == Xor(OddParities(EccOf(segment)), 0xFFF)
  {
    hide IsSet, Digits, PowerOfTwo, LowMask, EccOf, Xor, Masked, Gather, Half, Ones, Fits;
    SegmentDigits();
    FitsTwelve(r >> 16);
    FitsTwelve(Gather(Half(EccOf(segment))));
    forall k: nat | k < 12 ensures IsSet(HighParities(r), k) <==> IsSet(Xor(OddParities(EccOf(segment)), 0xFFF), k) {
      TwelveBits(k);
      SixteenUp(r, k);
      MaskedSet(r >> 16, 0xFFF, k);
      SoftwareParity(segment, k);
    }
    SameDigits(HighParities(r), Xor(OddParities(EccOf(segment)), 0xFFF), 8 * SEGMENT);
  }

  // The hardware path stores the same three bytes as the software path.
  lemma HardwareIsSoftware(r: Word32, segment: seq<Byte>)
    requires |segment| == SEGMENT && HoldsParities(r, segment)
    ensures ValidLength(SEGMENT) && RegisterBytes(r) == CsstOf(EccOf(segment))
  {
    SegmentLength();
    hide IsSet, Digits, EccOf, Xor, Invert, CsstOfParities, LowParities, HighParities, EvenParities, OddParities,
         Ones, RegisterBytes;
    RegisterBytesAre(r);
    EvenHalf(r, segment);
    OddHalf(r, segment);
    InvertedParities(EvenParities(EccOf(segment)), OddParities(EccOf(segment)));
  }

  function JoinHalves(even: Word32, odd: Word32): Word32 {
    even | (odd << 16)
  }

  lemma JoinedHalves(even: Word32, odd: Word32)
    requires Within(even, 0xFFF) && Within(odd, 0xFFF)
    ensures LowParities(JoinHalves(even, odd)) == even
    ensures HighParities(JoinHalves(even, odd)) == odd
  {}

  lemma ParitiesWithin(w: Word32)
    ensures Within(Xor(Masked(w, 0xFFF), 0xFFF), 0xFFF)
  {}

  // A register value for a segment, the one with zeros in the unused bits.
  function RegisterOf(segment: seq<Byte>): Word32
    requires |segment| == SEGMENT && ValidLength(SEGMENT)
  {
    JoinHalves(Xor(EvenParities(EccOf(segment)), 0xFFF), Xor(OddParities(EccOf(segment)), 0xFFF))
  }

  lemma RegisterOfHolds(segment: seq<Byte>)
    requires |segment| == SEGMENT
    ensures ValidLength(SEGMENT) && HoldsParities(RegisterOf(segment), segment)
  {
    SegmentLength();
    hide IsSet, Digits, EccOf, Xor, Masked, Gather, Half, JoinHalves, Within, Ones;
    var even, odd := Xor(EvenParities(EccOf(segment)), 0xFFF), Xor(OddParities(EccOf(segment)), 0xFFF);
    ParitiesWithin(Gather(EccOf(segment)));
    ParitiesWithin(Gather(Half(EccOf(segment))));
    JoinedHalves(even, odd);
    var r := JoinHalves(even, odd);
    forall k: nat | k < 12
      ensures IsSet(r, k) <==> !Even(Ones(segment, k, false, SEGMENT))
      ensures IsSet(r, 16 + k) <==> !Even(Ones(segment, k, true, SEGMENT))
    {
      TwelveBits(k);
      SixteenUp(r, k);
      MaskedSet(r, 0xFFF, k);
      MaskedSet(r >> 16, 0xFFF, k);
      SoftwareParity(segment, k);
    }
  }
}
