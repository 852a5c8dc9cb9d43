// Why erased pages need a branch of their own: data that is all ones (or all zeros) has
// stored ECC bytes of zero, which is not what an erased spare area holds.
module ErasedPage {
  import opened Words
  import opened DclEcc
  import opened EccMeaning
  import opened EccTheory
  import opened EccFormats
  import opened HardwareEcc
  import opened SpareFlags
  import opened PageEcc
  import opened PageTheory
  import opened SecDed
  import opened Syndromes

  lemma NoOnes(i: nat, k: nat, one: bool, j: nat)
    requires j <= 8
    ensures OnesInByte(0, i, k, one, j) == 0
  {}

  lemma AllBitsSet(j: nat)
    requires j < 8
    ensures 0xFF & BitAt(j) != 0
  {}

  // Two neighbouring addresses differ in digit 0 only.
  lemma NeighbourDigits(a: nat, k: nat)
    requires a % 2 == 0
    ensures k > 0 ==> Digit(a, k) == Digit(a + 1, k)
    ensures !Digit(a, 0) && Digit(a + 1, 0)
  {
    assert a / 2 == (a + 1) / 2;
  }

  // Two more bits of a byte of ones add none or both, or for digit 0 exactly one.
  lemma TwoMore(i: nat, k: nat, one: bool, j: nat)
    requires j + 2 <= 8 && j % 2 == 0
    ensures var added := OnesInByte(0xFF, i, k, one, j + 2) - OnesInByte(0xFF, i, k, one, j);
            if k == 0 then added == 1 else added == 0 || added == 2
  {
    AllBitsSet(j);
    AllBitsSet(j + 1);
    NeighbourDigits(8 * i + j, k);
    hide Digit, BitAt;
    assert OnesInByte(0xFF, i, k, one, j + 1) - OnesInByte(0xFF, i, k, one, j)
        == if Digit(8 * i + j, k) == one then 1 else 0;
    assert OnesInByte(0xFF, i, k, one, j + 2) - OnesInByte(0xFF, i, k, one, j + 1)
        == if Digit(8 * i + (j + 1), k) == one then 1 else 0;
    assert 8 * i + (j + 1) == 8 * i + j + 1;
  }

  lemma EvenOnes(i: nat, k: nat, one: bool)
    ensures Even(OnesInByte(0xFF, i, k, one, 8))
  {
    TwoMore(i, k, one, 0);
    TwoMore(i, k, one, 2);
    TwoMore(i, k, one, 4);
    TwoMore(i, k, one, 6);
    assert OnesInByte(0xFF, i, k, one, 0) == 0;
    hide OnesInByte;
  }

  predicate Uniform(data: seq<Byte>, b: Byte) {
    forall i :: 0 <= i < |data| ==> data[i] == b
  }

  // Every subset of an all-ones or all-zeros segment has even parity.
  lemma {:induction false} UniformEven(data: seq<Byte>, b: Byte, k: nat, one: bool, n: nat)
    requires (b == 0x00 || b == 0xFF) && Uniform(data, b) && n <= |data|
    ensures Even(Ones(data, k, one, n))
  {
    hide OnesInByte;
    if n > 0 {
      UniformEven(data, b, k, one, n - 1);
      NoOnes(n - 1, k, one, 8);
      EvenOnes(n - 1, k, one);
    }
  }

  // The ECC bytes of data that is all zeros or all ones are all zeros.
  lemma UniformEcc(segment: seq<Byte>, b: Byte)
    requires |segment| == SEGMENT && (b == 0x00 || b == 0xFF) && Uniform(segment, b)
    ensures SegmentEcc(segment) == Csst(0, 0, 0)
  {
    hide IsSet, Ones, EccOf, CsstOf, RegisterBytes, Uniform;
    forall k: nat | k < 12
      ensures IsSet(0, k) <==> !Even(Ones(segment, k, false, SEGMENT))
      ensures IsSet(0, 16 + k) <==> !Even(Ones(segment, k, true, SEGMENT))
    {
      ZeroSet(k);
      ZeroSet(16 + k);
      UniformEven(segment, b, k, false, SEGMENT);
      UniformEven(segment, b, k, true, SEGMENT);
    }
    HardwareIsSoftware(0, segment);
    ZeroRegister();
  }

  lemma ZeroRegister()
    ensures RegisterBytes(0) == Csst(0, 0, 0)
  {}

  lemma ErasedWords()
    ensures CanonicalOf(Csst(0, 0, 0)) == 0x00FF_FFFF && CanonicalOf(Csst(0xFF, 0xFF, 0xFF)) == 0
  {}

  lemma AllDiffer()
    ensures !IsPowerOf2(Xor(0x00FF_FFFF, 0)) && !EveryPairDiffers(Xor(0x00FF_FFFF, 0), 0x00FF_FFFF)
  {}

  // On the ECC branch an erased segment would be reported as uncorrectable.
  lemma ErasedIsUncorrectable(segment: seq<Byte>)
    requires |segment| == SEGMENT && Uniform(segment, ERASED8)
    ensures ReadBack(Stored(segment, Csst(ERASED8, ERASED8, ERASED8))).result == Uncorrectable
  {
    SegmentLength();
    UniformEcc(segment, ERASED8);
    ErasedWords();
    AllDiffer();
    var erased := Csst(ERASED8, ERASED8, ERASED8);
    CanonicalWithin(erased);
    CanonicalWithin(Csst(0, 0, 0));
    CorrectSegmentIs(segment, erased, Csst(0, 0, 0));
    hide CanonicalOf, Within, ValidMask, ValidLength, SegmentEcc, CorrectSegment, IsPowerOf2, EveryPairDiffers, Xor,
         BitAddress, FlipAddress, Uniform;
  }

  // ---------- data whose ECC bytes look erased ----------

  // A segment with only its first and its last bit set.
  function TwoEnded(): (segment: seq<Byte>)
    ensures |segment| == SEGMENT
  {
    seq(SEGMENT, i requires 0 <= i < SEGMENT => if i == 0 then 0x01 else if i == SEGMENT - 1 then 0x80 else 0x00)
  }

  lemma LastWord()
    ensures WordOf(511) == 0x1FF
  {
    assert WordOf(3) == 0x3;
    assert WordOf(15) == 0xF;
    assert WordOf(63) == 0x3F;
    assert WordOf(255) == 0xFF;
  }

  lemma EndAddresses()
    ensures AddressOf(0, 0x01) == 0 && AddressOf(511, 0x80) == 0xFFF
  {
    LastWord();
    assert WordOf(0) == 0;
    hide WordOf;
  }

  lemma EndCodes()
    ensures Masked(PairCode(0), 0x00FF_FFFF) == 0x0055_5555 && Masked(PairCode(0xFFF), 0x00FF_FFFF) == 0x00AA_AAAA
  {}

  lemma CodesCancel()
    ensures Xor(Xor(0x00FF_FFFF, 0x0055_5555), 0x00AA_AAAA) == 0
  {}

  lemma EndBits()
    ensures OneBitOfByte(0x01) && OneBitOfByte(0x80) && XorByte(0, 0x01) == 0x01 && XorByte(0, 0x80) == 0x80
  {}

  lemma ZeroStored()
    ensures CsstOf(0) == Csst(ERASED8, ERASED8, ERASED8)
  {}

  // The two bits' codes cancel all parities, so its ECC bytes are those of an erased area.
  lemma TwoEndedEcc()
    ensures SegmentEcc(TwoEnded()) == Csst(ERASED8, ERASED8, ERASED8)
  {
    SegmentLength();
    EndAddresses();
    EndCodes();
    CodesCancel();
    EndBits();
    ZeroStored();
    ErasedWords();
    hide EccOf, CsstOf, CanonicalOf, Masked, PairCode, AddressOf, Xor, XorByte, ValidMask, ValidLength, DataCode,
         OneBitOfByte, PowerOfTwo;
    var zeros: seq<Byte> := seq(SEGMENT, i => 0x00);
    UniformEcc(zeros, 0x00);
    StoredEcc(zeros);
    var first := Flip(zeros, 0, 0x01);
    EccFlip(zeros, 0, 0x01);
    EccFlip(first, 511, 0x80);
    DataCodeIs(0, 0x01, SEGMENT);
    DataCodeIs(511, 0x80, SEGMENT);
    assert Flip(first, 511, 0x80) == TwoEnded();
  }

  // Four such segments.
  function TwoEndedData(): (data: seq<Byte>)
    ensures |data| == 4 * SEGMENT
  {
    TwoEnded() + TwoEnded() + TwoEnded() + TwoEnded()
  }

  lemma TwoEndedSegments(k: nat)
    requires k < 4
    ensures SegmentOf(TwoEndedData(), k) == TwoEnded()
  {
    hide TwoEnded;
    match k case 0 => case 1 => case 2 => case _ =>
  }

  // Its calculated ECC bytes are all 0xFF.
  lemma {:induction false} TwoEndedBytes(n: nat)
    requires n <= 4
    ensures Uniform(EccBytes(TwoEndedData(), n), ERASED8)
  {
    hide TwoEndedData, TwoEnded, SegmentEcc, SegmentOf;
    if n > 0 {
      TwoEndedBytes(n - 1);
      TwoEndedSegments(n - 1);
      TwoEndedEcc();
    }
  }

  // A spare area with an unwritten flag, all erased but for one bit in each of the first two
  // stored ECCs.
  function TwoBitsOff(): (spare: seq<Byte>)
    ensures |spare| == 64
  {
    seq(64, i requires 0 <= i < 64 => if i == 1 || i == 4 then 0xFE else ERASED8)
  }

  // A page whose flag does not say it was written, with two wrong bits in its stored ECC.
  function LooksUnwritten(): (p: Page)
    ensures HasSegments(p, 4) && |p.spare| == 64
  {
    Page(TwoEndedData(), TwoBitsOff())
  }

  lemma OneBitOff()
    ensures OneStoredBit(XorCsst(Csst(0xFF, 0xFF, 0xFF), Csst(0xFE, 0xFF, 0xFF)))
    ensures XorCsst(Csst(0xFF, 0xFF, 0xFF), Csst(0x01, 0x00, 0x00)) == Csst(0xFE, 0xFF, 0xFF)
    ensures OneStoredBit(Csst(0x01, 0x00, 0x00))
  {}

  lemma StoredOff(k: nat)
    requires k < 4
    ensures CsstAt(TwoBitsOff(), ECC_OFFSET + BYTES_PER_ECC * k) == Csst(if k < 2 then 0xFE else 0xFF, 0xFF, 0xFF)
  {
    match k case 0 => case 1 => case 2 => case _ =>
  }

  lemma UniformAt(bytes: seq<Byte>, at: nat)
    requires Uniform(bytes, ERASED8) && at + BYTES_PER_ECC <= |bytes|
    ensures CsstAt(bytes, at) == Csst(0xFF, 0xFF, 0xFF)
  {}

  // Every stored ECC that is replaced is replaced by 0xFF bytes.
  lemma {:induction false} ReplacedErased(calculated: seq<Byte>, n: nat)
    requires n <= 4 && |calculated| == 12 && Uniform(calculated, ERASED8)
    ensures forall i :: 0 <= i < 64 ==>
      Replaced(TwoBitsOff(), calculated, n)[i]
        == if ECC_OFFSET <= i < ECC_OFFSET + BYTES_PER_ECC * n then ERASED8 else TwoBitsOff()[i]
  {
    hide OneStoredBit, XorCsst, CsstAt, TwoBitsOff, Uniform;
    if n > 0 {
      ReplacedErased(calculated, n - 1);
      StoredOff(n - 1);
      OneBitOff();
      UniformAt(calculated, BYTES_PER_ECC * (n - 1));
    }
  }

  lemma TwoOff()
    ensures TotalOffBits(TwoBitsOff()[ECC_OFFSET..ECC_OFFSET + ECC_LEN]) > 1
  {
    var range := TwoBitsOff()[ECC_OFFSET..ECC_OFFSET + ECC_LEN];
    assert range[0] == 0xFE && range[1..][2] == 0xFE;
    ErasedTotal(range[1..]);
    hide OffBits;
  }

  lemma AllErased(calculated: seq<Byte>)
    requires |calculated| == 12 && Uniform(calculated, ERASED8)
    ensures TotalOffBits(Replaced(TwoBitsOff(), calculated, 4)[ECC_OFFSET..ECC_OFFSET + ECC_LEN]) == 0
  {
    ReplacedErased(calculated, 4);
    ErasedTotal(Replaced(TwoBitsOff(), calculated, 4)[ECC_OFFSET..ECC_OFFSET + ECC_LEN]);
    hide Replaced, TotalOffBits;
  }

  lemma FlagErased()
    ensures TwoBitsOff()[FLAGS_OFFSET] == ERASED8 && !IsWrittenWithEcc(ERASED8)
  {}

  lemma SegmentsOff(k: nat)
    requires k < 4
    ensures var intact := Stored(TwoEnded(), Csst(0xFF, 0xFF, 0xFF));
            && intact.Intact()
            && StoredAt(LooksUnwritten(), k)
                 == if k < 2 then Damage(intact, StoredFlip(Csst(0x01, 0x00, 0x00))) else intact
  {
    hide TwoEnded, TwoEndedData, TwoBitsOff, SegmentEcc, CsstAt, SegmentOf, OneStoredBit, XorCsst;
    OneBitOff();
    TwoEndedEcc();
    TwoEndedSegments(k);
    StoredOff(k);
  }

  lemma OutcomesOff(k: nat)
    requires k < 4
    ensures OutcomeAt(LooksUnwritten(), CalculatedFor(LooksUnwritten(), 4), k).result
         == if k < 2 then EccCorrected else DclEcc.Valid
  {
    hide LooksUnwritten, CalculatedFor, OutcomeAt, ReadBack, SegmentEcc, OneStoredBit, TwoEnded, Damage;
    var intact := Stored(TwoEnded(), Csst(0xFF, 0xFF, 0xFF));
    OneBitOff();
    SegmentsOff(k);
    SegmentSingle(intact, StoredFlip(Csst(0x01, 0x00, 0x00)));
    OutcomeIsReadBack(LooksUnwritten(), 4, k);
  }

  // The input for which the second reading counts differently: the first corrects two stored
  // ECCs and counts four segments, after which the page looks unwritten.
  lemma SecondReadingDiffers()
    ensures var p := LooksUnwritten(); var q := PageAfter(p, CalculatedFor(p, 4), 4);
            && PageStatus(p, CalculatedFor(p, 4), 4) == IoStatus(4, FfxstatSuccess, true)
            && PageStatus(q, CalculatedFor(q, 4), 4) == IoStatus(1, FfxstatSuccess, false)
  {
    hide CalculatedFor, OutcomeAt, GoodSegments, Repaired, Replaced, TwoBitsOff, TwoEndedData, TotalOffBits,
         IsWrittenWithEcc;
    var p := LooksUnwritten();
    var calculated := CalculatedFor(p, 4);
    WitnessEcc();
    TwoOff();
    AllErased(calculated);
    FlagErased();
    LosesBranchIff(p, calculated, 4);
    CorrectionIsIdempotent(p, 4);
    forall k: nat | k < 4 ensures OutcomeAt(p, calculated, k).result == if k < 2 then EccCorrected else DclEcc.Valid {
      OutcomesOff(k);
    }
    AllGood(p, calculated, 4);
    assert OutcomeAt(p, calculated, 0).result == EccCorrected;
    assert TakesEcc(p.spare) && LosesBranch(p, calculated, 4);
  }

  lemma WitnessEcc()
    ensures var calculated := CalculatedFor(LooksUnwritten(), 4); |calculated| == 12 && Uniform(calculated, ERASED8)
  {
    hide Uniform, TwoEndedData, TwoBitsOff, EccBytes;
    TwoEndedBytes(4);
  }
}
