// What the segment ECC guarantees for every block: one flipped bit, in the data or in the
// stored ECC, is repaired exactly; two flipped bits are always reported as uncorrectable;
// and whatever is reported as corrected is a consistent block again.
module SecDed {
  import opened Words
  import opened DclEcc
  import opened Syndromes
  import opened EccTheory

  // Data bytes with the ECC stored for them, in canonical form.
  datatype Block = Block(data: seq<Byte>, ecc: Word32) {
    predicate Valid() {
      ValidLength(|data|) && Within(ecc, ValidMask(|data|))
    }

    predicate Consistent()
      requires Valid()
    {
      ecc == EccOf(data)
    }

    function Syndrome(): Word32
      requires Valid()
    {
      Xor(EccOf(data), ecc)
    }
  }

  // One wrong bit, in the data or in the stored ECC.
  datatype BitFlip = DataBit(at: nat, bit: Byte) | EccBit(mask: Word32) {
    predicate In(n: nat)
      requires ValidLength(n)
    {
      match this
      case DataBit(at, bit) => at < n && OneBitOfByte(bit)
      case EccBit(mask) => OneBit(mask) && Within(mask, ValidMask(n))
    }

    // How the flip changes the syndrome.
    function Code(n: nat): Word32
      requires ValidLength(n)
    {
      match this
      case DataBit(at, bit) => DataCode(at, bit, n)
      case EccBit(mask) => mask
    }

    // What DclEccCorrect reports for it.
    function Report(): EccResult {
      if DataBit? then DataCorrected else EccCorrected
    }
  }

  function Corrupt(b: Block, f: BitFlip): (c: Block)
    requires b.Valid() && f.In(|b.data|)
    ensures |c.data| == |b.data| && c.Valid()
  {
    match f
    case DataBit(at, bit) => Block(Flip(b.data, at, bit), b.ecc)
    case EccBit(mask) => EccBitWithin(b.ecc, mask, |b.data|); Block(b.data, Xor(b.ecc, mask))
  }

  lemma EccBitWithin(ecc: Word32, mask: Word32, n: nat)
    requires ValidLength(n) && Within(ecc, ValidMask(n)) && Within(mask, ValidMask(n))
    ensures Within(Xor(ecc, mask), ValidMask(n))
  {
    hide ValidMask, Xor, Within;
    XorWithin(ecc, mask, ValidMask(n));
  }

  // A calculated ECC has no bits outside the ones in use, as DclEccCorrect asserts.
  lemma EccOfWithin(data: seq<Byte>)
    requires ValidLength(|data|)
    ensures Within(EccOf(data), ValidMask(|data|))
  {
    hide ValidMask, Combine, Masked, Within;
    MaskedWithin(Combine(Accumulate(data, |data|)), ValidMask(|data|));
  }

  // Recalculates the ECC of a block and corrects the block with it.
  function Decode(b: Block): Correction
    requires b.Valid()
  {
    EccOfWithin(b.data);
    EccCorrect(b.data, b.ecc, EccOf(b.data))
  }

  // ---------- syndromes of flips ----------

  lemma SyndromeOfCorrupt(b: Block, f: BitFlip)
    requires b.Valid() && f.In(|b.data|)
    ensures Corrupt(b, f).Syndrome() == Xor(b.Syndrome(), f.Code(|b.data|))
  {
    hide Xor, EccOf, ValidMask, Within, OneBit, OneBitOfByte, DataCode, Flip;
    match f
    case DataBit(at, bit) =>
      EccFlip(b.data, at, bit);
      XorSwaps(EccOf(b.data), DataCode(at, bit, |b.data|), b.ecc);
    case EccBit(mask) =>
      XorAssociates(EccOf(b.data), b.ecc, mask);
  }

  lemma SyndromeOfConsistent(b: Block)
    requires b.Valid()
    ensures b.Consistent() <==> b.Syndrome() == 0
  {
    hide Xor, EccOf, ValidMask, Within;
    XorCancels(EccOf(b.data), b.ecc);
  }

  lemma DecodeVerdict(b: Block)
    requires b.Valid()
    ensures Decode(b).result == Verdict(b.Syndrome(), ValidMask(|b.data|))
  {
    hide Xor, EccOf, ValidMask, Within, IsPowerOf2, EveryPairDiffers, FlipAddress, BitAddress, Fits;
    XorCancels(EccOf(b.data), b.ecc);
    EccOfWithin(b.data);
  }

  lemma DataCodeIs(at: nat, bit: Byte, n: nat)
    requires ValidLength(n)
    ensures DataCode(at, bit, n) == Masked(PairCode(AddressOf(at, bit)), ValidMask(n))
  {
    AddressCodeIs(WordOf(at), BitIndex(bit), AddressOf(at, bit));
    hide AddressCode, PairCode, WordOf, BitIndex, ValidMask, Masked, AddressOf;
  }

  lemma AddressWithinMask(at: nat, bit: Byte, n: nat)
    requires ValidLength(n) && at < n
    ensures Within(AddressOf(at, bit), Gather(ValidMask(n)))
  {
    AddressWithin(at, bit, n);
    ValidMaskIs(n);
    hide AddressOf, ValidMask, Gather, LowMask;
  }

  // The address of a data bit is within the mask and is read back from its syndrome.
  lemma DataVerdict(at: nat, bit: Byte, n: nat)
    requires ValidLength(n) && at < n && OneBitOfByte(bit)
    ensures !IsPowerOf2(DataCode(at, bit, n)) && EveryPairDiffers(DataCode(at, bit, n), ValidMask(n))
    ensures BitAddress(DataCode(at, bit, n), ValidMask(n)) == AddressOf(at, bit)
  {
    hide DataCode, PairCode, AddressOf, Within, Xor, Masked, ValidMask, IsPowerOf2, EveryPairDiffers, BitAddress,
         PairMask, Gather, LowMask, OneBitOfByte;
    ValidMaskIs(n);
    AddressWithinMask(at, bit, n);
    DataCodeIs(at, bit, n);
    DataNotOneBit(AddressOf(at, bit), ValidMask(n));
    DataEveryPair(AddressOf(at, bit), ValidMask(n));
    DataAddress(AddressOf(at, bit), ValidMask(n));
  }

  lemma EccCodeVerdict(mask: Word32)
    requires OneBit(mask)
    ensures mask != 0 && IsPowerOf2(mask)
  {}

  lemma ZeroIsPower()
    ensures IsPowerOf2(0)
  {}

  lemma DistinctAddresses(at: nat, bit: Byte, at': nat, bit': Byte, n: nat)
    requires ValidLength(n) && at < n && at' < n && OneBitOfByte(bit) && OneBitOfByte(bit')
    requires at != at' || bit != bit'
    ensures AddressOf(at, bit) != AddressOf(at', bit')
  {
    hide AddressOf, Index, BitOf, OneBitOfByte;
    AddressNames(at, bit, n);
    AddressNames(at', bit', n);
  }

  lemma TwoDataBits(at: nat, bit: Byte, at': nat, bit': Byte, n: nat)
    requires ValidLength(n) && at < n && at' < n && OneBitOfByte(bit) && OneBitOfByte(bit')
    requires at != at' || bit != bit'
    ensures var s := Xor(DataCode(at, bit, n), DataCode(at', bit', n));
            !IsPowerOf2(s) && !EveryPairDiffers(s, ValidMask(n))
  {
    hide DataCode, PairCode, AddressOf, Within, Xor, Masked, ValidMask, IsPowerOf2, EveryPairDiffers, PairMask,
         Gather, LowMask, OneBitOfByte;
    ValidMaskIs(n);
    AddressWithinMask(at, bit, n);
    AddressWithinMask(at', bit', n);
    DataCodeIs(at, bit, n);
    DataCodeIs(at', bit', n);
    DistinctAddresses(at, bit, at', bit', n);
    TwoDataNotOneBit(AddressOf(at, bit), AddressOf(at', bit'), ValidMask(n));
    TwoDataNotPaired(AddressOf(at, bit), AddressOf(at', bit'), ValidMask(n));
  }

  lemma DataAndEccBit(at: nat, bit: Byte, mask: Word32, n: nat)
    requires ValidLength(n) && at < n && OneBitOfByte(bit) && OneBit(mask) && Within(mask, ValidMask(n))
    ensures var s := Xor(DataCode(at, bit, n), mask);
            !IsPowerOf2(s) && !EveryPairDiffers(s, ValidMask(n))
  {
    hide DataCode, PairCode, AddressOf, Within, Xor, Masked, ValidMask, IsPowerOf2, EveryPairDiffers, PairMask,
         Gather, LowMask, OneBitOfByte, OneBit;
    ValidMaskIs(n);
    DataCodeIs(at, bit, n);
    MixedNotOneBit(AddressOf(at, bit), mask, ValidMask(n));
    MixedNotPaired(AddressOf(at, bit), mask, ValidMask(n));
  }

  lemma TwoEccBits(mask: Word32, mask': Word32, n: nat)
    requires ValidLength(n) && OneBit(mask) && Within(mask, ValidMask(n)) && OneBit(mask')
        && Within(mask', ValidMask(n))
    requires mask != mask'
    ensures !IsPowerOf2(Xor(mask, mask')) && !EveryPairDiffers(Xor(mask, mask'), ValidMask(n))
  {
    hide ValidMask, Within, Xor, Gather, LowMask, IsPowerOf2, EveryPairDiffers, PairMask, OneBit;
    ValidMaskIs(n);
    TwoEccNotOneBit(mask, mask');
    TwoEccNotPaired(mask, mask', ValidMask(n));
  }

  lemma PairVerdict(f: BitFlip, g: BitFlip, n: nat)
    requires ValidLength(n) && f.In(n) && g.In(n) && f != g
    ensures Verdict(Xor(f.Code(n), g.Code(n)), ValidMask(n)) == Uncorrectable
  {
    hide DataCode, ValidMask, IsPowerOf2, EveryPairDiffers, OneBit, OneBitOfByte, Within, Xor;
    ZeroIsPower();
    XorCommutes(f.Code(n), g.Code(n));
    match (f, g)
    case (DataBit(at, bit), DataBit(at', bit')) => TwoDataBits(at, bit, at', bit', n);
    case (DataBit(at, bit), EccBit(mask)) => DataAndEccBit(at, bit, mask, n);
    case (EccBit(mask), DataBit(at, bit)) => DataAndEccBit(at, bit, mask, n);
    case (EccBit(mask), EccBit(mask')) => TwoEccBits(mask, mask', n);
  }

  // ---------- single-error correction, double-error detection ----------

  // An undamaged block is accepted as it is.
  lemma DecodeConsistent(b: Block)
    requires b.Valid() && b.Consistent()
    ensures Decode(b) == Correction(Valid, b.data, b.ecc)
  {
    hide EccOf, ValidMask, Within, Xor;
  }

  // Flipping a bit twice changes nothing.
  lemma CorruptTwice(b: Block, f: BitFlip)
    requires b.Valid() && f.In(|b.data|)
    ensures Corrupt(Corrupt(b, f), f) == b
  {
    hide ValidMask, Within, Xor, XorByte, OneBit, OneBitOfByte;
    match f
    case DataBit(at, bit) => XorByteLaws(b.data[at], bit, bit);
    case EccBit(mask) => XorCancels(b.ecc, mask);
  }

  lemma CorrectDataBit(b: Block, at: nat, bit: Byte)
    requires b.Valid() && DataBit(at, bit).In(|b.data|)
    requires b.Syndrome() == DataCode(at, bit, |b.data|)
    ensures Decode(b) == Correction(DataCorrected, Flip(b.data, at, bit), b.ecc)
  {
    hide EccOf, ValidMask, Within, Xor, IsPowerOf2, EveryPairDiffers, BitAddress, FlipAddress, Fits, DataCode,
         OneBitOfByte, AddressOf, Flip;
    ZeroIsPower();
    EccOfWithin(b.data);
    XorCancels(EccOf(b.data), b.ecc);
    DataVerdict(at, bit, |b.data|);
    FlipAddressIs(b.data, at, bit);
  }

  lemma CorrectEccBit(b: Block, mask: Word32)
    requires b.Valid() && EccBit(mask).In(|b.data|)
    requires b.Syndrome() == mask
    ensures Decode(b) == Correction(EccCorrected, b.data, EccOf(b.data))
  {
    hide EccOf, ValidMask, Within, Xor, IsPowerOf2, EveryPairDiffers, BitAddress, FlipAddress, Fits, OneBit;
    EccOfWithin(b.data);
    XorCancels(EccOf(b.data), b.ecc);
    EccCodeVerdict(mask);
  }

  // One flip away from a consistent block, decoding gives back that block and says
  // whether it was the data or the ECC that was wrong.
  lemma SingleErrorCorrected(b: Block, f: BitFlip)
    requires b.Valid() && b.Consistent() && f.In(|b.data|)
    ensures Decode(Corrupt(b, f)) == Correction(f.Report(), b.data, b.ecc)
  {
    hide EccOf, ValidMask, Within, Xor, DataCode, OneBit, OneBitOfByte, Flip, Decode;
    SyndromeOfConsistent(b);
    SyndromeOfCorrupt(b, f);
    XorCancels(f.Code(|b.data|), 0);
    XorCommutes(0, f.Code(|b.data|));
    match f
    case DataBit(at, bit) =>
      CorrectDataBit(Corrupt(b, f), at, bit);
      CorruptTwice(b, f);
    case EccBit(mask) =>
      CorrectEccBit(Corrupt(b, f), mask);
  }

  // Two flips away from a consistent block, decoding leaves it alone and says so.
  lemma DoubleErrorDetected(b: Block, f: BitFlip, g: BitFlip)
    requires b.Valid() && b.Consistent() && f.In(|b.data|) && g.In(|b.data|) && f != g
    ensures var c := Corrupt(Corrupt(b, f), g); Decode(c) == Correction(Uncorrectable, c.data, c.ecc)
  {
    hide EccOf, ValidMask, Within, Xor, OneBit, OneBitOfByte, Flip, Verdict, Corrupt, EveryPairDiffers, IsPowerOf2;
    var n := |b.data|;
    var c := Corrupt(Corrupt(b, f), g);
    SyndromeOfConsistent(b);
    SyndromeOfCorrupt(b, f);
    SyndromeOfCorrupt(Corrupt(b, f), g);
    XorCancels(f.Code(n), 0);
    XorCommutes(0, f.Code(n));
    PairVerdict(f, g, n);
    DecodeVerdict(c);
  }

  // ---------- every block, whatever happened to it ----------

  lemma ConsistentAfterFlip(b: Block, f: BitFlip)
    requires b.Valid() && f.In(|b.data|)
    ensures Corrupt(b, f).Consistent() <==> b.Syndrome() == f.Code(|b.data|)
  {
    hide EccOf, ValidMask, Within, Xor, OneBit, OneBitOfByte, Corrupt, DataCode;
    SyndromeOfConsistent(Corrupt(b, f));
    SyndromeOfCorrupt(b, f);
    XorCancels(b.Syndrome(), f.Code(|b.data|));
  }

  // Every syndrome taken for one wrong data bit is the code of that data bit.
  lemma DataFlipOf(b: Block) returns (at: nat, bit: Byte)
    requires b.Valid() && !IsPowerOf2(b.Syndrome()) && EveryPairDiffers(b.Syndrome(), ValidMask(|b.data|))
    ensures DataBit(at, bit).In(|b.data|) && b.Syndrome() == DataCode(at, bit, |b.data|)
  {
    hide EccOf, ValidMask, Within, Xor, IsPowerOf2, EveryPairDiffers, BitAddress, Fits, DataCode, OneBitOfByte,
         AddressOf, BitOf, Index, WordOf, BitIndex, PairMask, Gather, LowMask, PairCode, Masked;
    var n := |b.data|;
    EccOfWithin(b.data);
    ValidMaskIs(n);
    XorWithin(EccOf(b.data), b.ecc, ValidMask(n));
    AddressFits(b.ecc, EccOf(b.data), n);
    var a := BitAddress(b.Syndrome(), ValidMask(n));
    ByteHolds(a, n);
    at := Index(a >> 3);
    bit := BitOf(a);
    AddressOfParts(a, at, bit);
    AddressOfSyndrome(b.Syndrome(), ValidMask(n));
    DataCodeIs(at, bit, n);
  }

  lemma AddressOfParts(a: Word32, at: nat, bit: Byte)
    requires WordOf(at) == a >> 3 && bit == BitOf(a)
    ensures OneBitOfByte(bit) && AddressOf(at, bit) == a
  {
    hide WordOf;
    OneBitOf(a);
    IndexOfBit(a);
    AddressParts(a);
    hide BitOf, OneBitOfByte, BitIndex;
  }

  lemma OneBitOf(a: Word32)
    ensures OneBitOfByte(BitOf(a))
  {}

  lemma IndexOfBit(a: Word32)
    ensures BitIndex(BitOf(a)) == a & 7
  {}

  lemma AddressParts(a: Word32)
    ensures ((a >> 3) << 3) | (a & 7) == a
  {}

  // A correction is made only where one flip leads back to a consistent block.
  lemma RepairingFlip(b: Block) returns (f: BitFlip)
    requires b.Valid() && Decode(b).result in {DataCorrected, EccCorrected}
    ensures f.In(|b.data|) && Corrupt(b, f).Consistent()
  {
    hide EccOf, ValidMask, Within, Xor, OneBitOfByte, Decode, DataCode, IsPowerOf2, EveryPairDiffers, Corrupt;
    var n := |b.data|;
    DecodeVerdict(b);
    if IsPowerOf2(b.Syndrome()) {
      f := EccBit(b.Syndrome());
      EccOfWithin(b.data);
      XorWithin(EccOf(b.data), b.ecc, ValidMask(n));
    } else {
      var at, bit := DataFlipOf(b);
      f := DataBit(at, bit);
    }
    ConsistentAfterFlip(b, f);
  }

  lemma UncorrectableUntouched(b: Block)
    requires b.Valid() && Decode(b).result == Uncorrectable
    ensures Decode(b) == Correction(Uncorrectable, b.data, b.ecc)
  {
    hide EccOf, ValidMask, Within, Xor, IsPowerOf2, EveryPairDiffers, FlipAddress, BitAddress, Fits;
  }

  lemma ValidIsConsistent(b: Block)
    requires b.Valid() && Decode(b).result == Valid
    ensures b.Consistent()
  {
    hide EccOf, ValidMask, Within, Xor, IsPowerOf2, EveryPairDiffers, FlipAddress, BitAddress, Fits;
  }

  // A flip that leads to a consistent block is the one decoding performs.
  lemma FlipDecoded(b: Block, f: BitFlip)
    requires b.Valid() && f.In(|b.data|) && Corrupt(b, f).Consistent()
    ensures Decode(b) == Correction(f.Report(), Corrupt(b, f).data, Corrupt(b, f).ecc)
  {
    hide EccOf, ValidMask, Within, Xor, OneBit, OneBitOfByte, Decode, Corrupt;
    SingleErrorCorrected(Corrupt(b, f), f);
    CorruptTwice(b, f);
  }

  // The report tells exactly how far the block is from a consistent one: it is consistent,
  // or some single flip makes it so (and decoding performs that flip), or neither.
  lemma DecodeDecides(b: Block)
    requires b.Valid()
    ensures Decode(b).result == Valid <==> b.Consistent()
    ensures Decode(b).result in {DataCorrected, EccCorrected}
            <==> exists f: BitFlip :: f.In(|b.data|) && Corrupt(b, f).Consistent()
    ensures Decode(b).result != Uncorrectable ==>
              |Decode(b).data| == |b.data| && Decode(b).ecc == EccOf(Decode(b).data)
    ensures Decode(b).result == Uncorrectable ==> Decode(b).data == b.data && Decode(b).ecc == b.ecc
  {
    hide EccOf, ValidMask, Within, Xor, OneBit, OneBitOfByte, Decode, Corrupt;
    if exists f: BitFlip :: f.In(|b.data|) && Corrupt(b, f).Consistent() {
      var f: BitFlip :| f.In(|b.data|) && Corrupt(b, f).Consistent();
      FlipDecoded(b, f);
    }
    match Decode(b).result
    case Valid =>
      ValidIsConsistent(b);
      DecodeConsistent(b);
    case Uncorrectable =>
      UncorrectableUntouched(b);
      if b.Consistent() { DecodeConsistent(b); }
    case _ =>
      var f := RepairingFlip(b);
      FlipDecoded(b, f);
      if b.Consistent() { DecodeConsistent(b); }
  }
}
