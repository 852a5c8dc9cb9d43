// DclEccCalculate and DclEccCorrect: the one-bit correcting, two-bit detecting ECC
// of dcl/common/util/dlecc.c, with its lookup tables.
module DclEcc {
  import opened Words

  const MAX_ECC_DATA_LEN := 8192
  const ALL_BIT_EOR: Byte := 0x40

  // abCPTable, one row for each high nibble of the data byte.
  const CP_TABLE: seq<seq<Byte>> := [
      [0x00, 0x55, 0x56, 0x03, 0x59, 0x0C, 0x0F, 0x5A, 0x5A, 0x0F, 0x0C, 0x59, 0x03, 0x56, 0x55, 0x00],
      [0x65, 0x30, 0x33, 0x66, 0x3C, 0x69, 0x6A, 0x3F, 0x3F, 0x6A, 0x69, 0x3C, 0x66, 0x33, 0x30, 0x65],
      [0x66, 0x33, 0x30, 0x65, 0x3F, 0x6A, 0x69, 0x3C, 0x3C, 0x69, 0x6A, 0x3F, 0x65, 0x30, 0x33, 0x66],
      [0x03, 0x56, 0x55, 0x00, 0x5A, 0x0F, 0x0C, 0x59, 0x59, 0x0C, 0x0F, 0x5A, 0x00, 0x55, 0x56, 0x03],
      [0x69, 0x3C, 0x3F, 0x6A, 0x30, 0x65, 0x66, 0x33, 0x33, 0x66, 0x65, 0x30, 0x6A, 0x3F, 0x3C, 0x69],
      [0x0C, 0x59, 0x5A, 0x0F, 0x55, 0x00, 0x03, 0x56, 0x56, 0x03, 0x00, 0x55, 0x0F, 0x5A, 0x59, 0x0C],
      [0x0F, 0x5A, 0x59, 0x0C, 0x56, 0x03, 0x00, 0x55, 0x55, 0x00, 0x03, 0x56, 0x0C, 0x59, 0x5A, 0x0F],
      [0x6A, 0x3F, 0x3C, 0x69, 0x33, 0x66, 0x65, 0x30, 0x30, 0x65, 0x66, 0x33, 0x69, 0x3C, 0x3F, 0x6A],
      [0x6A, 0x3F, 0x3C, 0x69, 0x33, 0x66, 0x65, 0x30, 0x30, 0x65, 0x66, 0x33, 0x69, 0x3C, 0x3F, 0x6A],
      [0x0F, 0x5A, 0x59, 0x0C, 0x56, 0x03, 0x00, 0x55, 0x55, 0x00, 0x03, 0x56, 0x0C, 0x59, 0x5A, 0x0F],
      [0x0C, 0x59, 0x5A, 0x0F, 0x55, 0x00, 0x03, 0x56, 0x56, 0x03, 0x00, 0x55, 0x0F, 0x5A, 0x59, 0x0C],
      [0x69, 0x3C, 0x3F, 0x6A, 0x30, 0x65, 0x66, 0x33, 0x33, 0x66, 0x65, 0x30, 0x6A, 0x3F, 0x3C, 0x69],
      [0x03, 0x56, 0x55, 0x00, 0x5A, 0x0F, 0x0C, 0x59, 0x59, 0x0C, 0x0F, 0x5A, 0x00, 0x55, 0x56, 0x03],
      [0x66, 0x33, 0x30, 0x65, 0x3F, 0x6A, 0x69, 0x3C, 0x3C, 0x69, 0x6A, 0x3F, 0x65, 0x30, 0x33, 0x66],
      [0x65, 0x30, 0x33, 0x66, 0x3C, 0x69, 0x6A, 0x3F, 0x3F, 0x6A, 0x69, 0x3C, 0x66, 0x33, 0x30, 0x65],
      [0x00, 0x55, 0x56, 0x03, 0x59, 0x0C, 0x0F, 0x5A, 0x5A, 0x0F, 0x0C, 0x59, 0x03, 0x56, 0x55, 0x00]
  ]

  // abMerge: the four bits of a nibble with zeros inserted between them.
  const MERGE: seq<Byte> := [
    0x00, 0x01, 0x04, 0x05, 0x10, 0x11, 0x14, 0x15, 0x40, 0x41, 0x44, 0x45, 0x50, 0x51, 0x54, 0x55
  ]

  function CpEntry(b: Byte): Byte {
    CP_TABLE[(b >> 4) as int][(b & 0xF) as int]
  }

  function MergeEntry(w: Word32): Word32 {
    MERGE[((w & 0xF) as bv4) as int] as Word32
  }

  // The position of the highest set bit, counted from one.
  function HighestBit(v: nat): nat {
    if v == 0 then 0 else 1 + HighestBit(v / 2)
  }

  method DclBitHighest(ulValue: nat) returns (nn: nat)
    ensures nn == HighestBit(ulValue)
  {
    nn := 0;
    var vv := ulValue;
    while vv != 0
      invariant nn + HighestBit(vv) == HighestBit(ulValue)
    {
      nn := nn + 1;
      vv := vv / 2;
    }
  }

  // The lengths both functions assert: a power of two not exceeding 8 KB.
  predicate ValidLength(n: nat) {
    PowerOfTwo(n) && n <= MAX_ECC_DATA_LEN
  }

  lemma {:induction false} Highest(n: nat)
    requires ValidLength(n)
    ensures 1 <= HighestBit(n) <= 14
  {
    PowersOfTwo(n);
    BitHighestTable();
  }

  lemma BitHighestTable()
    ensures HighestBit(1) == 1 && HighestBit(2) == 2 && HighestBit(4) == 3 && HighestBit(8) == 4
    ensures HighestBit(16) == 5 && HighestBit(32) == 6 && HighestBit(64) == 7 && HighestBit(128) == 8
    ensures HighestBit(256) == 9 && HighestBit(512) == 10 && HighestBit(1024) == 11
    ensures HighestBit(2048) == 12 && HighestBit(4096) == 13 && HighestBit(8192) == 14
  {
    assert HighestBit(1) == 1;
    assert HighestBit(2) == 2;
    assert HighestBit(4) == 3;
    assert HighestBit(8) == 4;
    assert HighestBit(16) == 5;
    assert HighestBit(32) == 6;
    assert HighestBit(64) == 7;
    assert HighestBit(128) == 8;
    assert HighestBit(256) == 9;
    assert HighestBit(512) == 10;
    assert HighestBit(1024) == 11;
    assert HighestBit(2048) == 12;
    assert HighestBit(4096) == 13;
  }

  function MaskBelow(nHighest: nat): Word32
    requires 1 <= nHighest <= 14
  {
    0xFFFF_FFFF >> (32 - (nHighest + 2) * 2)
  }

  // The bits of a canonical ECC that are in use: two for each bit-address digit.
  function ValidMask(n: nat): Word32
    requires ValidLength(n)
  {
    Highest(n);
    MaskBelow(HighestBit(n))
  }

  lemma MaskTable()
    ensures MaskBelow(1) == 0x3F && MaskBelow(2) == 0xFF && MaskBelow(3) == 0x3FF && MaskBelow(4) == 0xFFF
    ensures MaskBelow(5) == 0x3FFF && MaskBelow(6) == 0xFFFF && MaskBelow(7) == 0x3_FFFF && MaskBelow(8) == 0xF_FFFF
    ensures MaskBelow(9) == 0x3F_FFFF && MaskBelow(10) == 0xFF_FFFF && MaskBelow(11) == 0x3FF_FFFF
    ensures MaskBelow(12) == 0xFFF_FFFF && MaskBelow(13) == 0x3FFF_FFFF && MaskBelow(14) == 0xFFFF_FFFF
  {}

  lemma ValidMaskIs(n: nat)
    requires ValidLength(n)
    ensures PairMask(ValidMask(n)) && Gather(ValidMask(n)) == LowMask(8 * n)
  {
    PowersOfTwo(n);
    BitHighestTable();
    LowMasks();
    MaskTable();
    hide HighestBit, LowMask, MaskBelow;
  }

  // ---------- what the tables hold ----------

  function Select(b: Byte, bit: Byte, code: Byte): Byte {
    if b & bit != 0 then code else 0
  }

  // The column parities of a byte: each set bit j toggles, for each of the three digits
  // of j, P or P' of that digit, and toggles the all-bit parity.
  function ColumnCode(b: Byte): Byte {
    Select(b, 0x01, 0x55) ^ Select(b, 0x02, 0x56) ^ Select(b, 0x04, 0x59) ^ Select(b, 0x08, 0x5A) ^
    Select(b, 0x10, 0x65) ^ Select(b, 0x20, 0x66) ^ Select(b, 0x40, 0x69) ^ Select(b, 0x80, 0x6A)
  }

  lemma CpRows0(h: Byte, l: Byte)
    requires h < 4 && l < 16
    ensures CP_TABLE[h as int][l as int] == ColumnCode((h << 4) | l)
  {
    match h case 0 => case 1 => case 2 => case 3 =>
  }

  lemma CpRows4(h: Byte, l: Byte)
    requires 4 <= h < 8 && l < 16
    ensures CP_TABLE[h as int][l as int] == ColumnCode((h << 4) | l)
  {
    match h case 4 => case 5 => case 6 => case 7 =>
  }

  lemma CpRows8(h: Byte, l: Byte)
    requires 8 <= h < 12 && l < 16
    ensures CP_TABLE[h as int][l as int] == ColumnCode((h << 4) | l)
  {
    match h case 8 => case 9 => case 10 => case 11 =>
  }

  lemma CpRows12(h: Byte, l: Byte)
    requires 12 <= h < 16 && l < 16
    ensures CP_TABLE[h as int][l as int] == ColumnCode((h << 4) | l)
  {
    match h case 12 => case 13 => case 14 => case 15 =>
  }

  lemma Nibbles(b: Byte)
    ensures b >> 4 < 16 && b & 0xF < 16 && ((b >> 4) << 4) | (b & 0xF) == b
  {}

  lemma CpEntryIs(b: Byte)
    ensures CpEntry(b) == ColumnCode(b)
  {
    Nibbles(b);
    hide ColumnCode, CP_TABLE;
    var h, l := b >> 4, b & 0xF;
    if h < 4 {
      CpRows0(h, l);
    } else if h < 8 {
      CpRows4(h, l);
    } else if h < 12 {
      CpRows8(h, l);
    } else {
      CpRows12(h, l);
    }
  }

  lemma MergeEntryIs(w: Word32)
    ensures MergeEntry(w) == Spread(w & 0xF)
  {}

  // ---------- DclEccCalculate ----------

  // The running parities of the calculation loop.
  datatype Parities = Parities(bCP: Byte, nLP1: Word32, nLP0: Word32)

  const EVEN_PARITY := Parities(0xFF, 0xFFFF_FFFF, 0xFFFF_FFFF)

  // The all-bit parity of a byte, from its table entry.
  predicate OddByte(t: Byte) {
    t & ALL_BIT_EOR != 0
  }

  // A line parity takes in the index of every byte whose all-bit parity is odd.
  function ToggleLine(nLP: Word32, t: Byte, index: Word32): Word32 {
    if OddByte(t) then Xor(nLP, index) else nLP
  }

  // The effect of the data byte at the given index.
  function Toggle(p: Parities, b: Byte, index: Word32): Parities {
    var t := CpEntry(b);
    Parities(XorByte(p.bCP, t), ToggleLine(p.nLP1, t, index), ToggleLine(p.nLP0, t, Invert(index)))
  }

  // The running parities after the first n bytes.
  function Accumulate(data: seq<Byte>, n: nat): Parities
    requires n <= |data|
  {
    if n == 0 then EVEN_PARITY else Toggle(Accumulate(data, n - 1), data[n - 1], WordOf(n - 1))
  }

  // Shifts in four more line pairs: the P bits odd, the P' bits even.
  function AppendPairs(ulEcc: Word32, p1: Word32, p0: Word32): Word32 {
    (ulEcc << 8) | (p1 << 1) | p0
  }

  // Shifts in the column pairs.
  function AppendColumns(ulEcc: Word32, bCP: Byte): Word32 {
    (ulEcc << 6) | ((bCP & 0x3F) as Word32)
  }

  // Combines line and column parities by lookup, shifting and masking.
  function Combine(p: Parities): Word32 {
    AppendColumns(LinePairs(p.nLP1, p.nLP0), p.bCP)
  }

  function LinePairs(nLP1: Word32, nLP0: Word32): Word32 {
    var e0 := AppendPairs(0, MergeEntry(nLP1 >> 12), MergeEntry(nLP0 >> 12));
    var e1 := AppendPairs(e0, MergeEntry(nLP1 >> 8), MergeEntry(nLP0 >> 8));
    var e2 := AppendPairs(e1, MergeEntry(nLP1 >> 4), MergeEntry(nLP0 >> 4));
    AppendPairs(e2, MergeEntry(nLP1), MergeEntry(nLP0))
  }

  // The canonical ECC of a block of data.
  function EccOf(data: seq<Byte>): Word32
    requires ValidLength(|data|)
  {
    Masked(Combine(Accumulate(data, |data|)), ValidMask(|data|))
  }

  // The loop of DclEccCalculate.
  method AccumulateParities(data: array<Byte>, offset: nat, nLength: nat)
    returns (bCP: Byte, nLP1: Word32, nLP0: Word32)
    requires offset + nLength <= data.Length
    ensures Parities(bCP, nLP1, nLP0) == Accumulate(data[offset..offset + nLength], nLength)
  {
    hide CpEntry, OddByte, WordOf, Xor, XorByte, Invert;
    bCP, nLP1, nLP0 := 0xFF, 0xFFFF_FFFF, 0xFFFF_FFFF;
    ghost var block := data[offset..offset + nLength];
    for index := 0 to nLength
      invariant Parities(bCP, nLP1, nLP0) == Accumulate(block, index)
    {
      var b := data[offset + index];
      assert b == block[index];
      bCP := XorByte(bCP, CpEntry(b));
      if OddByte(CpEntry(b)) {
        nLP1 := Xor(nLP1, WordOf(index));
        nLP0 := Xor(nLP0, Invert(WordOf(index)));
      }
    }
  }

  lemma EccOfParities(block: seq<Byte>, bCP: Byte, nLP1: Word32, nLP0: Word32)
    requires ValidLength(|block|) && 1 <= HighestBit(|block|) <= 14
    requires Parities(bCP, nLP1, nLP0) == Accumulate(block, |block|)
    ensures EccOf(block) == Masked(AppendColumns(LinePairs(nLP1, nLP0), bCP), MaskBelow(HighestBit(|block|)))
  {
    hide LinePairs, AppendColumns, Accumulate, MaskBelow, Masked, HighestBit, ValidLength;
  }

  method DclEccCalculate(data: array<Byte>, offset: nat, nLength: nat) returns (ulEcc: Word32)
    requires ValidLength(nLength) && offset + nLength <= data.Length
    ensures ulEcc == EccOf(data[offset..offset + nLength])
  {
    Highest(nLength);
    hide LinePairs, AppendColumns, Accumulate, MaskBelow, Masked, HighestBit, ValidLength, EccOf;
    var bCP, nLP1, nLP0 := AccumulateParities(data, offset, nLength);
    EccOfParities(data[offset..offset + nLength], bCP, nLP1, nLP0);
    ulEcc := AppendColumns(LinePairs(nLP1, nLP0), bCP);
    var nHighest := DclBitHighest(nLength);
    ulEcc := Masked(ulEcc, MaskBelow(nHighest));
  }

  // Line pairs x, y above the three column pairs of c.
  function Layout(x: Word32, y: Word32, c: Byte): Word32 {
    (((Spread(x) << 1) | Spread(y)) << 6) | ((c & 0x3F) as Word32)
  }

  lemma SpreadNibbles(x: Word32, y: Word32)
    ensures var e0 := AppendPairs(0, Spread((x >> 12) & 0xF), Spread((y >> 12) & 0xF));
            var e1 := AppendPairs(e0, Spread((x >> 8) & 0xF), Spread((y >> 8) & 0xF));
            var e2 := AppendPairs(e1, Spread((x >> 4) & 0xF), Spread((y >> 4) & 0xF));
            var e3 := AppendPairs(e2, Spread(x & 0xF), Spread(y & 0xF));
            e3 == (Spread(x) << 1) | Spread(y)
  {}

  lemma LinePairsIs(x: Word32, y: Word32)
    ensures LinePairs(x, y) == (Spread(x) << 1) | Spread(y)
  {
    hide MergeEntry, Spread, AppendPairs;
    MergeEntryIs(x >> 12); MergeEntryIs(y >> 12);
    MergeEntryIs(x >> 8); MergeEntryIs(y >> 8);
    MergeEntryIs(x >> 4); MergeEntryIs(y >> 4);
    MergeEntryIs(x); MergeEntryIs(y);
    SpreadNibbles(x, y);
  }

  lemma ColumnsBelow(x: Word32, y: Word32, c: Byte, e: Word32)
    requires e == (Spread(x) << 1) | Spread(y)
    ensures AppendColumns(e, c) == Layout(x, y, c)
  {}

  // The combination in one formula.
  lemma CombineIs(p: Parities)
    ensures Combine(p) == Layout(p.nLP1, p.nLP0, p.bCP)
  {
    hide AppendColumns, LinePairs, Layout, Spread;
    LinePairsIs(p.nLP1, p.nLP0);
    ColumnsBelow(p.nLP1, p.nLP0, p.bCP, LinePairs(p.nLP1, p.nLP0));
  }

  // ---------- DclEccCorrect ----------

  datatype EccResult = Valid | DataCorrected | EccCorrected | Uncorrectable

  // The result together with what becomes of the data and of the old ECC.
  datatype Correction = Correction(result: EccResult, data: seq<Byte>, ecc: Word32)

  // Every parity pair in use has one error and one match.
  predicate EveryPairDiffers(syndrome: Word32, mask: Word32) {
    var t := syndrome | (EVENBITS & !mask);
    (t ^ (t >> 1)) & EVENBITS == EVENBITS
  }

  // The bit address such a syndrome spells out.
  function BitAddress(syndrome: Word32, mask: Word32): Word32 {
    Gather(((syndrome | (EVENBITS & !mask)) ^ EVENBITS) & EVENBITS)
  }

  // Complements the given bit of the byte at an index.
  function Flip(data: seq<Byte>, at: nat, bit: Byte): (flipped: seq<Byte>)
    requires at < |data|
    ensures |flipped| == |data|
  {
    data[at := XorByte(data[at], bit)]
  }

  function BitOf(address: Word32): Byte {
    1 << (address & 7)
  }

  lemma AddressInMask(syndrome: Word32, mask: Word32, n: nat)
    requires PairMask(mask) && Gather(mask) == LowMask(8 * n)
    requires Within(syndrome, mask) && EveryPairDiffers(syndrome, mask)
    ensures Fits(BitAddress(syndrome, mask), 8 * n)
  {}

  lemma DoubledMask(n: nat)
    requires n > 0
    ensures LowMask(2 * n) == Push(LowMask(n), true)
  {
    assert (2 * n) / 2 == n;
  }

  lemma EightfoldMask(n: nat)
    requires n > 0
    ensures LowMask(8 * n) == Push(Push(Push(LowMask(n), true), true), true)
  {
    hide Push, LowMask;
    DoubledMask(4 * n);
    DoubledMask(2 * n);
    DoubledMask(n);
  }

  lemma Eighth(w: Word32, n: nat)
    requires n > 0 && Fits(w, 8 * n)
    ensures Fits(w >> 3, n)
  {
    EightfoldMask(n);
    hide LowMask;
  }

  // The byte part of a bit address below 8 * n is the word of a byte index.
  lemma ByteHolds(address: Word32, n: nat)
    requires ValidLength(n) && Fits(address, 8 * n)
    ensures Index(address >> 3) < n && WordOf(Index(address >> 3)) == address >> 3
  {
    hide Fits, WordOf, Index;
    Eighth(address, n);
    var i := WordHolds(address >> 3, n);
    IndexOfWord(i, n);
  }

  lemma AddressFits(oldEcc: Word32, newEcc: Word32, n: nat)
    requires ValidLength(n) && Within(oldEcc, ValidMask(n)) && Within(newEcc, ValidMask(n))
    requires EveryPairDiffers(Xor(newEcc, oldEcc), ValidMask(n))
    ensures Fits(BitAddress(Xor(newEcc, oldEcc), ValidMask(n)), 8 * n)
  {
    hide Within, EveryPairDiffers, BitAddress, Fits, ValidMask, PairMask, Gather, LowMask;
    XorWithin(newEcc, oldEcc, ValidMask(n));
    ValidMaskIs(n);
    AddressInMask(Xor(newEcc, oldEcc), ValidMask(n), n);
  }

  // Complements the data bit at a bit address.
  function FlipAddress(data: seq<Byte>, address: Word32): (flipped: seq<Byte>)
    requires ValidLength(|data|) && Fits(address, 8 * |data|)
    ensures |flipped| == |data|
  {
    ByteHolds(address, |data|);
    Flip(data, Index(address >> 3), BitOf(address))
  }

  function EccCorrect(data: seq<Byte>, oldEcc: Word32, newEcc: Word32): (c: Correction)
    requires ValidLength(|data|)
    requires Within(oldEcc, ValidMask(|data|)) && Within(newEcc, ValidMask(|data|))
    ensures |c.data| == |data|
  {
    var mask := ValidMask(|data|);
    var syndrome := Xor(newEcc, oldEcc);
    if newEcc == oldEcc then
      Correction(Valid, data, oldEcc)
    else if IsPowerOf2(syndrome) then
      Correction(EccCorrected, data, newEcc)
    else if EveryPairDiffers(syndrome, mask) then
      AddressFits(oldEcc, newEcc, |data|);
      Correction(DataCorrected, FlipAddress(data, BitAddress(syndrome, mask)), oldEcc)
    else
      Correction(Uncorrectable, data, oldEcc)
  }

  // ---------- the correction in place ----------

  // What is left of the even bits after nIndex of them have been shifted out.
  predicate Remainder(temp: Word32, nIndex: Word32) {
    && nIndex <= 16
    && temp & !EVENBITS == 0
    && (temp << nIndex << nIndex) >> nIndex >> nIndex == temp
    && (nIndex == 16 ==> temp == 0)
  }

  // The bits collected so far with those still to come.
  function Collected(ulEvenBits: Word32, temp: Word32, nIndex: Word32): Word32
    requires nIndex <= 16
  {
    PlaceAt(ulEvenBits, Gather(temp), nIndex)
  }

  lemma ExtractMore(temp: Word32, nIndex: Word32)
    requires Remainder(temp, nIndex) && temp != 0
    ensures nIndex < 16 && temp >> 2 < temp
  {}

  lemma ExtractRemainder(temp: Word32, nIndex: Word32)
    requires Remainder(temp, nIndex) && nIndex < 16
    ensures Remainder(temp >> 2, nIndex + 1)
  {}

  lemma GatherStep(temp: Word32)
    ensures Gather(temp) == Cons(temp & 1, Gather(temp >> 2))
  {}

  lemma ExtractCollected(ulEvenBits: Word32, temp: Word32, nIndex: Word32)
    requires nIndex < 16
    ensures Collected(PlaceAt(ulEvenBits, temp & 1, nIndex), temp >> 2, nIndex + 1)
        == Collected(ulEvenBits, temp, nIndex)
  {
    hide Gather, PlaceAt, Cons;
    GatherStep(temp);
    PlaceDigit(ulEvenBits, temp & 1, Gather(temp >> 2), nIndex);
  }

  lemma ExtractStart(syndrome: Word32)
    ensures var t := (syndrome ^ EVENBITS) & EVENBITS; Remainder(t, 0) && Collected(0, t, 0) == Gather(t)
  {}

  lemma ExtractEnd(ulEvenBits: Word32, nIndex: Word32)
    requires nIndex <= 16
    ensures Collected(ulEvenBits, 0, nIndex) == ulEvenBits
  {}

  // The bit address a correctable syndrome spells out in its even bits.
  method ExtractEvenBits(syndrome: Word32, mask: Word32) returns (ulEvenBits: Word32)
    ensures ulEvenBits == BitAddress(syndrome, mask)
  {
    hide Remainder, Collected, Gather, PlaceAt;
    var filled := syndrome | (EVENBITS & !mask);
    var ulECCTemp := (filled ^ EVENBITS) & EVENBITS;
    ulEvenBits := 0;
    var nIndex: Word32 := 0;
    ExtractStart(filled);
    while ulECCTemp != 0
      invariant nIndex <= 16 && Remainder(ulECCTemp, nIndex)
      invariant Collected(ulEvenBits, ulECCTemp, nIndex) == BitAddress(syndrome, mask)
      decreases ulECCTemp
    {
      ExtractMore(ulECCTemp, nIndex);
      ExtractRemainder(ulECCTemp, nIndex);
      ExtractCollected(ulEvenBits, ulECCTemp, nIndex);
      ulEvenBits := PlaceAt(ulEvenBits, ulECCTemp & 1, nIndex);
      ulECCTemp := ulECCTemp >> 2;
      nIndex := nIndex + 1;
    }
    ExtractEnd(ulEvenBits, nIndex);
  }

  // The four outcomes, by the tests the code makes.
  lemma CorrectionCases(data: seq<Byte>, oldEcc: Word32, newEcc: Word32, syndrome: Word32)
    requires ValidLength(|data|)
    requires Within(oldEcc, ValidMask(|data|)) && Within(newEcc, ValidMask(|data|))
    requires syndrome == Xor(newEcc, oldEcc) && newEcc != oldEcc
    ensures IsPowerOf2(syndrome) ==> EccCorrect(data, oldEcc, newEcc) == Correction(EccCorrected, data, newEcc)
    ensures !IsPowerOf2(syndrome) && !EveryPairDiffers(syndrome, ValidMask(|data|)) ==>
              EccCorrect(data, oldEcc, newEcc) == Correction(Uncorrectable, data, oldEcc)
    ensures !IsPowerOf2(syndrome) && EveryPairDiffers(syndrome, ValidMask(|data|)) ==>
              && Fits(BitAddress(syndrome, ValidMask(|data|)), 8 * |data|)
              && EccCorrect(data, oldEcc, newEcc)
                 == Correction(DataCorrected, FlipAddress(data, BitAddress(syndrome, ValidMask(|data|))), oldEcc)
  {
    hide Within, ValidMask, EveryPairDiffers, Fits, IsPowerOf2, BitAddress, FlipAddress;
    if EveryPairDiffers(syndrome, ValidMask(|data|)) {
      AddressFits(oldEcc, newEcc, |data|);
    }
  }

  // Writing one byte of a block writes that byte of the buffer around it.
  lemma SpliceByte(was: seq<Byte>, offset: nat, n: nat, i: nat, v: Byte)
    requires i < n && offset + n <= |was|
    ensures was[offset + i := v] == was[..offset] + was[offset..offset + n][i := v] + was[offset + n..]
  {}

  // The buffer with the block at an offset replaced.
  function Splice(was: seq<Byte>, offset: nat, block: seq<Byte>): (now: seq<Byte>)
    requires offset + |block| <= |was|
    ensures |now| == |was|
  {
    was[..offset] + block + was[offset + |block|..]
  }

  lemma SpliceSame(was: seq<Byte>, offset: nat, n: nat)
    requires offset + n <= |was|
    ensures Splice(was, offset, was[offset..offset + n]) == was
  {}

  // Complements the data bit at a bit address, in place.
  method ComplementBit(data: array<Byte>, offset: nat, nLength: nat, ulEvenBits: Word32)
    requires ValidLength(nLength) && offset + nLength <= data.Length && Fits(ulEvenBits, 8 * nLength)
    modifies data
    ensures data[..] == Splice(old(data[..]), offset, FlipAddress(old(data[offset..offset + nLength]), ulEvenBits))
  {
    hide Fits, Index, WordOf, BitOf;
    ByteHolds(ulEvenBits, nLength);
    ghost var was, block := data[..], data[offset..offset + nLength];
    var nDataByteNumber := Index(ulEvenBits >> 3);
    var corrected := XorByte(data[offset + nDataByteNumber], BitOf(ulEvenBits));
    assert FlipAddress(block, ulEvenBits) == block[nDataByteNumber := corrected];
    data[offset + nDataByteNumber] := corrected;
    SpliceByte(was, offset, nLength, nDataByteNumber, corrected);
  }

  method DclEccCorrect(data: array<Byte>, offset: nat, nLength: nat, oldEcc: Word32, newEcc: Word32)
    returns (iResult: EccResult, ulOldECC: Word32)
    requires ValidLength(nLength) && offset + nLength <= data.Length
    requires Within(oldEcc, ValidMask(nLength)) && Within(newEcc, ValidMask(nLength))
    modifies data
    ensures var c := EccCorrect(old(data[offset..offset + nLength]), oldEcc, newEcc);
            && iResult == c.result && ulOldECC == c.ecc && |c.data| == nLength
            && data[..] == Splice(old(data[..]), offset, c.data)
  {
    hide Within, MaskBelow, HighestBit, EveryPairDiffers, BitAddress, Fits, IsPowerOf2, FlipAddress, Splice;
    ghost var block := data[offset..offset + nLength];
    SpliceSame(data[..], offset, nLength);
    Highest(nLength);
    var nHighest := DclBitHighest(nLength);
    var ulValidMask := MaskBelow(nHighest);
    ulOldECC := oldEcc;
    if newEcc == oldEcc {
      iResult := Valid;
    } else {
      var ulECCTemp := Xor(newEcc, oldEcc);
      CorrectionCases(block, oldEcc, newEcc, ulECCTemp);
      hide EccCorrect;
      if IsPowerOf2(ulECCTemp) {
        ulOldECC := newEcc;
        iResult := EccCorrected;
      } else {
        if EveryPairDiffers(ulECCTemp, ulValidMask) {
          var ulEvenBits := ExtractEvenBits(ulECCTemp, ulValidMask);
          ComplementBit(data, offset, nLength, ulEvenBits);
          iResult := DataCorrected;
        } else {
          iResult := Uncorrectable;
        }
      }
    }
  }
}
