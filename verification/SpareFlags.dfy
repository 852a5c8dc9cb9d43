// The flag byte and the erased-range test that decide how a page read back is treated.
module SpareFlags {
  import opened Words
  import opened Bits
  import opened EccMeaning
  import opened EccTheory

  const LEGACY_WRITTEN_WITH_ECC: Byte := 0x0F
  const LEGACY_UNWRITTEN: Byte := 0xFF
  const ERASED8: Byte := 0xFF

  predicate IsWithin1Bit(a: Byte, b: Byte) {
    IsPowerOf2((a ^ b) as Word32)
  }

  predicate IsWrittenWithEcc(stat: Byte) {
    IsWithin1Bit(stat, LEGACY_WRITTEN_WITH_ECC)
  }

  predicate IsUnwritten(stat: Byte) {
    IsWithin1Bit(stat, LEGACY_UNWRITTEN)
  }

  // At most one bit of a byte is set.
  predicate AtMostOneBit(m: Byte) {
    m == 0 || OneBitOfByte(m)
  }

  // The test accepts exactly the bytes that differ in at most one bit, so either flag value
  // survives one flipped bit and is never taken for the other.
  lemma Within1BitMeans(a: Byte, b: Byte)
    ensures IsWithin1Bit(a, b) <==> AtMostOneBit(XorByte(a, b))
  {}

  lemma UnwrittenMeans(stat: Byte)
    ensures IsUnwritten(stat) <==> AtMostOneBit(XorByte(stat, LEGACY_UNWRITTEN))
  {
    Within1BitMeans(stat, LEGACY_UNWRITTEN);
    hide IsWithin1Bit, AtMostOneBit, XorByte;
  }

  // A byte in which no bit but j is set.
  predicate NoOtherBit(m: Byte, j: nat)
    requires j < 8
  {
    forall j': nat :: j' < 8 && j' != j ==> !HasBit(m, j')
  }

  lemma OnlyBit(m: Byte, j: nat)
    requires j < 8 && HasBit(m, j) && NoOtherBit(m, j)
    ensures m == BitAt(j)
  {
    assert j != 0 ==> !HasBit(m, 0);
    assert j != 1 ==> !HasBit(m, 1);
    assert j != 2 ==> !HasBit(m, 2);
    assert j != 3 ==> !HasBit(m, 3);
    assert j != 4 ==> !HasBit(m, 4);
    assert j != 5 ==> !HasBit(m, 5);
    assert j != 6 ==> !HasBit(m, 6);
    assert j != 7 ==> !HasBit(m, 7);
    match j case 0 => case 1 => case 2 => case 3 => case 4 => case 5 => case 6 => case _ =>
  }

  lemma OneBitAt(j: nat)
    requires j < 8
    ensures OneBitOfByte(BitAt(j)) && HasBit(BitAt(j), j) && NoOtherBit(BitAt(j), j)
  {
    match j case 0 => case 1 => case 2 => case 3 => case 4 => case 5 => case 6 => case _ =>
  }

  lemma SomeBit(m: Byte) returns (j: nat)
    requires m != 0
    ensures j < 8 && HasBit(m, j)
  {
    j := if m & 0x01 != 0 then 0 else if m & 0x02 != 0 then 1 else if m & 0x04 != 0 then 2 else if m & 0x08 != 0 then 3
         else if m & 0x10 != 0 then 4 else if m & 0x20 != 0 then 5 else if m & 0x40 != 0 then 6 else 7;
  }

  lemma BitAtOf(m: Byte) returns (j: nat)
    requires OneBitOfByte(m)
    ensures j < 8 && m == BitAt(j)
  {
    BitCases(m);
    j := if m == 0x01 then 0 else if m == 0x02 then 1 else if m == 0x04 then 2 else if m == 0x08 then 3
         else if m == 0x10 then 4 else if m == 0x20 then 5 else if m == 0x40 then 6 else 7;
  }

  lemma NoBit(j: nat)
    requires j < 8
    ensures !HasBit(0, j)
  {}

  // At most one bit set: no two different ones.
  lemma AtMostOneBitMeans(m: Byte)
    ensures AtMostOneBit(m)
       <==> forall j: nat, j': nat :: j < 8 && j' < 8 && HasBit(m, j) && HasBit(m, j') ==> j == j'
  {
    hide HasBit, BitAt, OneBitOfByte;
    forall j: nat | j < 8 ensures !HasBit(0, j) { NoBit(j); }
    if OneBitOfByte(m) {
      var j := BitAtOf(m);
      OneBitAt(j);
    }
    if m != 0 && forall j: nat, j': nat :: j < 8 && j' < 8 && HasBit(m, j) && HasBit(m, j') ==> j == j' {
      var j := SomeBit(m);
      OnlyBit(m, j);
      OneBitAt(j);
    }
  }

  lemma XorMaskedByte(a: Byte, b: Byte, m: Byte)
    requires OneBitOfByte(m)
    ensures XorByte(a, b) & m != 0 <==> (a & m != 0) != (b & m != 0)
  {}

  lemma XorBit(a: Byte, b: Byte, j: nat)
    requires j < 8
    ensures HasBit(XorByte(a, b), j) <==> HasBit(a, j) != HasBit(b, j)
  {
    OneBitAt(j);
    XorMaskedByte(a, b, BitAt(j));
    hide BitAt, XorByte, OneBitOfByte;
  }

  lemma FlagBits(j: nat)
    requires j < 8
    ensures HasBit(LEGACY_WRITTEN_WITH_ECC, j) <==> j < 4
    ensures HasBit(LEGACY_UNWRITTEN, j)
  {
    match j case 0 => case 1 => case 2 => case 3 => case 4 => case 5 => case 6 => case _ =>
  }

  // Bit j of a flag byte is not as in the written flag, low four bits set and high four clear.
  predicate NotAsWritten(stat: Byte, j: nat)
    requires j < 8
  {
    HasBit(stat, j) != (j < 4)
  }

  // The two flag tests, bit by bit: no two different bits are wrong.
  lemma WrittenFlag(stat: Byte)
    ensures IsWrittenWithEcc(stat)
       <==> forall j: nat, j': nat :: j < 8 && j' < 8 && NotAsWritten(stat, j) && NotAsWritten(stat, j') ==> j == j'
  {
    Within1BitMeans(stat, LEGACY_WRITTEN_WITH_ECC);
    AtMostOneBitMeans(XorByte(stat, LEGACY_WRITTEN_WITH_ECC));
    hide HasBit, IsWithin1Bit, AtMostOneBit, XorByte;
    forall j: nat | j < 8 ensures HasBit(XorByte(stat, LEGACY_WRITTEN_WITH_ECC), j) <==> NotAsWritten(stat, j) {
      XorBit(stat, LEGACY_WRITTEN_WITH_ECC, j);
      FlagBits(j);
    }
  }

  lemma UnwrittenFlag(stat: Byte)
    ensures IsUnwritten(stat)
       <==> forall j: nat, j': nat :: j < 8 && j' < 8 && !HasBit(stat, j) && !HasBit(stat, j') ==> j == j'
  {
    Within1BitMeans(stat, LEGACY_UNWRITTEN);
    AtMostOneBitMeans(XorByte(stat, LEGACY_UNWRITTEN));
    hide HasBit, IsWithin1Bit, AtMostOneBit, XorByte;
    forall j: nat | j < 8 ensures HasBit(XorByte(stat, LEGACY_UNWRITTEN), j) <==> !HasBit(stat, j) {
      XorBit(stat, LEGACY_UNWRITTEN, j);
      FlagBits(j);
    }
  }

  lemma FlagsApart(stat: Byte)
    ensures !(IsWrittenWithEcc(stat) && IsUnwritten(stat))
  {}

  lemma FlagSurvives(m: Byte)
    requires AtMostOneBit(m)
    ensures IsWrittenWithEcc(XorByte(LEGACY_WRITTEN_WITH_ECC, m))
    ensures IsUnwritten(XorByte(LEGACY_UNWRITTEN, m))
  {}

  // ---------- DclBitCount ----------

  function BitCount(w: Word32): nat {
    if w == 0 then 0 else Shrinks(w); BitCount(Half(w)) + (if LowBit(w) then 1 else 0)
  }

  lemma Shrinks(w: Word32)
    requires w != 0
    ensures Half(w) < w
  {}

  method DclBitCount(ulValue: Word32) returns (nn: nat)
    ensures nn == BitCount(ulValue) == |SetBits(ulValue, 32)|
  {
    BitCountMeans(ulValue);
    hide Half, LowBit;
    nn := 0;
    var vv := ulValue;
    while vv != 0
      invariant nn + BitCount(vv) == BitCount(ulValue)
      decreases vv
    {
      Shrinks(vv);
      if LowBit(vv) {
        nn := nn + 1;
      }
      vv := Half(vv);
    }
  }

  lemma SameParts(w: Word32, v: Word32)
    ensures w == v <==> Half(w) == Half(v) && (LowBit(w) <==> LowBit(v))
  {}

  lemma CountParts(w: Word32)
    ensures BitCount(w) == BitCount(Half(w)) + (if LowBit(w) then 1 else 0)
  {}

  // A word of a few digits has at most that many bits set, all of them only in the mask.
  lemma {:induction false} CountFits(w: Word32, n: nat)
    requires PowerOfTwo(n) && n <= 65536 && Fits(w, n)
    ensures BitCount(w) <= Digits(n)
    ensures BitCount(w) == Digits(n) <==> w == LowMask(n)
    decreases n
  {
    hide Fits, Half, LowBit, Push, Within;
    FitsZero(w, n);
    CountParts(w);
    if n > 1 {
      SmallMask(n / 2);
      PushHalf(LowMask(n / 2), true);
      PushLow(LowMask(n / 2), true);
      HalfWithin(w, n);
      CountFits(Half(w), n / 2);
      SameParts(w, LowMask(n));
    }
  }

  lemma ByteDigits()
    ensures PowerOfTwo(256) && Digits(256) == 8 && LowMask(256) == 0xFF
  {
    LowMasks();
    assert PowerOfTwo(16) && Digits(16) == 4;
  }

  lemma ByteWithin(b: Byte)
    requires LowMask(256) == 0xFF
    ensures Fits(b as Word32, 256)
    ensures b as Word32 == 0xFF <==> b == ERASED8
  {
    hide LowMask;
  }

  // The cleared bits of a byte.
  function OffBits(b: Byte): (n: nat)
    ensures n <= 8 && (n == 0 <==> b == ERASED8)
  {
    ByteDigits();
    ByteWithin(b);
    CountFits(b as Word32, 256);
    8 - BitCount(b as Word32)
  }

  // The cleared bits of a range of bytes.
  function TotalOffBits(data: seq<Byte>): nat {
    if |data| == 0 then 0 else OffBits(data[0]) + TotalOffBits(data[1..])
  }

  // The range is erased but for at most one bit.
  predicate RangeErased1Bit(data: seq<Byte>) {
    TotalOffBits(data) <= 1
  }

  // ---------- what is counted ----------

  // Bits set among the lowest n.
  function CountTo(w: Word32, n: nat): nat {
    if n == 0 then 0 else CountTo(w, n - 1) + (if IsSet(w, n - 1) then 1 else 0)
  }

  lemma {:induction false} CountToHalf(w: Word32, n: nat)
    ensures CountTo(w, n + 1) == CountTo(Half(w), n) + (if LowBit(w) then 1 else 0)
  {
    hide Half, LowBit;
    if n > 0 { CountToHalf(w, n - 1); }
  }

  // The set bits among the lowest n.
  function SetBits(w: Word32, n: nat): set<nat> {
    set k: nat | k < n && IsSet(w, k)
  }

  lemma {:induction false} CountToSet(w: Word32, n: nat)
    ensures CountTo(w, n) == |SetBits(w, n)|
  {
    hide IsSet;
    if n == 0 {
      assert SetBits(w, n) == {};
    } else {
      CountToSet(w, n - 1);
      assert SetBits(w, n) == SetBits(w, n - 1) + (if IsSet(w, n - 1) then {n - 1} else {});
    }
  }

  // The word with the lowest n bits set.
  function LowestBits(n: nat): Word32 {
    if n == 0 then 0 else Push(LowestBits(n - 1), true)
  }

  lemma WithinHalf(w: Word32, m: Word32)
    requires Within(w, Push(m, true))
    ensures Within(Half(w), m)
  {}

  lemma WithinNothing(w: Word32)
    requires Within(w, 0)
    ensures w == 0
  {}

  lemma {:induction false} BitCountTo(w: Word32, n: nat)
    requires Within(w, LowestBits(n))
    ensures BitCount(w) == CountTo(w, n)
    decreases n
  {
    hide Within, Push, Half, LowBit;
    if n == 0 {
      WithinNothing(w);
    } else {
      WithinHalf(w, LowestBits(n - 1));
      BitCountTo(Half(w), n - 1);
      CountParts(w);
      CountToHalf(w, n - 1);
    }
  }

  lemma LowestBitsAre()
    ensures LowestBits(8) == 0xFF && LowestBits(32) == 0xFFFF_FFFF
  {
    assert LowestBits(2) == 0x3;
    assert LowestBits(4) == 0xF;
    assert LowestBits(6) == 0x3F;
    assert LowestBits(8) == 0xFF;
    assert LowestBits(10) == 0x3FF;
    assert LowestBits(12) == 0xFFF;
    assert LowestBits(14) == 0x3FFF;
    assert LowestBits(16) == 0xFFFF;
    assert LowestBits(18) == 0x3_FFFF;
    assert LowestBits(20) == 0xF_FFFF;
    assert LowestBits(22) == 0x3F_FFFF;
    assert LowestBits(24) == 0xFF_FFFF;
    assert LowestBits(26) == 0x3FF_FFFF;
    assert LowestBits(28) == 0xFFF_FFFF;
    assert LowestBits(30) == 0x3FFF_FFFF;
  }

  lemma AllWithin(w: Word32)
    ensures Within(w, 0xFFFF_FFFF)
  {}

  // DclBitCount counts the set bits.
  lemma BitCountMeans(ulValue: Word32)
    ensures BitCount(ulValue) == |SetBits(ulValue, 32)|
  {
    hide BitCount, IsSet, Within, LowestBits, CountTo;
    LowestBitsAre();
    AllWithin(ulValue);
    BitCountTo(ulValue, 32);
    CountToSet(ulValue, 32);
  }

  // The cleared bits of a byte.
  function ClearBits(b: Byte): set<nat> {
    set j: nat | j < 8 && !HasBit(b, j)
  }

  lemma ByteWithinLowest(b: Byte)
    ensures Within(b as Word32, 0xFF)
  {}

  lemma OffBitsCount(b: Byte)
    ensures OffBits(b) == |ClearBits(b)|
  {
    hide BitCount, IsSet, Within, LowestBits, CountTo, HasBit;
    LowestBitsAre();
    ByteWithinLowest(b);
    var w := b as Word32;
    BitCountTo(w, 8);
    CountToSet(w, 8);
    var on := SetBits(w, 8);
    forall j: nat | j < 8 ensures IsSet(w, j) <==> HasBit(b, j) { ByteBit(b, j); }
    var all := {0, 1, 2, 3, 4, 5, 6, 7};
    assert ClearBits(b) == all - on && on <= all && |all| == 8;
    assert |all - on| == |all| - |on|;
  }

  // Bit j of byte i of a range is cleared.
  predicate IsClear(data: seq<Byte>, i: nat, j: nat) {
    i < |data| && j < 8 && !HasBit(data[i], j)
  }

  // No two different bits of a range are cleared.
  ghost predicate AtMostOneClear(data: seq<Byte>) {
    forall i: nat, j: nat, i': nat, j': nat :: IsClear(data, i, j) && IsClear(data, i', j') ==> i == i' && j == j'
  }

  lemma AtMostOne(s: set<nat>)
    ensures |s| <= 1 <==> forall j, j' :: j in s && j' in s ==> j == j'
  {
    if s != {} {
      var j :| j in s;
      assert |s - {j}| == |s| - 1;
      if |s| > 1 {
        assert s - {j} != {};
        var j' :| j' in s - {j};
      }
      if |s| == 1 { assert s - {j} == {}; }
    }
  }

  lemma OffBitsSome(b: Byte)
    ensures OffBits(b) > 0 <==> exists j: nat :: j < 8 && !HasBit(b, j)
    ensures OffBits(b) <= 1
       <==> forall j: nat, j': nat :: j < 8 && j' < 8 && !HasBit(b, j) && !HasBit(b, j') ==> j == j'
  {
    hide HasBit, OffBits;
    OffBitsCount(b);
    AtMostOne(ClearBits(b));
    if ClearBits(b) != {} { var j :| j in ClearBits(b); }
    assert forall j: nat :: j in ClearBits(b) <==> j < 8 && !HasBit(b, j);
  }

  lemma {:induction false} NoneClear(data: seq<Byte>)
    ensures TotalOffBits(data) == 0 <==> forall i: nat, j: nat :: !IsClear(data, i, j)
  {
    hide HasBit, OffBits;
    if |data| > 0 {
      NoneClear(data[1..]);
      OffBitsSome(data[0]);
      assert forall i: nat, j: nat :: IsClear(data[1..], i, j) <==> IsClear(data, i + 1, j);
      if exists j: nat :: j < 8 && !HasBit(data[0], j) {
        var j: nat :| j < 8 && !HasBit(data[0], j);
        assert IsClear(data, 0, j);
      }
      if exists i: nat, j: nat :: IsClear(data, i, j) {
        var i: nat, j: nat :| IsClear(data, i, j);
        if i > 0 { assert IsClear(data[1..], i - 1, j); }
      }
      if exists i: nat, j: nat :: IsClear(data[1..], i, j) {
        var i: nat, j: nat :| IsClear(data[1..], i, j);
        assert IsClear(data, i + 1, j);
      }
    }
  }

  // The range test, without counting: no two different bits of the range are cleared.
  lemma {:induction false} RangeErasedMeans(data: seq<Byte>)
    ensures RangeErased1Bit(data) <==> AtMostOneClear(data)
  {
    hide HasBit, OffBits;
    if |data| > 0 {
      RangeErasedMeans(data[1..]);
      NoneClear(data[1..]);
      OffBitsSome(data[0]);
      RangeSplit(data);
      assert forall j: nat :: IsClear(data, 0, j) <==> j < 8 && !HasBit(data[0], j);
    }
  }

  lemma ClearLater(data: seq<Byte>, i: nat, j: nat)
    requires |data| > 0
    ensures IsClear(data, i + 1, j) <==> IsClear(data[1..], i, j)
  {}

  lemma RangeSplit(data: seq<Byte>)
    requires |data| > 0
    ensures AtMostOneClear(data) <==>
            || (AtMostOneClear(data[1..]) && forall j: nat :: !IsClear(data, 0, j))
            || ((forall i: nat, j: nat :: !IsClear(data[1..], i, j))
                && forall j: nat, j': nat :: IsClear(data, 0, j) && IsClear(data, 0, j') ==> j == j')
  {
    var rest := data[1..];
    forall i: nat, j: nat ensures IsClear(rest, i, j) <==> IsClear(data, i + 1, j) { ClearLater(data, i, j); }
    hide IsClear;
    if AtMostOneClear(data) {
      forall i: nat, j: nat, i': nat, j': nat | IsClear(rest, i, j) && IsClear(rest, i', j')
        ensures i == i' && j == j'
      {
        assert IsClear(data, i + 1, j) && IsClear(data, i' + 1, j');
      }
      forall i: nat, j: nat, j': nat | IsClear(data, 0, j') ensures !IsClear(rest, i, j) {
        assert IsClear(data, i + 1, j) ==> i + 1 == 0;
      }
    }
    if (forall i: nat, j: nat :: !IsClear(rest, i, j)) || forall j: nat :: !IsClear(data, 0, j) {
      forall i: nat, j: nat | IsClear(data, i, j) ensures i == 0 || IsClear(rest, i - 1, j) {
        if i > 0 { ClearLater(data, i - 1, j); }
      }
    }
  }

  method FfxNtmHelpIsRangeErased1Bit(pData: array<Byte>, offset: nat, nLen: nat) returns (erased: bool)
    requires offset + nLen <= pData.Length
    ensures erased == RangeErased1Bit(pData[offset..offset + nLen])
    ensures erased <==> AtMostOneClear(pData[offset..offset + nLen])
  {
    hide BitCount, AtMostOneClear;
    RangeErasedMeans(pData[offset..offset + nLen]);
    var nOffBits: nat := 0;
    for i := 0 to nLen
      invariant nOffBits <= 1
      invariant TotalOffBits(pData[offset..offset + nLen]) == nOffBits + TotalOffBits(pData[offset + i..offset + nLen])
    {
      assert pData[offset + i..offset + nLen][1..] == pData[offset + i + 1..offset + nLen];
      assert pData[offset + i..offset + nLen][0] == pData[offset + i];
      assert TotalOffBits(pData[offset + i..offset + nLen])
          == OffBits(pData[offset + i]) + TotalOffBits(pData[offset + i + 1..offset + nLen]);
      if pData[offset + i] != ERASED8 {
        if nOffBits != 0 {
          return false;
        }
        var nBits := DclBitCount(pData[offset + i] as Word32);
        nOffBits := 8 - nBits;
        if nOffBits > 1 {
          return false;
        }
      }
    }
    return true;
  }

  // No bit of a range is cleared exactly when every byte of it is erased.
  lemma {:induction false} ErasedTotal(data: seq<Byte>)
    ensures TotalOffBits(data) == 0 <==> forall i | 0 <= i < |data| :: data[i] == ERASED8
  {
    if |data| > 0 {
      ErasedTotal(data[1..]);
      assert forall i | 0 <= i < |data[1..]| :: data[i + 1] == data[1..][i];
      if forall i | 0 <= i < |data| :: data[i] == ERASED8 {
        assert data[0] == ERASED8;
      }
      if TotalOffBits(data) == 0 {
        forall i | 0 <= i < |data| ensures data[i] == ERASED8 {
          if i > 0 { assert data[i] == data[1..][i - 1]; }
        }
      }
    }
  }
}
