// Words and bytes by their bits: bit k of a word is `IsSet(w, k)`, bit j of a byte `HasBit(b, j)`.
module Bits {
  import opened Words
  import opened EccMeaning

  // Bit j of a byte.
  predicate HasBit(b: Byte, j: nat)
    requires j < 8
  {
    b & BitAt(j) != 0
  }

  // The word with only bit n set.
  function BitMask(n: nat): Word32
    requires n < 32
  {
    match n
    case 0 => 0x1
    case 1 => 0x2
    case 2 => 0x4
    case 3 => 0x8
    case 4 => 0x10
    case 5 => 0x20
    case 6 => 0x40
    case 7 => 0x80
    case 8 => 0x100
    case 9 => 0x200
    case 10 => 0x400
    case 11 => 0x800
    case 12 => 0x1000
    case 13 => 0x2000
    case 14 => 0x4000
    case 15 => 0x8000
    case 16 => 0x10000
    case 17 => 0x20000
    case 18 => 0x40000
    case 19 => 0x80000
    case 20 => 0x100000
    case 21 => 0x200000
    case 22 => 0x400000
    case 23 => 0x800000
    case 24 => 0x1000000
    case 25 => 0x2000000
    case 26 => 0x4000000
    case 27 => 0x8000000
    case 28 => 0x10000000
    case 29 => 0x20000000
    case 30 => 0x40000000
    case _ => 0x8000_0000
  }

  lemma NextMaskLow(n: nat)
    requires 0 < n <= 16
    ensures BitMask(n) == BitMask(n - 1) << 1 && Within(BitMask(n - 1), 0x7FFF_FFFF)
  {
    match n
    case 1 => case 2 => case 3 => case 4 => case 5 => case 6 => case 7 => case 8 => case 9 => case 10 =>
    case 11 => case 12 => case 13 => case 14 => case 15 => case _ =>
  }

  lemma NextMaskHigh(n: nat)
    requires 16 < n < 32
    ensures BitMask(n) == BitMask(n - 1) << 1 && Within(BitMask(n - 1), 0x7FFF_FFFF)
  {
    match n
    case 17 => case 18 => case 19 => case 20 => case 21 => case 22 => case 23 => case 24 => case 25 =>
    case 26 => case 27 => case 28 => case 29 => case 30 => case _ =>
  }

  lemma NextMask(n: nat)
    requires 0 < n < 32
    ensures BitMask(n) == BitMask(n - 1) << 1 && Within(BitMask(n - 1), 0x7FFF_FFFF)
  {
    if n <= 16 { NextMaskLow(n); } else { NextMaskHigh(n); }
    hide BitMask, Within;
  }

  lemma HalfMasked(w: Word32, m: Word32)
    requires Within(m, 0x7FFF_FFFF)
    ensures Half(w) & m != 0 <==> w & (m << 1) != 0
  {}

  // A bit test by mask ...
  predicate Tests(w: Word32, n: nat)
    requires n < 32
  {
    w & BitMask(n) != 0
  }

  lemma HalfTests(w: Word32, n: nat)
    requires 0 < n < 32
    ensures Tests(Half(w), n - 1) <==> Tests(w, n)
  {
    NextMask(n);
    HalfMasked(w, BitMask(n - 1));
    hide Half, BitMask, Within;
  }

  lemma LowestTests(w: Word32)
    ensures Tests(w, 0) <==> LowBit(w)
  {}

  // ... is a test of that bit.
  lemma {:induction false} BitSet(w: Word32, n: nat)
    requires n < 32
    ensures IsSet(w, n) <==> Tests(w, n)
    decreases n
  {
    hide Half, LowBit, Tests;
    LowestTests(w);
    if n > 0 {
      BitSet(Half(w), n - 1);
      HalfTests(w, n);
    }
  }

  lemma {:induction false} TwoUp(w: Word32, k: nat)
    ensures IsSet(w, 2 + k) <==> IsSet(w >> 2, k)
  {
    assert IsSet(w, 2 + k) == IsSet(Half(w), 1 + k) == IsSet(Half(Half(w)), k);
    TwoHalves(w);
    hide Half, LowBit;
  }

  lemma FourShifts(w: Word32)
    ensures (w >> 2) >> 2 == w >> 4 && (w >> 4) >> 4 == w >> 8 && (w >> 8) >> 8 == w >> 16
  {}

  lemma SixteenUp(w: Word32, k: nat)
    ensures IsSet(w, 16 + k) <==> IsSet(w >> 16, k)
  {
    hide IsSet;
    EightUp(w, 8 + k);
    EightUp(w >> 8, k);
    FourShifts(w);
  }

  lemma EightUp(w: Word32, k: nat)
    ensures IsSet(w, 8 + k) <==> IsSet(w >> 8, k)
  {
    hide IsSet;
    FourUp(w, 4 + k);
    FourUp(w >> 4, k);
    FourShifts(w);
  }

  lemma FourUp(w: Word32, k: nat)
    ensures IsSet(w, 4 + k) <==> IsSet(w >> 4, k)
  {
    hide IsSet;
    TwoUp(w, 2 + k);
    TwoUp(w >> 2, k);
    FourShifts(w);
  }

  // A word has no bits from 32 on.
  lemma BeyondWord(w: Word32, n: nat)
    requires n >= 32
    ensures !IsSet(w, n)
  {
    hide IsSet;
    SixteenUp(w, n - 16);
    SixteenUp(w >> 16, n - 32);
    assert (w >> 16) >> 16 == 0;
    ZeroSet(n - 32);
  }

  // A byte seen as a word keeps its bits.
  lemma ByteBit(b: Byte, j: nat)
    requires j < 8
    ensures IsSet(b as Word32, j) <==> HasBit(b, j)
  {
    BitSet(b as Word32, j);
    hide IsSet;
    match j case 0 => case 1 => case 2 => case 3 => case 4 => case 5 => case 6 => case _ =>
  }

  lemma ByteAbove(b: Byte, j: nat)
    requires j >= 8
    ensures !IsSet(b as Word32, j)
  {
    hide IsSet;
    EightUp(b as Word32, j - 8);
    assert b as Word32 >> 8 == 0;
    ZeroSet(j - 8);
  }

  lemma HalfParts(v: Word32)
    ensures Push(Half(v), LowBit(v)) == v
  {}

  // Words of the same few digits are equal.
  lemma {:induction false} SameDigits(v: Word32, w: Word32, n: nat)
    requires PowerOfTwo(n) && Fits(v, n) && Fits(w, n)
    requires forall k: nat :: k < Digits(n) ==> (IsSet(v, k) <==> IsSet(w, k))
    ensures v == w
    decreases n
  {
    hide Fits, Push, Half, LowBit;
    FitsZero(v, n);
    FitsZero(w, n);
    if n > 1 {
      HalfWithin(v, n);
      HalfWithin(w, n);
      assert IsSet(v, 0) <==> IsSet(w, 0);
      forall k: nat | k < Digits(n / 2) ensures IsSet(Half(v), k) <==> IsSet(Half(w), k) {
        assert IsSet(v, k + 1) <==> IsSet(w, k + 1);
      }
      SameDigits(Half(v), Half(w), n / 2);
      HalfParts(v);
      HalfParts(w);
    }
  }

  // The lowest three digits of a number, whatever its size.
  lemma PushBits(x: Word32, one: bool)
    ensures Push(x, one) & 1 != 0 <==> one
    ensures Push(x, one) & 2 != 0 <==> x & 1 != 0
    ensures Push(x, one) & 4 != 0 <==> x & 2 != 0
  {}

  lemma LowestDigit(a: nat)
    ensures WordOf(a) & 1 != 0 <==> Digit(a, 0)
  {
    if a > 0 {
      PushBits(WordOf(a / 2), a % 2 == 1);
      hide Push;
    }
  }

  lemma DigitOne(a: nat)
    ensures WordOf(a) & 2 != 0 <==> Digit(a, 1)
  {
    if a > 0 {
      PushBits(WordOf(a / 2), a % 2 == 1);
      LowestDigit(a / 2);
      hide Push;
    }
  }

  lemma DigitTwo(a: nat)
    ensures WordOf(a) & 4 != 0 <==> Digit(a, 2)
  {
    if a > 0 {
      PushBits(WordOf(a / 2), a % 2 == 1);
      DigitOne(a / 2);
      hide Push;
    }
  }
}
