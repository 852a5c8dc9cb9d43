// What the bits of a canonical ECC say about the data, by counting: for every digit of a
// bit address there are two subsets of the data bits, those with a one there and those with
// a zero there, and each subset has one parity bit, set when the subset is even.
module EccMeaning {
  import opened Words
  import opened DclEcc
  import opened Syndromes
  import opened EccTheory

  // Bit k of a word.
  predicate IsSet(w: Word32, k: nat) {
    if k == 0 then LowBit(w) else IsSet(Half(w), k - 1)
  }

  // Binary digit k of a number.
  predicate Digit(a: nat, k: nat) {
    if k == 0 then a % 2 == 1 else Digit(a / 2, k - 1)
  }

  // How many binary digits the numbers below n have.
  function Digits(n: nat): nat {
    if n <= 1 then 0 else 1 + Digits(n / 2)
  }

  // The byte with only bit j set.
  function BitAt(j: nat): Byte
    requires j < 8
  {
    match j
    case 0 => 0x01
    case 1 => 0x02
    case 2 => 0x04
    case 3 => 0x08
    case 4 => 0x10
    case 5 => 0x20
    case 6 => 0x40
    case _ => 0x80
  }

  // Set bits among the low j bits of byte i whose bit address 8i + j has the given digit k.
  function OnesInByte(b: Byte, i: nat, k: nat, one: bool, j: nat): nat
    requires j <= 8
  {
    if j == 0 then 0
    else OnesInByte(b, i, k, one, j - 1) + (if b & BitAt(j - 1) != 0 && Digit(8 * i + (j - 1), k) == one then 1 else 0)
  }

  // Set bits among the first n bytes whose bit address has the given digit k.
  function Ones(data: seq<Byte>, k: nat, one: bool, n: nat): nat
    requires n <= |data|
  {
    if n == 0 then 0 else Ones(data, k, one, n - 1) + OnesInByte(data[n - 1], n - 1, k, one, 8)
  }

  predicate Even(n: nat) {
    n % 2 == 0
  }

  // ---------- bits of words ----------

  lemma XorHalf(v: Word32, w: Word32)
    ensures Half(Xor(v, w)) == Xor(Half(v), Half(w))
  {}

  lemma XorLow(v: Word32, w: Word32)
    ensures LowBit(Xor(v, w)) <==> LowBit(v) != LowBit(w)
  {}

  lemma {:induction false} XorSet(v: Word32, w: Word32, k: nat)
    ensures IsSet(Xor(v, w), k) <==> IsSet(v, k) != IsSet(w, k)
    decreases k
  {
    hide Xor, Half, LowBit;
    XorHalf(v, w);
    XorLow(v, w);
    if k > 0 { XorSet(Half(v), Half(w), k - 1); }
  }

  lemma MaskedHalf(w: Word32, mask: Word32)
    ensures Half(Masked(w, mask)) == Masked(Half(w), Half(mask))
  {}

  lemma MaskedLow(w: Word32, mask: Word32)
    ensures LowBit(Masked(w, mask)) <==> LowBit(w) && LowBit(mask)
  {}

  lemma {:induction false} MaskedSet(w: Word32, mask: Word32, k: nat)
    ensures IsSet(Masked(w, mask), k) <==> IsSet(w, k) && IsSet(mask, k)
    decreases k
  {
    hide Masked, Half, LowBit;
    MaskedHalf(w, mask);
    MaskedLow(w, mask);
    if k > 0 { MaskedSet(Half(w), Half(mask), k - 1); }
  }

  lemma PushHalf(x: Word32, one: bool)
    requires Within(x, 0xFFFF)
    ensures Half(Push(x, one)) == x
  {}

  lemma PushLow(x: Word32, one: bool)
    ensures LowBit(Push(x, one)) <==> one
  {}

  lemma ZeroBits()
    ensures !LowBit(0) && Half(0) == 0
  {}

  lemma {:induction false} ZeroSet(k: nat)
    ensures !IsSet(0, k)
  {
    ZeroBits();
    hide Half, LowBit;
    if k > 0 { ZeroSet(k - 1); }
  }

  lemma {:induction false} ZeroDigit(k: nat)
    ensures !Digit(0, k)
  {
    if k > 0 { ZeroDigit(k - 1); }
  }

  lemma HalfWithin(v: Word32, n: nat)
    requires n > 1 && Fits(v, n)
    ensures Fits(Half(v), n / 2)
  {
    FitsHalf(v, n);
    hide Fits;
  }

  lemma SmallMask(n: nat)
    requires PowerOfTwo(n) && n <= 65536
    ensures Within(LowMask(n), 0xFFFF)
  {
    PowersOfTwo(n);
    LowMasks();
    hide LowMask;
  }

  // The mask of n has exactly the digits of the numbers below n.
  lemma {:induction false} LowMaskSet(n: nat, k: nat)
    requires PowerOfTwo(n) && n <= 65536
    ensures IsSet(LowMask(n), k) <==> k < Digits(n)
    decreases n
  {
    hide Push, Half, LowBit, Within;
    if n <= 1 {
      ZeroSet(k);
    } else {
      SmallMask(n / 2);
      PushHalf(LowMask(n / 2), true);
      PushLow(LowMask(n / 2), true);
      if k > 0 { LowMaskSet(n / 2, k - 1); }
    }
  }

  lemma SmallWithin(w: Word32)
    requires w & 0xFFFF_0000 == 0
    ensures Within(w, 0xFFFF)
  {}

  lemma SmallWord(a: nat, n: nat)
    requires PowerOfTwo(n) && a < n <= 65536
    ensures Within(WordOf(a), 0xFFFF)
  {
    hide Fits, WordOf, Within;
    WordFits(a, n);
    SmallFits(WordOf(a), n);
    SmallWithin(WordOf(a));
  }

  // Bit k of the word of a number is its digit k.
  lemma {:induction false} WordOfSet(a: nat, n: nat, k: nat)
    requires PowerOfTwo(n) && a < n <= 65536
    ensures IsSet(WordOf(a), k) <==> Digit(a, k)
    decreases n
  {
    hide Push, Half, LowBit, Within;
    if a == 0 {
      ZeroSet(k);
      ZeroDigit(k);
    } else {
      SmallWord(a / 2, n / 2);
      PushHalf(WordOf(a / 2), a % 2 == 1);
      PushLow(WordOf(a / 2), a % 2 == 1);
      if k > 0 { WordOfSet(a / 2, n / 2, k - 1); }
    }
  }

  // ---------- bits of interleaved words ----------

  lemma GatherShift(e: Word32)
    ensures Gather(e >> 2) == Gather(e) >> 1
  {}

  lemma TwoHalves(e: Word32)
    ensures Half(Half(e)) == e >> 2
  {}

  lemma GatherHalf(e: Word32)
    ensures Gather(Half(Half(e))) == Half(Gather(e))
  {
    hide Gather;
    GatherShift(e);
    TwoHalves(e);
  }

  lemma GatherLow(e: Word32)
    ensures LowBit(Gather(e)) == LowBit(e)
  {}

  lemma {:induction false} GatherSet(e: Word32, k: nat)
    ensures IsSet(e, 2 * k) <==> IsSet(Gather(e), k)
    decreases k
  {
    hide Gather, Half, LowBit;
    GatherHalf(e);
    GatherLow(e);
    if k > 0 {
      assert IsSet(e, 2 * k) == IsSet(Half(e), 2 * k - 1) == IsSet(Half(Half(e)), 2 * (k - 1));
      GatherSet(Half(Half(e)), k - 1);
    }
  }

  lemma OddSet(e: Word32, k: nat)
    ensures IsSet(e, 2 * k + 1) <==> IsSet(Gather(Half(e)), k)
  {
    hide Gather, Half, LowBit;
    GatherSet(Half(e), k);
  }

  lemma GatherOdd(x: Word32, y: Word32)
    ensures Gather(((Spread(x) << 1) | Spread(y)) >> 1) == x & 0xFFFF
  {}

  lemma GatherEven(x: Word32, y: Word32)
    ensures Gather((Spread(x) << 1) | Spread(y)) == y & 0xFFFF
  {}

  lemma ComplementMasked(a: Word32)
    ensures !a & 0xFFFF == Xor(Masked(a, 0xFFFF), 0xFFFF)
  {}

  lemma GatherPairs(a: Word32)
    ensures Gather(PairCode(a)) == Xor(Masked(a, 0xFFFF), 0xFFFF)
    ensures Gather(Half(PairCode(a))) == Masked(a, 0xFFFF)
  {
    hide Spread, Gather, Xor;
    GatherOdd(a, !a);
    GatherEven(a, !a);
    ComplementMasked(a);
  }

  // Bit k of a half-word.
  lemma HalfWordSet(n: nat, k: nat)
    requires PowerOfTwo(n) && n <= 65536 && k < Digits(n)
    ensures IsSet(0xFFFF, k)
  {
    hide Masked, Within, IsSet, LowMask;
    LowMaskSet(n, k);
    SmallMask(n);
    MaskedAll(LowMask(n), 0xFFFF);
    MaskedSet(LowMask(n), 0xFFFF, k);
  }

  lemma MaskedAll(w: Word32, mask: Word32)
    requires Within(w, mask)
    ensures Masked(w, mask) == w
  {}

  // The pair of digit k in the code of an address: the upper bit when the digit is one,
  // the lower bit when it is zero.
  lemma PairCodeSet(a: Word32, k: nat, one: bool)
    requires IsSet(0xFFFF, k)
    ensures IsSet(PairCode(a), 2 * k + (if one then 1 else 0)) <==> IsSet(a, k) == one
  {
    hide PairCode, Xor, Masked, Gather, IsSet, Half;
    GatherPairs(a);
    MaskedSet(a, 0xFFFF, k);
    XorSet(Masked(a, 0xFFFF), 0xFFFF, k);
    GatherSet(PairCode(a), k);
    OddSet(PairCode(a), k);
  }

  // ---------- counting by toggling ----------

  // The canonical ECC bit of the given digit and value.
  function PairBit(k: nat, one: bool): nat {
    2 * k + (if one then 1 else 0)
  }

  // The low j bits of a byte.
  function LowBits(b: Byte, j: nat): Byte
    requires j <= 8
  {
    match j
    case 0 => 0
    case 1 => b & 0x01
    case 2 => b & 0x03
    case 3 => b & 0x07
    case 4 => b & 0x0F
    case 5 => b & 0x1F
    case 6 => b & 0x3F
    case 7 => b & 0x7F
    case _ => b
  }

  lemma NextBit(b: Byte, j: nat)
    requires j < 8
    ensures LowBits(b, j + 1) == if b & BitAt(j) != 0 then XorByte(LowBits(b, j), BitAt(j)) else LowBits(b, j)
  {
    match j case 0 => case 1 => case 2 => case 3 => case 4 => case 5 => case 6 => case _ =>
  }

  lemma BitAtIs(j: nat)
    requires j < 8
    ensures OneBitOfByte(BitAt(j)) && BitIndex(BitAt(j)) == WordOf(j)
  {
    match j case 0 => case 1 => case 2 => case 3 => case 4 => case 5 => case 6 => case _ =>
  }

  lemma BitDigits(j: nat)
    requires j < 8
    ensures WordOf(j) & 4 != 0 <==> j / 4 == 1
    ensures WordOf(j) & 2 != 0 <==> j / 2 % 2 == 1
    ensures WordOf(j) & 1 != 0 <==> j % 2 == 1
  {
    match j case 0 => case 1 => case 2 => case 3 => case 4 => case 5 => case 6 => case _ =>
  }

  lemma BitIsSmall(j: nat)
    requires j < 8
    ensures WordOf(j) & !0x7 == 0
  {
    match j case 0 => case 1 => case 2 => case 3 => case 4 => case 5 => case 6 => case _ =>
  }

  lemma Quotients(i: nat, j: nat)
    requires j < 8
    ensures 2 * (2 * i + j / 4) + j / 2 % 2 == 4 * i + j / 2
    ensures 2 * (4 * i + j / 2) + j % 2 == 8 * i + j
  {}

  lemma ThreeDigits(i: nat, j: nat)
    requires j < 8
    ensures WordOf(8 * i + j) == Push(Push(Push(WordOf(i), j / 4 == 1), j / 2 % 2 == 1), j % 2 == 1)
  {
    hide WordOf, Push;
    Quotients(i, j);
    WordOfDigits(i, j / 4 == 1);
    WordOfDigits(2 * i + j / 4, j / 2 % 2 == 1);
    WordOfDigits(4 * i + j / 2, j % 2 == 1);
  }

  // The bit address of bit j of byte w.
  function JoinAddress(w: Word32, j: Word32): Word32 {
    (w << 3) | j
  }

  lemma PushThree(w: Word32, j: Word32, d2: bool, d1: bool, d0: bool)
    requires j & !0x7 == 0 && (j & 4 != 0 <==> d2) && (j & 2 != 0 <==> d1) && (j & 1 != 0 <==> d0)
    ensures Push(Push(Push(w, d2), d1), d0) == JoinAddress(w, j)
  {
    FirstDigit(w, j);
    SecondDigit(w, j);
    ThirdDigit(w, j);
    hide Push;
  }

  // The bit address 8i + j as a word.
  lemma AddressWord(i: nat, j: nat)
    requires j < 8
    ensures WordOf(8 * i + j) == JoinAddress(WordOf(i), WordOf(j))
  {
    hide WordOf, Push, JoinAddress;
    BitDigits(j);
    BitIsSmall(j);
    ThreeDigits(i, j);
    PushThree(WordOf(i), WordOf(j), j / 4 == 1, j / 2 % 2 == 1, j % 2 == 1);
  }

  lemma Doubled(n: nat)
    requires PowerOfTwo(n)
    ensures PowerOfTwo(2 * n)
  {
    assert (2 * n) / 2 == n;
  }

  lemma Eightfold(n: nat)
    requires PowerOfTwo(n)
    ensures PowerOfTwo(8 * n)
  {
    hide PowerOfTwo;
    Doubled(n);
    Doubled(2 * n);
    Doubled(4 * n);
  }

  // The code of bit j of byte i has the bit of a parity pair exactly when its address has that digit.
  lemma CodeSet(i: nat, j: nat, n: nat, k: nat, one: bool)
    requires ValidLength(n) && i < n && j < 8 && k < Digits(8 * n)
    ensures IsSet(AddressCode(WordOf(i), BitIndex(BitAt(j))), PairBit(k, one)) <==> Digit(8 * i + j, k) == one
  {
    Eightfold(n);
    hide IsSet, AddressCode, WordOf, BitIndex, BitAt, PairCode, Digits, Digit, PowerOfTwo, OneBitOfByte;
    BitAtIs(j);
    AddressWord(i, j);
    AddressCodeIs(WordOf(i), WordOf(j), WordOf(8 * i + j));
    HalfWordSet(8 * n, k);
    PairCodeSet(WordOf(8 * i + j), k, one);
    WordOfSet(8 * i + j, 8 * n, k);
  }

  lemma ZeroByte(p: Parities, w: Word32)
    ensures Toggle(p, 0, w) == p
  {
    CpEntryIs(0);
    ZeroColumns();
    XorByteZero(p.bCP);
    hide CpEntry, ColumnCode, XorByte;
  }

  lemma ZeroColumns()
    ensures ColumnCode(0) == 0
  {}

  lemma XorByteZero(b: Byte)
    ensures XorByte(b, 0) == b
  {}

  // Toggling with a byte toggles a parity bit once for each set bit in its subset.
  lemma {:induction false} CountByte(p: Parities, b: Byte, i: nat, n: nat, k: nat, one: bool, j: nat)
    requires ValidLength(n) && i < n && k < Digits(8 * n) && j <= 8
    ensures IsSet(Combine(Toggle(p, LowBits(b, j), WordOf(i))), PairBit(k, one))
            <==> (IsSet(Combine(p), PairBit(k, one)) <==> Even(OnesInByte(b, i, k, one, j)))
  {
    hide IsSet, Combine, Toggle, LowBits, WordOf, BitAt, Xor, XorByte, AddressCode, BitIndex, Digit, Digits,
         OneBitOfByte, FlipParities, PairBit;
    if j == 0 {
      NoLowBits(b);
      ZeroByte(p, WordOf(i));
    } else {
      CountByte(p, b, i, n, k, one, j - 1);
      NextBit(b, j - 1);
      if b & BitAt(j - 1) != 0 {
        var before := Toggle(p, LowBits(b, j - 1), WordOf(i));
        BitAtIs(j - 1);
        ToggleFlip(p, LowBits(b, j - 1), BitAt(j - 1), WordOf(i));
        CombineFlip(before, BitAt(j - 1), WordOf(i));
        XorSet(Combine(before), AddressCode(WordOf(i), BitIndex(BitAt(j - 1))), PairBit(k, one));
        CodeSet(i, j - 1, n, k, one);
      }
    }
  }

  lemma NoLowBits(b: Byte)
    ensures LowBits(b, 0) == 0 && LowBits(b, 8) == b
  {}

  lemma CombineEven()
    ensures Combine(EVEN_PARITY) == 0xFFFF_FFFF
  {
    CombineIs(EVEN_PARITY);
    hide Combine;
  }

  lemma GatherOnes()
    ensures Gather(0xFFFF_FFFF) == 0xFFFF
    ensures Gather(Half(0xFFFF_FFFF)) == 0xFFFF
  {}

  lemma {:induction false} CountBytes(data: seq<Byte>, k: nat, one: bool, n: nat)
    requires ValidLength(|data|) && n <= |data| && k < Digits(8 * |data|)
    ensures IsSet(Combine(Accumulate(data, n)), PairBit(k, one)) <==> Even(Ones(data, k, one, n))
  {
    hide IsSet, Combine, Toggle, WordOf, Digits, LowBits, OnesInByte, Half, Gather, PowerOfTwo;
    if n == 0 {
      CombineEven();
      GatherOnes();
      Eightfold(|data|);
      HalfWordSet(8 * |data|, k);
      GatherSet(0xFFFF_FFFF, k);
      OddSet(0xFFFF_FFFF, k);
    } else {
      CountBytes(data, k, one, n - 1);
      NoLowBits(data[n - 1]);
      CountByte(Accumulate(data, n - 1), data[n - 1], n - 1, |data|, k, one, 8);
    }
  }

  lemma PairedMask(m: Word32)
    requires PairMask(m)
    ensures Gather(Half(m)) == Gather(m)
  {}

  lemma ValidMaskSet(n: nat, k: nat, one: bool)
    requires ValidLength(n)
    ensures IsSet(ValidMask(n), PairBit(k, one)) <==> k < Digits(8 * n)
  {
    Eightfold(n);
    hide IsSet, ValidMask, PairMask, Gather, Half, LowMask, Digits, PowerOfTwo;
    ValidMaskIs(n);
    PairedMask(ValidMask(n));
    GatherSet(ValidMask(n), k);
    OddSet(ValidMask(n), k);
    LowMaskSet(8 * n, k);
  }

  // Bit 2k + 1 of the ECC (P of digit k) is set exactly when an even number of set data bits
  // have a one at digit k of their address; bit 2k (P') likewise for a zero. Bits of digits
  // no address has are clear.
  lemma EccMeans(data: seq<Byte>, k: nat, one: bool)
    requires ValidLength(|data|)
    ensures IsSet(EccOf(data), PairBit(k, one)) <==> k < Digits(8 * |data|) && Even(Ones(data, k, one, |data|))
  {
    hide IsSet, Combine, ValidMask, Masked, Digits, Ones, Accumulate, PairBit;
    ValidMaskSet(|data|, k, one);
    MaskedSet(Combine(Accumulate(data, |data|)), ValidMask(|data|), PairBit(k, one));
    if k < Digits(8 * |data|) {
      CountBytes(data, k, one, |data|);
    }
  }
}
