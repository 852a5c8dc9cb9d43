// What the segment ECC guarantees: its parity bits mean what dlecc.c says they mean,
// one flipped bit is always repaired, and two flipped bits are always noticed.
module EccTheory {
  import opened Words
  import opened DclEcc
  import opened Syndromes

  // ---------- the effect of one flipped data bit on the ECC ----------

  // The position of the one set bit of a byte.
  function BitIndex(bit: Byte): Word32 {
    match bit
    case 0x01 => 0
    case 0x02 => 1
    case 0x04 => 2
    case 0x08 => 3
    case 0x10 => 4
    case 0x20 => 5
    case 0x40 => 6
    case _ => 7
  }

  lemma BitCases(bit: Byte)
    requires OneBitOfByte(bit)
    ensures bit == 0x01 || bit == 0x02 || bit == 0x04 || bit == 0x08
         || bit == 0x10 || bit == 0x20 || bit == 0x40 || bit == 0x80
  {}

  lemma ColumnFlipLow(b: Byte, bit: Byte)
    requires bit == 0x01 || bit == 0x02 || bit == 0x04 || bit == 0x08
    ensures ColumnCode(XorByte(b, bit)) == XorByte(ColumnCode(b), ColumnCode(bit))
  {
    match bit case 0x01 => case 0x02 => case 0x04 => case _ =>
  }

  lemma ColumnFlipHigh(b: Byte, bit: Byte)
    requires bit == 0x10 || bit == 0x20 || bit == 0x40 || bit == 0x80
    ensures ColumnCode(XorByte(b, bit)) == XorByte(ColumnCode(b), ColumnCode(bit))
  {
    match bit case 0x10 => case 0x20 => case 0x40 => case _ =>
  }

  lemma ColumnFlip(b: Byte, bit: Byte)
    requires OneBitOfByte(bit)
    ensures ColumnCode(XorByte(b, bit)) == XorByte(ColumnCode(b), ColumnCode(bit))
  {
    BitCases(bit);
    hide OneBitOfByte, ColumnCode, XorByte;
    if bit == 0x01 || bit == 0x02 || bit == 0x04 || bit == 0x08 {
      ColumnFlipLow(b, bit);
    } else {
      ColumnFlipHigh(b, bit);
    }
  }

  lemma AllBitParity(bit: Byte)
    requires OneBitOfByte(bit)
    ensures ColumnCode(bit) & ALL_BIT_EOR != 0
  {
    BitCases(bit);
  }

  lemma AllBitFlip(t: Byte, s: Byte)
    requires s & ALL_BIT_EOR != 0
    ensures XorByte(t, s) & ALL_BIT_EOR != 0 <==> t & ALL_BIT_EOR == 0
  {}

  // The same byte toggled with one bit different.
  lemma LineFlip(nLP: Word32, t: Byte, s: Byte, w: Word32)
    requires s & ALL_BIT_EOR != 0
    ensures ToggleLine(nLP, XorByte(t, s), w) == Xor(ToggleLine(nLP, t, w), w)
  {
    hide Xor, XorByte;
    AllBitFlip(t, s);
    XorCancels(nLP, w);
  }

  lemma LineLater(nLP: Word32, x: Word32, t: Byte, v: Word32)
    ensures ToggleLine(Xor(nLP, x), t, v) == Xor(ToggleLine(nLP, t, v), x)
  {
    hide Xor;
    XorSwaps(nLP, x, v);
  }

  // Parities after one more data bit, of the byte with index w, is flipped.
  function FlipParities(p: Parities, bit: Byte, w: Word32): Parities {
    Parities(XorByte(p.bCP, ColumnCode(bit)), Xor(p.nLP1, w), Xor(p.nLP0, Invert(w)))
  }

  lemma ToggleFlip(p: Parities, b: Byte, bit: Byte, w: Word32)
    requires OneBitOfByte(bit)
    ensures Toggle(p, XorByte(b, bit), w) == FlipParities(Toggle(p, b, w), bit, w)
  {
    hide ColumnCode, CpEntry, ToggleLine, OneBitOfByte, Xor, XorByte, Invert;
    CpEntryIs(b);
    CpEntryIs(XorByte(b, bit));
    ColumnFlip(b, bit);
    AllBitParity(bit);
    var t, s := ColumnCode(b), ColumnCode(bit);
    LineFlip(p.nLP1, t, s, w);
    LineFlip(p.nLP0, t, s, Invert(w));
    XorByteLaws(p.bCP, t, s);
  }

  lemma ToggleLater(p: Parities, b: Byte, v: Word32, bit: Byte, w: Word32)
    ensures Toggle(FlipParities(p, bit, w), b, v) == FlipParities(Toggle(p, b, v), bit, w)
  {
    hide CpEntry, ColumnCode, ToggleLine, Xor, XorByte, Invert;
    LineLater(p.nLP1, w, CpEntry(b), v);
    LineLater(p.nLP0, Invert(w), CpEntry(b), Invert(v));
    XorByteLaws(p.bCP, ColumnCode(bit), CpEntry(b));
  }

  lemma {:induction false} AccumulateFlip(data: seq<Byte>, at: nat, bit: Byte, n: nat)
    requires at < |data| && n <= |data| && OneBitOfByte(bit)
    ensures Accumulate(Flip(data, at, bit), n)
         == if n <= at then Accumulate(data, n) else FlipParities(Accumulate(data, n), bit, WordOf(at))
  {
    hide Toggle, FlipParities, OneBitOfByte, WordOf, XorByte;
    if n > 0 {
      AccumulateFlip(data, at, bit, n - 1);
      var p := Accumulate(data, n - 1);
      if n - 1 == at {
        ToggleFlip(p, data[at], bit, WordOf(at));
      } else if n - 1 > at {
        ToggleLater(p, data[n - 1], WordOf(n - 1), bit, WordOf(at));
      }
    }
  }

  lemma LayoutXorBits(x: Word32, y: Word32, c: Byte, x': Word32, y': Word32, c': Byte)
    ensures Layout(x ^ x', y ^ y', c ^ c') == Layout(x, y, c) ^ Layout(x', y', c')
  {}

  lemma LayoutXor(x: Word32, y: Word32, c: Byte, x': Word32, y': Word32, c': Byte)
    ensures Layout(Xor(x, x'), Xor(y, y'), XorByte(c, c')) == Xor(Layout(x, y, c), Layout(x', y', c'))
  {
    LayoutXorBits(x, y, c, x', y', c');
    hide Spread, Layout;
  }

  lemma SpreadAddress(w: Word32, j: Word32)
    requires j & !0x7 == 0
    ensures Spread((w << 3) | j) == (Spread(w) << 6) | Spread(j)
  {}

  lemma SpreadAddressNot(w: Word32, j: Word32)
    requires j & !0x7 == 0
    ensures Spread(!((w << 3) | j)) == (Spread(!w) << 6) | Spread(!j & 7)
  {}

  lemma PairsBelow(a: Word32, b: Word32, p: Word32, q: Word32)
    ensures (((a << 1) | b) << 6) | ((p << 1) | q) == (((a << 6) | p) << 1) | ((b << 6) | q)
  {}

  // Three column pairs below the line pairs of w are the pairs of a bit address.
  lemma AddressPairs(w: Word32, j: Word32, c: Word32)
    requires j & !0x7 == 0 && c == (Spread(j) << 1) | Spread(!j & 7)
    ensures (((Spread(w) << 1) | Spread(!w)) << 6) | c == (Spread((w << 3) | j) << 1) | Spread(!((w << 3) | j))
  {
    SpreadAddress(w, j);
    SpreadAddressNot(w, j);
    PairsBelow(Spread(w), Spread(!w), Spread(j), Spread(!j & 7));
    hide Spread;
  }

  lemma AddressLayout(w: Word32, j: Word32, c: Byte)
    requires j & !0x7 == 0 && ((c & 0x3F) as Word32) == (Spread(j) << 1) | Spread(!j & 7)
    ensures Layout(w, !w, c) == AddressCode(w, j)
  {
    AddressPairs(w, j, (c & 0x3F) as Word32);
    hide Spread;
  }

  lemma ColumnPairs(bit: Byte)
    requires OneBitOfByte(bit)
    ensures BitIndex(bit) & !0x7 == 0
    ensures ((ColumnCode(bit) & 0x3F) as Word32) == (Spread(BitIndex(bit)) << 1) | Spread(!BitIndex(bit) & 7)
  {
    BitCases(bit);
    hide OneBitOfByte;
    match bit
    case 0x01 => case 0x02 => case 0x04 => case 0x08 => case 0x10 => case 0x20 => case 0x40 => case _ =>
  }

  lemma CombineFlip(p: Parities, bit: Byte, w: Word32)
    requires OneBitOfByte(bit)
    ensures Combine(FlipParities(p, bit, w)) == Xor(Combine(p), AddressCode(w, BitIndex(bit)))
  {
    hide ColumnCode, OneBitOfByte, BitIndex, AddressCode, Combine, Layout, Spread, Xor, XorByte;
    CombineIs(p);
    CombineIs(FlipParities(p, bit, w));
    LayoutXor(p.nLP1, p.nLP0, p.bCP, w, !w, ColumnCode(bit));
    ColumnPairs(bit);
    AddressLayout(w, BitIndex(bit), ColumnCode(bit));
  }

  // What flipping a data bit toggles in the ECC.
  function DataCode(at: nat, bit: Byte, n: nat): Word32
    requires ValidLength(n)
  {
    Masked(AddressCode(WordOf(at), BitIndex(bit)), ValidMask(n))
  }

  lemma EccFlip(data: seq<Byte>, at: nat, bit: Byte)
    requires ValidLength(|data|) && at < |data| && OneBitOfByte(bit)
    ensures EccOf(Flip(data, at, bit)) == Xor(EccOf(data), DataCode(at, bit, |data|))
  {
    hide AddressCode, BitIndex, WordOf, Xor, OneBitOfByte, ValidMask, Flip, FlipParities, Combine, Masked;
    var n := |data|;
    AccumulateFlip(data, at, bit, n);
    CombineFlip(Accumulate(data, n), bit, WordOf(at));
    XorMasked(Combine(Accumulate(data, n)), AddressCode(WordOf(at), BitIndex(bit)), ValidMask(n));
  }

  // ---------- addresses of data bits ----------

  function AddressOf(at: nat, bit: Byte): Word32 {
    (WordOf(at) << 3) | BitIndex(bit)
  }

  // The bit address is the byte index with three more digits.
  lemma FirstDigit(w: Word32, j: Word32)
    requires j & !0x7 == 0
    ensures Push(w, j & 4 != 0) == (w << 1) | (j >> 2)
  {}

  lemma SecondDigit(w: Word32, j: Word32)
    requires j & !0x7 == 0
    ensures Push((w << 1) | (j >> 2), j & 2 != 0) == (w << 2) | (j >> 1)
  {}

  lemma ThirdDigit(w: Word32, j: Word32)
    requires j & !0x7 == 0
    ensures Push((w << 2) | (j >> 1), j & 1 != 0) == (w << 3) | j
  {}

  lemma AddressCodeIs(w: Word32, j: Word32, a: Word32)
    requires a == (w << 3) | j
    ensures AddressCode(w, j) == PairCode(a)
  {
    hide Spread;
  }

  lemma AddressByte(w: Word32, j: Word32)
    requires w & 0xFFFF_0000 == 0 && j & !0x7 == 0
    ensures ((w << 3) | j) >> 3 == w
  {}

  lemma AddressBit(w: Word32, j: Word32)
    requires j & !0x7 == 0
    ensures ((w << 3) | j) & 7 == j
  {}

  lemma BitOfIndex(bit: Byte, a: Word32)
    requires OneBitOfByte(bit) && a & 7 == BitIndex(bit)
    ensures BitOf(a) == bit
  {
    BitCases(bit);
    hide OneBitOfByte;
    match bit
    case 0x01 => case 0x02 => case 0x04 => case 0x08 => case 0x10 => case 0x20 => case 0x40 => case _ =>
  }

  lemma BitIndexSmall(bit: Byte)
    ensures BitIndex(bit) & !0x7 == 0
  {}

  lemma SmallIndexWord(at: nat, n: nat)
    requires ValidLength(n) && at < n
    ensures WordOf(at) & 0xFFFF_0000 == 0
  {
    hide Fits, WordOf;
    WordFits(at, n);
    SmallFits(WordOf(at), n);
  }

  lemma FitsAddressIn(w: Word32, j: Word32, n: nat)
    requires n > 0 && Fits(w, n) && j & !0x7 == 0
    ensures Fits((w << 3) | j, 8 * n)
  {
    hide Fits, Push;
    FirstDigit(w, j);
    FitsPush(w, 2 * n, j & 4 != 0);
    SecondDigit(w, j);
    FitsPush((w << 1) | (j >> 2), 4 * n, j & 2 != 0);
    ThirdDigit(w, j);
    FitsPush((w << 2) | (j >> 1), 8 * n, j & 1 != 0);
  }

  // The bit address of a data bit is within the addresses of the block ...
  lemma AddressWithin(at: nat, bit: Byte, n: nat)
    requires ValidLength(n) && at < n
    ensures Fits(AddressOf(at, bit), 8 * n)
  {
    hide WordOf, BitIndex, Fits;
    WordFits(at, n);
    BitIndexSmall(bit);
    FitsAddressIn(WordOf(at), BitIndex(bit), n);
  }

  // ... and names the byte and the bit it was made from.
  lemma AddressNames(at: nat, bit: Byte, n: nat)
    requires ValidLength(n) && at < n && OneBitOfByte(bit)
    ensures Index(AddressOf(at, bit) >> 3) == at
    ensures BitOf(AddressOf(at, bit)) == bit
  {
    hide WordOf, BitIndex, Index, OneBitOfByte, BitOf;
    SmallIndexWord(at, n);
    BitIndexSmall(bit);
    AddressByte(WordOf(at), BitIndex(bit));
    AddressBit(WordOf(at), BitIndex(bit));
    IndexOfWord(at, n);
    BitOfIndex(bit, AddressOf(at, bit));
  }

  lemma FlipAddressIs(data: seq<Byte>, at: nat, bit: Byte)
    requires ValidLength(|data|) && at < |data| && OneBitOfByte(bit)
    ensures Fits(AddressOf(at, bit), 8 * |data|)
    ensures FlipAddress(data, AddressOf(at, bit)) == Flip(data, at, bit)
  {
    hide Fits, Index, OneBitOfByte, BitOf, AddressOf, Flip;
    AddressWithin(at, bit, |data|);
    AddressNames(at, bit, |data|);
  }
}
