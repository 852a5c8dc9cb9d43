// Machine words shared by the whole model: 8-bit bytes and 32-bit unsigned words,
// numbers seen as words, and the bit interleaving every ECC format relies on.
module Words {
  type Byte = bv8
  type Word32 = bv32

  const EVENBITS: Word32 := 0x5555_5555

  // DCLISPOWEROF2 on a word. As in the source, zero passes this test.
  predicate IsPowerOf2(v: Word32) {
    v & (!v + 1) == v
  }

  // Exactly one bit is set.
  predicate OneBit(v: Word32) {
    v != 0 && IsPowerOf2(v)
  }

  // Exactly one bit of a byte is set.
  predicate OneBitOfByte(m: Byte) {
    m != 0 && m & (m - 1) == 0
  }

  // Exclusive or, named so that proofs can use its group laws without looking at bits.
  function Xor(v: Word32, w: Word32): Word32 {
    v ^ w
  }

  function XorByte(v: Byte, w: Byte): Byte {
    v ^ w
  }

  lemma XorAssociates(u: Word32, v: Word32, w: Word32)
    ensures Xor(u, Xor(v, w)) == Xor(Xor(u, v), w)
  {}

  lemma XorCommutes(v: Word32, w: Word32)
    ensures Xor(v, w) == Xor(w, v)
  {}

  lemma XorSwaps(u: Word32, v: Word32, w: Word32)
    ensures Xor(Xor(u, v), w) == Xor(Xor(u, w), v)
  {
    hide Xor;
    XorAssociates(u, v, w);
    XorCommutes(v, w);
    XorAssociates(u, w, v);
  }

  lemma XorCancels(v: Word32, w: Word32)
    ensures Xor(Xor(v, w), w) == v
    ensures Xor(v, w) == 0 <==> v == w
    ensures Xor(v, 0) == v
  {}

  lemma XorByteLaws(u: Byte, v: Byte, w: Byte)
    ensures XorByte(XorByte(u, v), w) == XorByte(XorByte(u, w), v)
    ensures XorByte(u, XorByte(v, w)) == XorByte(XorByte(u, v), w)
    ensures XorByte(XorByte(u, v), v) == u
  {}

  function Masked(w: Word32, mask: Word32): Word32 {
    w & mask
  }

  lemma XorMaskedParts(v: Word32, w: Word32, mask: Word32, x: Word32, y: Word32, z: Word32)
    requires x == v ^ w && y == v & mask && z == w & mask
    ensures Masked(x, mask) == Xor(y, z)
  {}

  lemma XorMasked(v: Word32, w: Word32, mask: Word32)
    ensures Masked(Xor(v, w), mask) == Xor(Masked(v, mask), Masked(w, mask))
  {
    XorMaskedParts(v, w, mask, Xor(v, w), Masked(v, mask), Masked(w, mask));
    hide Xor, Masked;
  }

  lemma MaskedWithin(w: Word32, mask: Word32)
    ensures Within(Masked(w, mask), mask)
  {}

  // No bit of w lies outside the mask.
  predicate Within(w: Word32, mask: Word32) {
    w & !mask == 0
  }

  lemma XorWithin(v: Word32, w: Word32, mask: Word32)
    requires Within(v, mask) && Within(w, mask)
    ensures Within(Xor(v, w), mask)
  {}

  // ---------- numbers as words ----------

  // Appends a binary digit.
  function Push(x: Word32, one: bool): Word32 {
    if one then (x << 1) | 1 else x << 1
  }

  // The word that holds a number, built from its binary digits.
  function WordOf(i: nat): Word32 {
    if i == 0 then 0 else Push(WordOf(i / 2), i % 2 == 1)
  }

  // A word used as an array index.
  function Index(w: Word32): nat {
    w as int
  }

  // DCLISPOWEROF2 on a (positive) length.
  predicate PowerOfTwo(n: nat) {
    n == 1 || (n > 1 && n % 2 == 0 && PowerOfTwo(n / 2))
  }

  // The word n - 1 when n is a power of two: a one for every digit of a number below n.
  function LowMask(n: nat): Word32 {
    if n <= 1 then 0 else Push(LowMask(n / 2), true)
  }

  // The word needs no more digits than the numbers below n do.
  predicate Fits(w: Word32, n: nat) {
    w & !LowMask(n) == 0
  }

  lemma FitsPush(x: Word32, n: nat, one: bool)
    requires n > 1 && Fits(x, n / 2)
    ensures Fits(Push(x, one), n)
  {}

  lemma FitsHalf(w: Word32, n: nat)
    requires n > 1 && Fits(w, n)
    ensures Fits(w >> 1, n / 2)
  {}

  lemma FitsZero(w: Word32, n: nat)
    ensures Fits(0, n)
    ensures Fits(w, 1) ==> w == 0
  {}

  lemma PushLast(w: Word32)
    ensures Push(w >> 1, w & 1 == 1) == w
  {}

  lemma PushZero()
    ensures Push(0, false) == 0
  {}

  lemma WordOfDigits(v: nat, one: bool)
    ensures WordOf(2 * v + (if one then 1 else 0)) == Push(WordOf(v), one)
  {
    var i := 2 * v + (if one then 1 else 0);
    assert i / 2 == v && i % 2 == (if one then 1 else 0);
    if i == 0 { PushZero(); }
  }

  // Numbers below a power of two fit its mask ...
  lemma {:induction false} WordFits(i: nat, n: nat)
    requires PowerOfTwo(n) && i < n
    ensures Fits(WordOf(i), n)
  {
    hide Fits, Push;
    FitsZero(0, n);
    if i > 0 {
      WordFits(i / 2, n / 2);
      FitsPush(WordOf(i / 2), n, i % 2 == 1);
    }
  }

  // ... and every word that fits the mask is the word of a number below it.
  lemma {:induction false} WordHolds(w: Word32, n: nat) returns (i: nat)
    requires PowerOfTwo(n) && Fits(w, n)
    ensures i < n && WordOf(i) == w
    decreases n
  {
    hide Fits, Push, WordOf;
    if n == 1 {
      i := 0;
      FitsZero(w, n);
      WordOfZero();
    } else {
      FitsHalf(w, n);
      var v := WordHolds(w >> 1, n / 2);
      i := 2 * v + (if w & 1 == 1 then 1 else 0);
      PushLast(w);
      WordOfDigits(v, w & 1 == 1);
    }
  }

  lemma WordOfZero()
    ensures WordOf(0) == 0
  {}

  lemma IndexOfEven(x: Word32)
    requires x & 0xFFFF_0000 == 0
    ensures Index(x << 1) == 2 * Index(x)
  {}

  lemma IndexOfOdd(x: Word32)
    requires x & 0xFFFF_0000 == 0
    ensures Index((x << 1) | 1) == 2 * Index(x) + 1
  {}

  lemma IndexOfPush(x: Word32, one: bool)
    requires x & 0xFFFF_0000 == 0
    ensures Index(Push(x, one)) == 2 * Index(x) + (if one then 1 else 0)
  {
    hide Index;
    if one { IndexOfOdd(x); } else { IndexOfEven(x); }
  }

  // The masks for the lengths DclEcc accepts, from one byte (8 bit addresses) to 8 KB.
  lemma LowMasks()
    ensures LowMask(1) == 0 && LowMask(2) == 0x1 && LowMask(4) == 0x3 && LowMask(8) == 0x7
    ensures LowMask(16) == 0xF && LowMask(32) == 0x1F && LowMask(64) == 0x3F && LowMask(128) == 0x7F
    ensures LowMask(256) == 0xFF && LowMask(512) == 0x1FF && LowMask(1024) == 0x3FF
    ensures LowMask(2048) == 0x7FF && LowMask(4096) == 0xFFF && LowMask(8192) == 0x1FFF
    ensures LowMask(16384) == 0x3FFF && LowMask(32768) == 0x7FFF && LowMask(65536) == 0xFFFF
  {
    assert LowMask(2) == 0x1;
    assert LowMask(4) == 0x3;
    assert LowMask(8) == 0x7;
    assert LowMask(16) == 0xF;
    assert LowMask(32) == 0x1F;
    assert LowMask(64) == 0x3F;
    assert LowMask(128) == 0x7F;
    assert LowMask(256) == 0xFF;
    assert LowMask(512) == 0x1FF;
    assert LowMask(1024) == 0x3FF;
    assert LowMask(2048) == 0x7FF;
    assert LowMask(4096) == 0xFFF;
    assert LowMask(8192) == 0x1FFF;
    assert LowMask(16384) == 0x3FFF;
    assert LowMask(32768) == 0x7FFF;
  }

  lemma PowersOfTwo(n: nat)
    requires PowerOfTwo(n) && n <= 65536
    ensures n == 1 || n == 2 || n == 4 || n == 8 || n == 16 || n == 32 || n == 64 || n == 128 || n == 256
         || n == 512 || n == 1024 || n == 2048 || n == 4096 || n == 8192 || n == 16384 || n == 32768 || n == 65536
  {
    if n > 1 { PowersOfTwo(n / 2); }
  }

  lemma SmallFits(w: Word32, n: nat)
    requires PowerOfTwo(n) && n <= 65536 && Fits(w, n)
    ensures w & 0xFFFF_0000 == 0
  {
    PowersOfTwo(n);
    LowMasks();
    hide LowMask;
  }

  // Used as an index, the word of a number is that number again.
  lemma {:induction false} IndexOfWord(i: nat, n: nat)
    requires PowerOfTwo(n) && i < n <= 65536
    ensures Index(WordOf(i)) == i
  {
    if i > 0 {
      hide Index, Fits, Push;
      IndexOfWord(i / 2, n / 2);
      WordFits(i / 2, n / 2);
      SmallFits(WordOf(i / 2), n / 2);
      IndexOfPush(WordOf(i / 2), i % 2 == 1);
    }
  }

  function Invert(w: Word32): Word32 {
    !w
  }

  function LowDigit(w: Word32): Word32 {
    w & 1
  }

  predicate LowBit(w: Word32) {
    w & 1 == 1
  }

  function Half(w: Word32): Word32 {
    w >> 1
  }

  // ---------- collecting bits in a loop ----------

  function Or(v: Word32, w: Word32): Word32 {
    v | w
  }

  function ShiftLeft(w: Word32, n: Word32): Word32
    requires n < 32
  {
    w << n
  }

  // Puts the bits of g at position n.
  function PlaceAt(e: Word32, g: Word32, n: Word32): Word32
    requires n < 32
  {
    Or(e, ShiftLeft(g, n))
  }

  // A lowest binary digit in front of the others.
  function Cons(d: Word32, g: Word32): Word32 {
    Or(d, ShiftLeft(g, 1))
  }

  lemma ShiftOrBits(a: Word32, b: Word32, n: Word32)
    requires n < 32
    ensures ShiftLeft(a | b, n) == ShiftLeft(a, n) | ShiftLeft(b, n)
  {}

  lemma ShiftOr(a: Word32, b: Word32, n: Word32)
    requires n < 32
    ensures ShiftLeft(Or(a, b), n) == Or(ShiftLeft(a, n), ShiftLeft(b, n))
  {
    ShiftOrBits(a, b, n);
    hide ShiftLeft;
  }

  lemma ShiftMore(g: Word32, n: Word32)
    requires n < 31
    ensures ShiftLeft(g, n + 1) == ShiftLeft(ShiftLeft(g, 1), n)
  {}

  lemma OrAssociates(e: Word32, a: Word32, b: Word32)
    ensures Or(Or(e, a), b) == Or(e, Or(a, b))
  {}

  // Placing a digit and then the rest after it places both at once.
  lemma PlaceDigit(e: Word32, d: Word32, g: Word32, n: Word32)
    requires n < 31
    ensures PlaceAt(PlaceAt(e, d, n), g, n + 1) == PlaceAt(e, Cons(d, g), n)
  {
    hide Or, ShiftLeft;
    ShiftOr(d, ShiftLeft(g, 1), n);
    ShiftMore(g, n);
    OrAssociates(e, ShiftLeft(d, n), ShiftLeft(g, n + 1));
  }

  // ---------- interleaving ----------

  // Moves bit k of the low half-word to bit 2k, leaving zeros in between.
  function Spread(x: Word32): Word32 {
    var x0 := x & 0xFFFF;
    var x1 := (x0 | (x0 << 8)) & 0x00FF_00FF;
    var x2 := (x1 | (x1 << 4)) & 0x0F0F_0F0F;
    var x3 := (x2 | (x2 << 2)) & 0x3333_3333;
    (x3 | (x3 << 1)) & 0x5555_5555
  }

  // Moves bit 2k to bit k: undoes Spread.
  function Gather(t: Word32): Word32 {
    var x0 := t & 0x5555_5555;
    var x1 := (x0 | (x0 >> 1)) & 0x3333_3333;
    var x2 := (x1 | (x1 >> 2)) & 0x0F0F_0F0F;
    var x3 := (x2 | (x2 >> 4)) & 0x00FF_00FF;
    (x3 | (x3 >> 8)) & 0xFFFF
  }

  // The canonical ECC contribution of one set data bit, number j of byte w: for every
  // digit k of its bit address 8w+j it lies in exactly one of two parity sets, Pk
  // (bit 2k+1) when the digit is one and Pk' (bit 2k) when it is zero.
  function AddressCode(w: Word32, j: Word32): Word32 {
    (Spread((w << 3) | j) << 1) | Spread(!((w << 3) | j))
  }

  // A mask of whole parity pairs, at least the three column pairs.
  predicate PairMask(m: Word32) {
    && m & (m + 1) == 0
    && (m >> 1) & EVENBITS == m & EVENBITS
    && m & 0x3F == 0x3F
  }
}
