// The shapes an ECC takes outside DclEcc: the three stored CSST bytes, the SSFDC bytes,
// and the GPMC result register, with the conversions between them and the canonical word.
module EccFormats {
  import opened Words

  // Three stored bytes: even parities low, odd parities in the middle, the high nibbles of both.
  datatype Csst = Csst(b0: Byte, b1: Byte, b2: Byte)

  function EvenOf(c: Csst): Word32 {
    (c.b0 as Word32) | (((c.b2 & 0x0F) as Word32) << 8)
  }

  function OddOf(c: Csst): Word32 {
    (c.b1 as Word32) | (((c.b2 & 0xF0) as Word32) << 4)
  }

  // Even and odd parities alternating, as many pairs as the mask has bits.
  function Pairs(even: Word32, odd: Word32, mask: Word32): Word32 {
    Spread(even & mask) | (Spread(odd & mask) << 1)
  }

  function Interleave(even: Word32, odd: Word32): Word32 {
    Pairs(even, odd, 0xFFF)
  }

  // The canonical word of three stored bytes: interleaved and inverted.
  function CanonicalOf(c: Csst): Word32 {
    Interleave(Invert(EvenOf(c)), Invert(OddOf(c)))
  }

  // The stored bytes of even and odd parities that are already inverted.
  function CsstOfParities(even: Word32, odd: Word32): Csst {
    Csst((even & 0xFF) as Byte, (odd & 0xFF) as Byte, (((odd >> 4) & 0xF0) | ((even >> 8) & 0x0F)) as Byte)
  }

  // The parities of one kind that a mask selects from a canonical word.
  function Selected(ulECC: Word32, mask: Word32): Word32 {
    Masked(Gather(ulECC), mask)
  }

  function EvenParities(ecc: Word32): Word32 {
    Selected(ecc, 0xFFF)
  }

  function OddParities(ecc: Word32): Word32 {
    Selected(Half(ecc), 0xFFF)
  }

  // The stored bytes of a canonical word.
  function CsstOf(ecc: Word32): Csst {
    CsstOfParities(Invert(EvenParities(ecc)), Invert(OddParities(ecc)))
  }

  // ---------- the conversion loops ----------

  // A one for each of the twelve pairs still to be converted.
  function PairsLeft(n: Word32): Word32
    requires n <= 12
  {
    0xFFF >> n
  }

  lemma MorePairs(n: Word32)
    requires n < 12
    ensures PairsLeft(n) & 1 == 1 && PairsLeft(n) >> 1 == PairsLeft(n + 1)
  {}

  lemma FirstPair(e: Word32, o: Word32, m: Word32)
    requires m & 1 == 1
    ensures Pairs(e, o, m) == Cons(LowDigit(e), Cons(LowDigit(o), Pairs(Half(e), Half(o), m >> 1)))
  {}

  // The canonical word collected up to bit n together with the pairs still to come.
  function WithPairs(ulECC: Word32, ulEven: Word32, ulOdd: Word32, n: Word32): Word32
    requires n <= 24
  {
    PlaceAt(ulECC, Pairs(ulEven, ulOdd, PairsLeft(n >> 1)), n)
  }

  lemma TwoFurther(n: Word32)
    requires n < 24 && n & 1 == 0
    ensures n + 2 <= 24 && (n + 2) & 1 == 0 && n < n + 2
  {}

  lemma NextPair(n: Word32)
    requires n < 24 && n & 1 == 0
    ensures PairsLeft(n >> 1) & 1 == 1 && PairsLeft(n >> 1) >> 1 == PairsLeft((n + 2) >> 1)
  {}

  lemma PlacePair(ulECC: Word32, even: Word32, odd: Word32, rest: Word32, n: Word32)
    requires n < 24
    ensures PlaceAt(PlaceAt(PlaceAt(ulECC, even, n), odd, n + 1), rest, n + 2)
         == PlaceAt(ulECC, Cons(even, Cons(odd, rest)), n)
  {
    hide PlaceAt, Cons;
    PlaceDigit(ulECC, even, Cons(odd, rest), n);
    PlaceDigit(PlaceAt(ulECC, even, n), odd, rest, n + 1);
    assert (n + 1) + 1 == n + 2;
  }

  lemma WithPairsStep(ulECC: Word32, ulEven: Word32, ulOdd: Word32, n: Word32)
    requires n < 24 && n & 1 == 0 && n + 2 <= 24
    ensures var next := PlaceAt(PlaceAt(ulECC, LowDigit(ulEven), n), LowDigit(ulOdd), n + 1);
            WithPairs(next, Half(ulEven), Half(ulOdd), n + 2) == WithPairs(ulECC, ulEven, ulOdd, n)
  {
    hide Pairs, PairsLeft, PlaceAt, Cons, LowDigit, Half;
    NextPair(n);
    FirstPair(ulEven, ulOdd, PairsLeft(n >> 1));
    PlacePair(ulECC, LowDigit(ulEven), LowDigit(ulOdd), Pairs(Half(ulEven), Half(ulOdd), PairsLeft(n >> 1) >> 1), n);
  }

  lemma WithPairsEnds(ulECC: Word32, ulEven: Word32, ulOdd: Word32)
    ensures WithPairs(0, ulEven, ulOdd, 0) == Interleave(ulEven, ulOdd)
    ensures WithPairs(ulECC, ulEven, ulOdd, 24) == ulECC
  {}

  method CSSTToCanonical(pabECC: array<Byte>, at: nat) returns (ulECC: Word32)
    requires at + 3 <= pabECC.Length
    ensures ulECC == CanonicalOf(Csst(pabECC[at], pabECC[at + 1], pabECC[at + 2]))
  {
    hide EvenOf, OddOf, Interleave, Invert, WithPairs, PlaceAt, LowDigit, Half;
    var ulEven := EvenOf(Csst(pabECC[at], pabECC[at + 1], pabECC[at + 2]));
    var ulOdd := OddOf(Csst(pabECC[at], pabECC[at + 1], pabECC[at + 2]));
    ulEven := Invert(ulEven);
    ulOdd := Invert(ulOdd);
    ghost var full := Interleave(ulEven, ulOdd);
    var nIndex: Word32 := 0;
    ulECC := 0;
    WithPairsEnds(0, ulEven, ulOdd);
    while nIndex < 24
      invariant nIndex <= 24 && nIndex & 1 == 0
      invariant WithPairs(ulECC, ulEven, ulOdd, nIndex) == full
      decreases 24 - nIndex
    {
      TwoFurther(nIndex);
      WithPairsStep(ulECC, ulEven, ulOdd, nIndex);
      ulECC := PlaceAt(ulECC, LowDigit(ulEven), nIndex);
      ulECC := PlaceAt(ulECC, LowDigit(ulOdd), nIndex + 1);
      ulEven := Half(ulEven);
      ulOdd := Half(ulOdd);
      nIndex := nIndex + 2;
    }
    WithPairsEnds(ulECC, ulEven, ulOdd);
  }

  // The parities collected so far together with the bits still to come.
  function WithParities(parities: Word32, ulECC: Word32, n: Word32): Word32
    requires n <= 12
  {
    PlaceAt(parities, Selected(ulECC, PairsLeft(n)), n)
  }

  lemma FirstParity(t: Word32, m: Word32)
    requires m & 1 == 1
    ensures Selected(t, m) == Cons(LowDigit(t), Selected(Half(Half(t)), m >> 1))
  {}

  lemma WithParitiesStep(parities: Word32, t: Word32, n: Word32)
    requires n < 12 && n + 1 <= 12
    ensures WithParities(PlaceAt(parities, LowDigit(t), n), Half(Half(t)), n + 1) == WithParities(parities, t, n)
  {
    hide Selected, PairsLeft, PlaceAt, Cons, LowDigit, Half;
    MorePairs(n);
    FirstParity(t, PairsLeft(n));
    PlaceDigit(parities, LowDigit(t), Selected(Half(Half(t)), PairsLeft(n) >> 1), n);
  }

  lemma WithParitiesEnds(parities: Word32, t: Word32)
    ensures WithParities(0, t, 0) == Selected(t, 0xFFF)
    ensures WithParities(parities, t, 12) == parities
  {}

  // The even and odd parities of a canonical word, each as one binary number.
  method SplitParities(ulOrig: Word32) returns (ulEven: Word32, ulOdd: Word32)
    ensures ulEven == EvenParities(ulOrig) && ulOdd == OddParities(ulOrig)
  {
    hide Selected, WithParities, PlaceAt, LowDigit, Half;
    var ulECC := ulOrig;
    ulEven := 0;
    ulOdd := 0;
    var nIndex: Word32 := 0;
    WithParitiesEnds(0, ulOrig);
    WithParitiesEnds(0, Half(ulOrig));
    while nIndex < 12
      invariant nIndex <= 12
      invariant WithParities(ulEven, ulECC, nIndex) == EvenParities(ulOrig)
      invariant WithParities(ulOdd, Half(ulECC), nIndex) == OddParities(ulOrig)
      decreases 12 - nIndex
    {
      WithParitiesStep(ulEven, ulECC, nIndex);
      WithParitiesStep(ulOdd, Half(ulECC), nIndex);
      ulEven := PlaceAt(ulEven, LowDigit(ulECC), nIndex);
      ulECC := Half(ulECC);
      ulOdd := PlaceAt(ulOdd, LowDigit(ulECC), nIndex);
      ulECC := Half(ulECC);
      nIndex := nIndex + 1;
    }
    WithParitiesEnds(ulEven, ulECC);
    WithParitiesEnds(ulOdd, Half(ulECC));
  }

  method CanonicalToCSST(ulOrig: Word32, pabECC: array<Byte>, at: nat)
    requires at + 3 <= pabECC.Length
    modifies pabECC
    ensures var c := CsstOf(ulOrig); pabECC[..] == old(pabECC[..])[at := c.b0][at + 1 := c.b1][at + 2 := c.b2]
  {
    hide EvenParities, OddParities, CsstOfParities, Invert;
    var ulEven, ulOdd := SplitParities(ulOrig);
    ulEven := Invert(ulEven);
    ulOdd := Invert(ulOdd);
    var c := CsstOfParities(ulEven, ulOdd);
    pabECC[at] := c.b0;
    pabECC[at + 1] := c.b1;
    pabECC[at + 2] := c.b2;
  }

  // ---------- round trips ----------

  // Stored bytes survive the conversion to canonical form and back.
  lemma CsstRoundTrip(c: Csst)
    ensures CsstOf(CanonicalOf(c)) == c
  {}

  lemma CanonicalRoundTrip(ecc: Word32)
    ensures CanonicalOf(CsstOf(ecc)) == ecc & 0x00FF_FFFF
  {}

  // The assertion at the end of CanonicalToCSST holds exactly for words without stray bits.
  lemma StoredAsGiven(ecc: Word32)
    ensures CanonicalOf(CsstOf(ecc)) == ecc <==> Within(ecc, 0x00FF_FFFF)
  {
    CanonicalRoundTrip(ecc);
    hide CanonicalOf, CsstOf;
  }

  // ---------- differences ----------

  function XorCsst(c: Csst, d: Csst): Csst {
    Csst(XorByte(c.b0, d.b0), XorByte(c.b1, d.b1), XorByte(c.b2, d.b2))
  }

  // The stored bits in canonical order, without inverting them.
  function Rearranged(c: Csst): Word32 {
    Interleave(EvenOf(c), OddOf(c))
  }

  // The inversions cancel: the difference of two canonical words is the difference of the
  // stored bytes, rearranged.
  lemma DifferencePreserved(c: Csst, d: Csst)
    ensures Xor(CanonicalOf(c), CanonicalOf(d)) == Rearranged(XorCsst(c, d))
  {}

  // Exactly one stored bit.
  predicate OneStoredBit(m: Csst) {
    || (OneBitOfByte(m.b0) && m.b1 == 0 && m.b2 == 0)
    || (m.b0 == 0 && OneBitOfByte(m.b1) && m.b2 == 0)
    || (m.b0 == 0 && m.b1 == 0 && OneBitOfByte(m.b2))
  }

  lemma OneBitRearranged(m: Csst)
    ensures OneBit(Rearranged(m)) <==> OneStoredBit(m)
  {}

  lemma RearrangedDistinct(c: Csst, d: Csst)
    ensures Rearranged(c) == Rearranged(d) ==> c == d
  {}

  lemma RearrangedWithin(c: Csst)
    ensures Within(Rearranged(c), 0x00FF_FFFF)
  {}

  // ---------- any number of pairs ----------

  // Interleaving as many pairs as a mask selects loses nothing ...
  lemma EvenPairsSplit(even: Word32, odd: Word32, mask: Word32)
    requires Within(mask, 0xFFFF)
    ensures Selected(Pairs(even, odd, mask), mask) == even & mask
  {}

  lemma OddPairsSplit(even: Word32, odd: Word32, mask: Word32)
    requires Within(mask, 0xFFFF)
    ensures Selected(Half(Pairs(even, odd, mask)), mask) == odd & mask
  {}

  // ... and gives back exactly the words that have no bits outside those pairs.
  lemma SplitPairs(ecc: Word32, mask: Word32)
    requires Within(mask, 0xFFFF)
    ensures Pairs(Selected(ecc, mask), Selected(Half(ecc), mask), mask) == ecc <==> Within(ecc, Pairs(mask, mask, mask))
  {}

  // ---------- SSFDC bytes ----------

  datatype Ssfdc = Ssfdc(b0: Byte, b1: Byte, b2: Byte)

  function CanonicalToSsfdc(ecc: Word32): Ssfdc {
    Ssfdc(((ecc >> 6) & 0xFF) as Byte, ((ecc >> 14) & 0xFF) as Byte, ((ecc << 2) & 0xFF) as Byte | 3)
  }

  function SsfdcToCanonical(s: Ssfdc): Word32 {
    ((s.b0 as Word32) << 6) | ((s.b1 as Word32) << 14) | ((s.b2 as Word32) >> 2)
  }

  // The two macros invert each other on 22-bit words and on triples that end in two ones,
  // and on nothing else.
  lemma SsfdcOfCanonical(ecc: Word32)
    ensures SsfdcToCanonical(CanonicalToSsfdc(ecc)) == ecc <==> Within(ecc, 0x003F_FFFF)
  {}

  lemma CanonicalOfSsfdc(s: Ssfdc)
    ensures CanonicalToSsfdc(SsfdcToCanonical(s)) == s <==> s.b2 & 3 == 3
  {}

  // ---------- the hardware result register ----------

  // The three bytes FfxHookEccCalcRead takes out of a result register.
  function RegisterBytes(r: Word32): Csst {
    Csst((r & 0xFF) as Byte, ((r >> 16) & 0xFF) as Byte, ((((r >> 8) & 0x0F) | ((r >> 20) & 0xF0)) & 0xFF) as Byte)
  }

  function LowParities(r: Word32): Word32 {
    Masked(r, 0xFFF)
  }

  function HighParities(r: Word32): Word32 {
    Masked(r >> 16, 0xFFF)
  }

  lemma RegisterBytesAre(r: Word32)
    ensures RegisterBytes(r) == CsstOfParities(LowParities(r), HighParities(r))
  {}

  lemma InvertedParities(even: Word32, odd: Word32)
    ensures CsstOfParities(Invert(even), Invert(odd)) == CsstOfParities(Xor(even, 0xFFF), Xor(odd, 0xFFF))
  {}
}
