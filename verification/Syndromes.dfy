// Which differences between a stored and a recalculated ECC the decoder of DclEccCorrect
// takes for no error, one wrong ECC bit, one wrong data bit, or more than it can repair.
module Syndromes {
  import opened Words
  import opened DclEcc

  // The syndrome of one wrong data bit at bit address a, before masking.
  function PairCode(a: Word32): Word32 {
    (Spread(a) << 1) | Spread(!a)
  }

  // What DclEccCorrect concludes from a syndrome.
  function Verdict(s: Word32, m: Word32): EccResult {
    if s == 0 then Valid
    else if IsPowerOf2(s) then EccCorrected
    else if EveryPairDiffers(s, m) then DataCorrected
    else Uncorrectable
  }

  // ---------- one error ----------

  lemma DataNotOneBit(a: Word32, m: Word32)
    requires PairMask(m)
    ensures !IsPowerOf2(Masked(PairCode(a), m))
  {}

  lemma DataEveryPair(a: Word32, m: Word32)
    requires PairMask(m)
    ensures EveryPairDiffers(Masked(PairCode(a), m), m)
  {}

  // The address is read back from its syndrome ...
  lemma DataAddress(a: Word32, m: Word32)
    requires PairMask(m) && Within(a, Gather(m))
    ensures BitAddress(Masked(PairCode(a), m), m) == a
  {}

  // ... and every syndrome in which each pair differs once is the syndrome of an address.
  lemma AddressOfSyndrome(s: Word32, m: Word32)
    requires PairMask(m) && Within(s, m) && EveryPairDiffers(s, m)
    ensures Masked(PairCode(BitAddress(s, m)), m) == s
  {}

  // ---------- two errors ----------

  // Two data bits: some pair differs twice, none differs once.
  lemma TwoDataNotOneBit(a: Word32, b: Word32, m: Word32)
    requires PairMask(m) && Within(a, Gather(m)) && Within(b, Gather(m)) && a != b
    ensures !IsPowerOf2(Xor(Masked(PairCode(a), m), Masked(PairCode(b), m)))
  {}

  lemma TwoDataNotPaired(a: Word32, b: Word32, m: Word32)
    requires PairMask(m)
    ensures !EveryPairDiffers(Xor(Masked(PairCode(a), m), Masked(PairCode(b), m)), m)
  {}

  // One data bit and one ECC bit: one pair differs twice or not at all, two differ once.
  lemma MixedNotOneBit(a: Word32, e: Word32, m: Word32)
    requires PairMask(m) && OneBit(e) && Within(e, m)
    ensures !IsPowerOf2(Xor(Masked(PairCode(a), m), e))
  {}

  lemma MixedNotPaired(a: Word32, e: Word32, m: Word32)
    requires PairMask(m) && OneBit(e) && Within(e, m)
    ensures !EveryPairDiffers(Xor(Masked(PairCode(a), m), e), m)
  {}

  // Two ECC bits: with at least three pairs, some pair does not differ.
  lemma TwoEccNotOneBit(e: Word32, f: Word32)
    requires OneBit(e) && OneBit(f) && e != f
    ensures !IsPowerOf2(Xor(e, f))
  {}

  lemma TwoEccNotPaired(e: Word32, f: Word32, m: Word32)
    requires PairMask(m) && OneBit(e) && OneBit(f) && Within(e, m) && Within(f, m)
    ensures !EveryPairDiffers(Xor(e, f), m)
  {}
}
