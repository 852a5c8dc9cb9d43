// What CorrectPage guarantees: which bytes it may change, how it counts, that segments do
// not affect each other, that correcting twice changes nothing, and exactly which damage
// it repairs, notices, or counts.
module PageTheory {
  import opened Words
  import opened DclEcc
  import opened SecDed
  import opened EccFormats
  import opened HardwareEcc
  import opened SpareFlags
  import opened PageEcc

  // ---------- one segment with its stored bytes ----------

  // One wrong bit of a segment: in its data, or in its three stored ECC bytes.
  datatype SegmentFlip = DataFlip(at: nat, bit: Byte) | StoredFlip(mask: Csst) {
    predicate Valid() {
      match this
      case DataFlip(at, bit) => at < SEGMENT && OneBitOfByte(bit)
      case StoredFlip(mask) => OneStoredBit(mask)
    }

    function Report(): EccResult {
      if DataFlip? then DataCorrected else EccCorrected
    }
  }

  datatype Stored = Stored(segment: seq<Byte>, ecc: Csst) {
    predicate Valid() {
      |segment| == SEGMENT
    }

    // The stored ECC is that of the data.
    predicate Intact()
      requires Valid()
    {
      ecc == SegmentEcc(segment)
    }
  }

  function Damage(s: Stored, f: SegmentFlip): (d: Stored)
    requires s.Valid() && f.Valid()
    ensures d.Valid()
  {
    match f
    case DataFlip(at, bit) => Stored(Flip(s.segment, at, bit), s.ecc)
    case StoredFlip(mask) => Stored(s.segment, XorCsst(s.ecc, mask))
  }

  // Reading a segment back: its ECC is calculated from the data that was read, then compared.
  function ReadBack(s: Stored): Outcome
    requires s.Valid()
  {
    CorrectSegment(s.segment, s.ecc, SegmentEcc(s.segment))
  }

  // The block of canonical form that the stored bytes stand for.
  function BlockOf(s: Stored): Block {
    Block(s.segment, CanonicalOf(s.ecc))
  }

  function CanonicalFlip(f: SegmentFlip): BitFlip {
    match f
    case DataFlip(at, bit) => DataBit(at, bit)
    case StoredFlip(mask) => EccBit(Rearranged(mask))
  }

  lemma MaskBits(ecc: Word32)
    requires Within(ecc, 0x00FF_FFFF)
    ensures ecc & 0x00FF_FFFF == ecc
  {}

  // Storing a calculated ECC and reading it back gives the same canonical word.
  lemma StoredEcc(segment: seq<Byte>)
    requires |segment| == SEGMENT
    ensures ValidLength(SEGMENT) && CanonicalOf(SegmentEcc(segment)) == EccOf(segment)
  {
    SegmentLength();
    EccOfWithin(segment);
    CanonicalRoundTrip(EccOf(segment));
    MaskBits(EccOf(segment));
    hide CanonicalOf, CsstOf, EccOf, Within, ValidMask;
  }

  lemma BlockIsValid(s: Stored)
    requires s.Valid()
    ensures BlockOf(s).Valid()
  {
    hide CanonicalOf, Within, ValidMask;
    CanonicalWithin(s.ecc);
  }

  lemma IntactIsConsistent(s: Stored)
    requires s.Valid() && BlockOf(s).Valid()
    ensures s.Intact() <==> BlockOf(s).Consistent()
  {
    hide CanonicalOf, CsstOf, EccOf, Within, ValidMask, SegmentEcc;
    StoredEcc(s.segment);
    CsstRoundTrip(s.ecc);
    CsstRoundTrip(SegmentEcc(s.segment));
  }

  // Correcting the stored bytes is decoding their block.
  lemma ReadBackDecodes(s: Stored)
    requires s.Valid() && BlockOf(s).Valid()
    ensures var c := Decode(BlockOf(s));
            ReadBack(s) == Outcome(c.result, c.data, if c.result == EccCorrected then SegmentEcc(s.segment) else s.ecc)
  {
    hide CanonicalOf, EccOf, EccCorrect, CorrectSegment, Within, ValidMask, SegmentEcc, ValidLength;
    StoredEcc(s.segment);
    CanonicalWithin(s.ecc);
    CanonicalWithin(SegmentEcc(s.segment));
    CorrectSegmentIs(s.segment, s.ecc, SegmentEcc(s.segment));
  }

  lemma XorCsstTwice(c: Csst, m: Csst)
    ensures XorCsst(c, XorCsst(c, m)) == m
    ensures XorCsst(XorCsst(c, m), m) == c
  {}

  lemma XorFromDifference(v: Word32, w: Word32, d: Word32)
    requires Xor(v, w) == d
    ensures w == Xor(v, d)
  {}

  // A flipped stored bit is one flipped canonical bit.
  lemma DamageIsCorruption(s: Stored, f: SegmentFlip)
    requires s.Valid() && f.Valid() && BlockOf(s).Valid()
    ensures CanonicalFlip(f).In(SEGMENT)
    ensures BlockOf(Damage(s, f)) == Corrupt(BlockOf(s), CanonicalFlip(f))
  {
    SegmentLength();
    hide CanonicalOf, Within, ValidMask, ValidLength, OneBit, OneBitOfByte, OneStoredBit, Rearranged, XorCsst, Xor,
         Flip;
    match f
    case DataFlip(at, bit) =>
    case StoredFlip(mask) =>
      OneBitRearranged(mask);
      RearrangedWithin(mask);
      DifferencePreserved(s.ecc, XorCsst(s.ecc, mask));
      XorCsstTwice(s.ecc, mask);
      XorFromDifference(CanonicalOf(s.ecc), CanonicalOf(XorCsst(s.ecc, mask)), Rearranged(mask));
  }

  // An intact segment is accepted; one flipped bit of data or stored ECC is repaired ...
  lemma SegmentSingle(s: Stored, f: SegmentFlip)
    requires s.Valid() && s.Intact() && f.Valid()
    ensures ReadBack(s) == Outcome(DclEcc.Valid, s.segment, s.ecc)
    ensures ReadBack(Damage(s, f)) == Outcome(f.Report(), s.segment, s.ecc)
  {
    hide CanonicalOf, EccOf, Within, ValidMask, ValidLength, SegmentEcc, Decode, OneBitOfByte, OneStoredBit,
         Rearranged, XorCsst, Flip;
    BlockIsValid(s);
    IntactIsConsistent(s);
    ReadBackDecodes(s);
    DecodeConsistent(BlockOf(s));
    var d := Damage(s, f);
    BlockIsValid(d);
    ReadBackDecodes(d);
    DamageIsCorruption(s, f);
    SingleErrorCorrected(BlockOf(s), CanonicalFlip(f));
  }

  // ... and two are reported as uncorrectable, with nothing changed.
  lemma SegmentDouble(s: Stored, f: SegmentFlip, g: SegmentFlip)
    requires s.Valid() && s.Intact() && f.Valid() && g.Valid() && f != g
    ensures var d := Damage(Damage(s, f), g); ReadBack(d) == Outcome(Uncorrectable, d.segment, d.ecc)
  {
    hide CanonicalOf, EccOf, Within, ValidMask, ValidLength, SegmentEcc, Decode, OneBitOfByte, OneStoredBit,
         Rearranged, XorCsst, Flip, Corrupt;
    BlockIsValid(s);
    IntactIsConsistent(s);
    var c := Damage(s, f);
    BlockIsValid(c);
    DamageIsCorruption(s, f);
    var d := Damage(c, g);
    BlockIsValid(d);
    DamageIsCorruption(c, g);
    ReadBackDecodes(d);
    DistinctFlips(f, g);
    DoubleErrorDetected(BlockOf(s), CanonicalFlip(f), CanonicalFlip(g));
  }

  lemma DistinctFlips(f: SegmentFlip, g: SegmentFlip)
    requires f != g
    ensures CanonicalFlip(f) != CanonicalFlip(g)
  {
    hide Rearranged;
    if f.StoredFlip? && g.StoredFlip? { RearrangedDistinct(f.mask, g.mask); }
  }

  // Whatever was read: accepted if and only if intact, and whatever is not reported as
  // uncorrectable is intact afterwards.
  lemma SegmentDecides(s: Stored)
    requires s.Valid()
    ensures ReadBack(s).result == DclEcc.Valid <==> s.Intact()
    ensures var o := ReadBack(s); o.result != Uncorrectable ==> Stored(o.segment, o.stored).Intact()
    ensures var o := ReadBack(s);
            o.result in {DclEcc.Valid, Uncorrectable} ==> o.segment == s.segment && o.stored == s.ecc
  {
    hide CanonicalOf, EccOf, Within, ValidMask, ValidLength, SegmentEcc, Decode, Corrupt;
    BlockIsValid(s);
    IntactIsConsistent(s);
    ReadBackDecodes(s);
    DecodeDecides(BlockOf(s));
    DecodeShape(BlockOf(s));
    var o := ReadBack(s);
    if o.result == DataCorrected {
      BlockIsValid(Stored(o.segment, s.ecc));
      IntactIsConsistent(Stored(o.segment, s.ecc));
    }
  }

  // Only a corrected data bit changes the data, only a corrected ECC the ECC.
  lemma DecodeShape(b: Block)
    requires b.Valid()
    ensures Decode(b).result != DataCorrected ==> Decode(b).data == b.data
    ensures Decode(b).result != EccCorrected ==> Decode(b).ecc == b.ecc
  {
    hide EccOf, ValidMask, Within, Xor, IsPowerOf2, EveryPairDiffers, FlipAddress, BitAddress, Fits;
    EccOfWithin(b.data);
  }

  lemma CanonicalZero(ecc: Word32)
    ensures Xor(0, ecc) == ecc
  {}

  // Every single canonical bit in use is a single stored bit.
  lemma StoredMask(mask: Word32) returns (m: Csst)
    requires OneBit(mask) && Within(mask, 0x00FF_FFFF)
    ensures OneStoredBit(m) && Rearranged(m) == mask
  {
    hide OneBit, Within, OneStoredBit, Rearranged, CanonicalOf, CsstOf, XorCsst, Xor;
    m := XorCsst(CsstOf(0), CsstOf(mask));
    CanonicalRoundTrip(0);
    CanonicalRoundTrip(mask);
    MaskBits(mask);
    DifferencePreserved(CsstOf(0), CsstOf(mask));
    CanonicalZero(mask);
    OneBitRearranged(m);
  }

  lemma StoredFlipOf(s: Stored, f: BitFlip) returns (g: SegmentFlip)
    requires s.Valid() && BlockOf(s).Valid() && f.In(SEGMENT)
    ensures g.Valid() && CanonicalFlip(g) == f
  {
    SegmentLength();
    hide OneBit, OneBitOfByte, OneStoredBit, Within, ValidMask, Rearranged, CanonicalOf;
    match f
    case DataBit(at, bit) => g := DataFlip(at, bit);
    case EccBit(mask) =>
      var m := StoredMask(mask);
      g := StoredFlip(m);
  }

  // A correction is reported exactly for what is one flip away from being intact.
  lemma CorrectedIffOneFlip(s: Stored)
    requires s.Valid()
    ensures ReadBack(s).result in {DataCorrected, EccCorrected}
            <==> exists f: SegmentFlip :: f.Valid() && Damage(s, f).Intact()
  {
    hide CanonicalOf, EccOf, Within, ValidMask, ValidLength, SegmentEcc, Decode, Corrupt, OneBit, OneBitOfByte,
         OneStoredBit, Rearranged, XorCsst, Flip;
    BlockIsValid(s);
    ReadBackDecodes(s);
    DecodeDecides(BlockOf(s));
    if f: SegmentFlip :| f.Valid() && Damage(s, f).Intact() {
      DamageIsCorruption(s, f);
      BlockIsValid(Damage(s, f));
      IntactIsConsistent(Damage(s, f));
    }
    if ReadBack(s).result in {DataCorrected, EccCorrected} {
      var f: BitFlip :| f.In(SEGMENT) && Corrupt(BlockOf(s), f).Consistent();
      var g := StoredFlipOf(s, f);
      DamageIsCorruption(s, g);
      BlockIsValid(Damage(s, g));
      IntactIsConsistent(Damage(s, g));
    }
  }

  // ---------- a page ----------

  function StoredAt(p: Page, k: nat): (s: Stored)
    requires SEGMENT * (k + 1) <= |p.data| && ECC_OFFSET + BYTES_PER_ECC * (k + 1) <= |p.spare|
    ensures s.Valid()
  {
    Stored(SegmentOf(p.data, k), CsstAt(p.spare, ECC_OFFSET + BYTES_PER_ECC * k))
  }

  // Segment k by position.
  lemma StoredAtMeans(p: Page, k: nat)
    requires 512 * (k + 1) <= |p.data| && 4 + 3 * k <= |p.spare|
    ensures StoredAt(p, k) == Stored(p.data[512 * k..512 * (k + 1)],
                                     Csst(p.spare[1 + 3 * k], p.spare[2 + 3 * k], p.spare[3 + 3 * k]))
  {}

  predicate HasSegments(p: Page, n: nat) {
    SEGMENT * n <= |p.data| && ECC_OFFSET + BYTES_PER_ECC * n <= |p.spare|
  }

  // The outcome of a segment depends on that segment, its stored bytes and its calculated
  // bytes only, and is what the repaired page holds there.
  lemma SegmentIsLocal(p: Page, p': Page, calculated: seq<Byte>, calculated': seq<Byte>, n: nat, n': nat, k: nat)
    requires RoomFor(p, calculated, n) && RoomFor(p', calculated', n') && k < n && k < n'
    requires StoredAt(p, k) == StoredAt(p', k)
    requires CsstAt(calculated, BYTES_PER_ECC * k) == CsstAt(calculated', BYTES_PER_ECC * k)
    ensures OutcomeAt(p, calculated, k) == OutcomeAt(p', calculated', k)
    ensures StoredAt(Repaired(p, calculated, n), k) == StoredAt(Repaired(p', calculated', n'), k)
  {
    hide Repaired, CorrectSegment;
    RepairedAt(p, calculated, n, k);
    RepairedAt(p', calculated', n', k);
  }

  lemma SpliceAt(was: seq<Byte>, k: nat, block: seq<Byte>, j: nat)
    requires |block| == SEGMENT && SEGMENT * (k + 1) <= |was| && j <= k
    ensures SegmentOf(Splice(was, SEGMENT * k, block), j) == if j == k then block else SegmentOf(was, j)
  {}

  lemma PutAt(was: seq<Byte>, k: nat, c: Csst, j: nat)
    requires ECC_OFFSET + BYTES_PER_ECC * (k + 1) <= |was| && j <= k
    ensures CsstAt(PutCsst(was, ECC_OFFSET + BYTES_PER_ECC * k, c), ECC_OFFSET + BYTES_PER_ECC * j)
         == if j == k then c else CsstAt(was, ECC_OFFSET + BYTES_PER_ECC * j)
  {}

  lemma {:induction false} RepairedAt(p: Page, calculated: seq<Byte>, n: nat, k: nat)
    requires RoomFor(p, calculated, n) && k < n
    ensures var o := OutcomeAt(p, calculated, k);
            StoredAt(Repaired(p, calculated, n), k) == Stored(o.segment, o.stored)
  {
    hide CorrectSegment, SegmentOf, CsstAt, Splice, PutCsst;
    var q, o := Repaired(p, calculated, n - 1), OutcomeAt(p, calculated, n - 1);
    SpliceAt(q.data, n - 1, o.segment, k);
    PutAt(q.spare, n - 1, o.stored, k);
    if k < n - 1 { RepairedAt(p, calculated, n - 1, k); }
  }

  // Outside the ECC bytes of its segments the spare area is untouched.
  lemma {:induction false} SpareFrame(p: Page, calculated: seq<Byte>, n: nat, i: nat)
    requires RoomFor(p, calculated, n) && i < |p.spare| && (i < ECC_OFFSET || i >= ECC_OFFSET + BYTES_PER_ECC * n)
    ensures Repaired(p, calculated, n).spare[i] == p.spare[i]
  {
    hide CorrectSegment, Splice;
    if n > 0 { SpareFrame(p, calculated, n - 1, i); }
  }

  // ---------- counting ----------

  function GoodOnes(p: Page, calculated: seq<Byte>, n: nat): set<nat>
    requires RoomFor(p, calculated, n)
  {
    set k: nat | k < n && OutcomeAt(p, calculated, k).result != Uncorrectable
  }

  lemma NextGoodOne(p: Page, calculated: seq<Byte>, n: nat)
    requires RoomFor(p, calculated, n + 1)
    ensures GoodOnes(p, calculated, n + 1)
         == GoodOnes(p, calculated, n) + (if OutcomeAt(p, calculated, n).result != Uncorrectable then {n} else {})
    ensures n !in GoodOnes(p, calculated, n)
  {
    hide OutcomeAt;
  }

  // ulCount counts the segments that are not uncorrectable, including those after an
  // uncorrectable one.
  lemma {:induction false} CountsGoodOnes(p: Page, calculated: seq<Byte>, n: nat)
    requires RoomFor(p, calculated, n)
    ensures GoodSegments(p, calculated, n) == |GoodOnes(p, calculated, n)|
  {
    hide OutcomeAt;
    if n == 0 {
      assert GoodOnes(p, calculated, n) == {};
    } else {
      CountsGoodOnes(p, calculated, n - 1);
      NextGoodOne(p, calculated, n - 1);
      hide GoodOnes;
    }
  }

  lemma {:induction false} AllGood(p: Page, calculated: seq<Byte>, n: nat)
    requires RoomFor(p, calculated, n)
    ensures GoodSegments(p, calculated, n) <= n
    ensures GoodSegments(p, calculated, n) == n
       <==> forall k: nat :: k < n ==> OutcomeAt(p, calculated, k).result != Uncorrectable
  {
    hide OutcomeAt;
    if n > 0 { AllGood(p, calculated, n - 1); }
  }

  // ---------- reading a page back ----------

  // The ECC calculated while reading a page.
  function CalculatedFor(p: Page, n: nat): (ecc: seq<Byte>)
    requires HasSegments(p, n)
    ensures |ecc| == BYTES_PER_ECC * n
  {
    EccBytes(p.data, n)
  }

  lemma OutcomeIsReadBack(p: Page, n: nat, k: nat)
    requires HasSegments(p, n) && k < n
    ensures OutcomeAt(p, CalculatedFor(p, n), k) == ReadBack(StoredAt(p, k))
  {
    hide CorrectSegment, SegmentEcc, EccBytes;
    EccBytesAt(p.data, n, k);
  }

  // A page whose outcomes change nothing is left alone.
  lemma {:induction false} NothingToRepair(p: Page, calculated: seq<Byte>, n: nat)
    requires RoomFor(p, calculated, n)
    requires forall k: nat :: k < n ==>
      var o := OutcomeAt(p, calculated, k); o.segment == StoredAt(p, k).segment && o.stored == StoredAt(p, k).ecc
    ensures Repaired(p, calculated, n) == p
  {
    hide CorrectSegment, Splice, PutCsst, OutcomeAt;
    if n > 0 {
      NothingToRepair(p, calculated, n - 1);
      assert SegmentOf(p.data, n - 1) == p.data[SEGMENT * (n - 1)..SEGMENT * (n - 1) + SEGMENT];
      SpliceSame(p.data, SEGMENT * (n - 1), SEGMENT);
      PutSame(p.spare, ECC_OFFSET + BYTES_PER_ECC * (n - 1));
    }
  }

  // Correcting a second time finds every segment as the first time left it: intact, or
  // uncorrectable again.
  lemma OutcomeSettled(p: Page, n: nat, k: nat)
    requires HasSegments(p, n) && k < n
    ensures var q := Repaired(p, CalculatedFor(p, n), n);
            var o, o' := OutcomeAt(p, CalculatedFor(p, n), k), OutcomeAt(q, CalculatedFor(q, n), k);
            && o'.result == (if o.result == Uncorrectable then Uncorrectable else DclEcc.Valid)
            && o'.segment == StoredAt(q, k).segment && o'.stored == StoredAt(q, k).ecc
  {
    hide CorrectSegment, SegmentEcc, Repaired, CalculatedFor, OutcomeAt;
    var q := Repaired(p, CalculatedFor(p, n), n);
    OutcomeIsReadBack(p, n, k);
    OutcomeIsReadBack(q, n, k);
    RepairedAt(p, CalculatedFor(p, n), n, k);
    SegmentDecides(StoredAt(p, k));
    SegmentDecides(StoredAt(q, k));
  }

  // ---------- which spare area a correction leaves ----------

  lemma OneBitMeans(w: Word32)
    ensures OneBit(w) <==> w != 0 && IsPowerOf2(w)
  {}

  // A stored ECC is replaced exactly when it differs from the calculated one in one bit.
  lemma ReplacedIff(segment: seq<Byte>, stored: Csst, calculated: Csst)
    requires |segment| == SEGMENT
    ensures CorrectSegment(segment, stored, calculated).stored
         == if OneStoredBit(XorCsst(calculated, stored)) then calculated else stored
    ensures CorrectSegment(segment, stored, calculated).result == EccCorrected
       <==> OneStoredBit(XorCsst(calculated, stored))
  {
    var syndrome := Xor(CanonicalOf(calculated), CanonicalOf(stored));
    CanonicalWithin(stored);
    CanonicalWithin(calculated);
    CorrectSegmentIs(segment, stored, calculated);
    DifferencePreserved(calculated, stored);
    OneBitRearranged(XorCsst(calculated, stored));
    OneBitMeans(syndrome);
    XorCancels(CanonicalOf(calculated), CanonicalOf(stored));
    hide CanonicalOf, CorrectSegment, Within, ValidMask, ValidLength, OneBit, OneStoredBit, Rearranged, XorCsst, Xor,
         IsPowerOf2, EveryPairDiffers, BitAddress, FlipAddress, Fits;
  }

  // The spare area with every stored ECC replaced that differs from the calculated one in
  // exactly one bit. It is known before the page is corrected.
  function Replaced(spare: seq<Byte>, calculated: seq<Byte>, n: nat): (now: seq<Byte>)
    requires ECC_OFFSET + BYTES_PER_ECC * n <= |spare| && BYTES_PER_ECC * n <= |calculated|
    ensures |now| == |spare|
  {
    if n == 0 then spare
    else
      var stored := CsstAt(spare, ECC_OFFSET + BYTES_PER_ECC * (n - 1));
      var computed := CsstAt(calculated, BYTES_PER_ECC * (n - 1));
      PutCsst(Replaced(spare, calculated, n - 1), ECC_OFFSET + BYTES_PER_ECC * (n - 1),
              if OneStoredBit(XorCsst(computed, stored)) then computed else stored)
  }

  lemma {:induction false} RepairedSpare(p: Page, calculated: seq<Byte>, n: nat)
    requires RoomFor(p, calculated, n)
    ensures Repaired(p, calculated, n).spare == Replaced(p.spare, calculated, n)
  {
    hide CorrectSegment, Splice, PutCsst, SegmentOf, CsstAt, OneStoredBit, XorCsst;
    if n > 0 {
      RepairedSpare(p, calculated, n - 1);
      ReplacedIff(SegmentOf(p.data, n - 1), CsstAt(p.spare, ECC_OFFSET + BYTES_PER_ECC * (n - 1)),
                  CsstAt(calculated, BYTES_PER_ECC * (n - 1)));
    }
  }

  // The page takes the ECC branch, but with those bytes replaced it no longer would.
  predicate LosesBranch(p: Page, calculated: seq<Byte>, n: nat)
    requires RoomFor(p, calculated, n) && |p.spare| > FLAGS_OFFSET
  {
    TakesEcc(p.spare) && !TakesEcc(Replaced(p.spare, calculated, n))
  }

  // While the flag lies outside the ECC bytes, this happens only to pages whose flag does not
  // say that they were written: at least two bits of their ECC range are cleared, and after
  // the replacement at most one is.
  lemma LosesBranchIff(p: Page, calculated: seq<Byte>, n: nat)
    requires RoomFor(p, calculated, n) && |p.spare| > FLAGS_OFFSET && ECC_OFFSET + BYTES_PER_ECC * n <= FLAGS_OFFSET
    ensures LosesBranch(p, calculated, n) <==>
            && !IsWrittenWithEcc(p.spare[FLAGS_OFFSET])
            && TotalOffBits(p.spare[ECC_OFFSET..ECC_OFFSET + ECC_LEN]) > 1
            && TotalOffBits(Replaced(p.spare, calculated, n)[ECC_OFFSET..ECC_OFFSET + ECC_LEN]) <= 1
  {
    hide Replaced, Repaired, IsWrittenWithEcc;
    RepairedSpare(p, calculated, n);
    SpareFrame(p, calculated, n, FLAGS_OFFSET);
  }

  // Reading a corrected page and correcting it again changes nothing and reports no
  // correction. It counts the same segments, unless the replaced ECC bytes make the page
  // look unwritten: then it is accepted as such.
  lemma CorrectionIsIdempotent(p: Page, n: nat)
    requires HasSegments(p, n) && |p.spare| > FLAGS_OFFSET
    ensures var q := PageAfter(p, CalculatedFor(p, n), n);
            PageAfter(q, CalculatedFor(q, n), n) == q
    ensures var was, q := PageStatus(p, CalculatedFor(p, n), n), PageAfter(p, CalculatedFor(p, n), n);
            PageStatus(q, CalculatedFor(q, n), n)
              == if LosesBranch(p, CalculatedFor(p, n), n) then IoStatus(1, FfxstatSuccess, false)
                 else IoStatus(was.ulCount, was.ffxStat, false)
  {
    hide OutcomeAt, Repaired, CalculatedFor, TakesEcc, GoodSegments, Replaced;
    if TakesEcc(p.spare) {
      var q := Repaired(p, CalculatedFor(p, n), n);
      RepairedSpare(p, CalculatedFor(p, n), n);
      forall k: nat | k < n
        ensures var o, o' := OutcomeAt(p, CalculatedFor(p, n), k), OutcomeAt(q, CalculatedFor(q, n), k);
                && o'.result == (if o.result == Uncorrectable then Uncorrectable else DclEcc.Valid)
                && o'.segment == StoredAt(q, k).segment && o'.stored == StoredAt(q, k).ecc
      {
        OutcomeSettled(p, n, k);
      }
      NothingToRepair(q, CalculatedFor(q, n), n);
      SameCount(p, CalculatedFor(p, n), q, CalculatedFor(q, n), n);
    }
  }

  lemma NothingReplaced(spare: seq<Byte>, calculated: seq<Byte>)
    requires ECC_OFFSET + BYTES_PER_ECC <= |spare| && BYTES_PER_ECC <= |calculated|
    ensures OneStoredBit(XorCsst(CsstAt(calculated, 0), CsstAt(spare, ECC_OFFSET)))
         || Replaced(spare, calculated, 1) == spare
  {
    hide OneStoredBit, XorCsst;
    assert Replaced(spare, calculated, 0) == spare;
    PutSame(spare, ECC_OFFSET);
  }

  // So count and status stay the same exactly when the page keeps its branch, or has only
  // one segment.
  lemma SameStatusIff(p: Page, n: nat)
    requires HasSegments(p, n) && |p.spare| > FLAGS_OFFSET && n > 0
    ensures var was, q := PageStatus(p, CalculatedFor(p, n), n), PageAfter(p, CalculatedFor(p, n), n);
            && (PageStatus(q, CalculatedFor(q, n), n) == IoStatus(was.ulCount, was.ffxStat, false)
                <==> n == 1 || !LosesBranch(p, CalculatedFor(p, n), n))
  {
    hide OutcomeAt, Repaired, CalculatedFor, TakesEcc, GoodSegments, Replaced, CorrectSegment, OneStoredBit, XorCsst;
    var calculated := CalculatedFor(p, n);
    CorrectionIsIdempotent(p, n);
    AllGood(p, calculated, n);
    if n == 1 && LosesBranch(p, calculated, n) {
      NothingReplaced(p.spare, calculated);
      OnlySegment(p, calculated);
    }
  }

  lemma OnlySegment(p: Page, calculated: seq<Byte>)
    requires RoomFor(p, calculated, 1) && OneStoredBit(XorCsst(CsstAt(calculated, 0), CsstAt(p.spare, ECC_OFFSET)))
    ensures GoodSegments(p, calculated, 1) == 1
  {
    hide CorrectSegment, OneStoredBit, XorCsst;
    ReplacedIff(SegmentOf(p.data, 0), CsstAt(p.spare, ECC_OFFSET), CsstAt(calculated, 0));
    assert GoodSegments(p, calculated, 0) == 0;
  }

  lemma {:induction false} SameCount(p: Page, calculated: seq<Byte>, q: Page, calculated': seq<Byte>, n: nat)
    requires RoomFor(p, calculated, n) && RoomFor(q, calculated', n)
    requires forall k: nat :: k < n ==>
      (OutcomeAt(p, calculated, k).result == Uncorrectable <==> OutcomeAt(q, calculated', k).result == Uncorrectable)
    ensures GoodSegments(p, calculated, n) == GoodSegments(q, calculated', n)
  {
    hide OutcomeAt;
    if n > 0 { SameCount(p, calculated, q, calculated', n - 1); }
  }

  // Intact, or one flipped bit away from it.
  ghost predicate NearlyIntact(s: Stored)
    requires s.Valid()
  {
    s.Intact() || exists f: SegmentFlip :: f.Valid() && Damage(s, f).Intact()
  }

  lemma UncorrectableIff(s: Stored)
    requires s.Valid()
    ensures ReadBack(s).result == Uncorrectable <==> !NearlyIntact(s)
  {
    hide ReadBack, Damage, SegmentEcc;
    SegmentDecides(s);
    CorrectedIffOneFlip(s);
  }

  // Whatever page is read: success is reported exactly when every segment is within one
  // flipped bit of being intact, and a correction exactly when some segment is one bit away.
  lemma StatusDecides(p: Page, n: nat)
    requires HasSegments(p, n) && |p.spare| > FLAGS_OFFSET && TakesEcc(p.spare)
    ensures var status := PageStatus(p, CalculatedFor(p, n), n);
            && (status.ffxStat == FfxstatSuccess <==> forall k: nat :: k < n ==> NearlyIntact(StoredAt(p, k)))
            && (status.dataCorrected <==>
                  exists k: nat :: k < n && NearlyIntact(StoredAt(p, k)) && !StoredAt(p, k).Intact())
  {
    hide OutcomeAt, CalculatedFor, TakesEcc, GoodSegments, ReadBack, NearlyIntact, StoredAt;
    AllGood(p, CalculatedFor(p, n), n);
    forall k: nat | k < n
      ensures OutcomeAt(p, CalculatedFor(p, n), k).result == Uncorrectable <==> !NearlyIntact(StoredAt(p, k))
      ensures OutcomeAt(p, CalculatedFor(p, n), k).result == DclEcc.Valid <==> StoredAt(p, k).Intact()
    {
      OutcomeIsReadBack(p, n, k);
      UncorrectableIff(StoredAt(p, k));
      SegmentDecides(StoredAt(p, k));
    }
  }

  // After success on the ECC branch every segment is intact.
  lemma SuccessLeavesIntact(p: Page, n: nat)
    requires HasSegments(p, n) && |p.spare| > FLAGS_OFFSET && TakesEcc(p.spare)
    requires PageStatus(p, CalculatedFor(p, n), n).ffxStat == FfxstatSuccess
    ensures AllIntact(PageAfter(p, CalculatedFor(p, n), n), n)
  {
    hide OutcomeAt, CalculatedFor, TakesEcc, GoodSegments, ReadBack, StoredAt, Repaired;
    AllGood(p, CalculatedFor(p, n), n);
    forall k: nat | k < n ensures StoredAt(PageAfter(p, CalculatedFor(p, n), n), k).Intact() {
      OutcomeIsReadBack(p, n, k);
      SegmentDecides(StoredAt(p, k));
      RepairedAt(p, CalculatedFor(p, n), n, k);
    }
  }

  // ---------- damaged pages ----------

  predicate AllIntact(p: Page, n: nat)
    requires HasSegments(p, n)
  {
    forall k: nat :: k < n ==> StoredAt(p, k).Intact()
  }

  ghost predicate AtMostOneFlip(was: Stored, now: Stored)
    requires was.Valid()
  {
    now == was || exists f: SegmentFlip :: f.Valid() && now == Damage(was, f)
  }

  ghost predicate TwoFlips(was: Stored, now: Stored)
    requires was.Valid()
  {
    exists f: SegmentFlip, g: SegmentFlip :: f.Valid() && g.Valid() && f != g && now == Damage(Damage(was, f), g)
  }

  lemma OneFlipOutcome(was: Stored, now: Stored)
    requires was.Valid() && was.Intact() && AtMostOneFlip(was, now)
    ensures now.Valid()
    ensures var o := ReadBack(now);
            && o.result != Uncorrectable && o.segment == was.segment && o.stored == was.ecc
            && (o.result in {DataCorrected, EccCorrected} <==> now != was)
  {
    hide ReadBack, Damage, SegmentEcc;
    SegmentDecides(now);
    if now == was {
    } else {
      var f: SegmentFlip :| f.Valid() && now == Damage(was, f);
      SegmentSingle(was, f);
    }
  }

  lemma TwoFlipsOutcome(was: Stored, now: Stored)
    requires was.Valid() && was.Intact() && TwoFlips(was, now)
    ensures now.Valid() && ReadBack(now) == Outcome(Uncorrectable, now.segment, now.ecc)
  {
    hide ReadBack, Damage, SegmentEcc;
    var f: SegmentFlip, g: SegmentFlip :| f.Valid() && g.Valid() && f != g && now == Damage(Damage(was, f), g);
    SegmentDouble(was, f, g);
  }

  // The page differs from the other in at most two flipped bits per segment.
  ghost predicate Damaged(was: Page, now: Page, n: nat)
    requires HasSegments(was, n) && HasSegments(now, n)
  {
    forall k: nat :: k < n ==>
      AtMostOneFlip(StoredAt(was, k), StoredAt(now, k)) || TwoFlips(StoredAt(was, k), StoredAt(now, k))
  }

  // The segments with two flipped bits.
  ghost function DoublyDamaged(was: Page, now: Page, n: nat): set<nat>
    requires HasSegments(was, n) && HasSegments(now, n)
  {
    set k: nat | k < n && TwoFlips(StoredAt(was, k), StoredAt(now, k))
  }

  lemma DamagedSegment(was: Page, now: Page, n: nat, k: nat)
    requires HasSegments(was, n) && HasSegments(now, n) && AllIntact(was, n) && Damaged(was, now, n) && k < n
    ensures var o := OutcomeAt(now, CalculatedFor(now, n), k);
            && (o.result == Uncorrectable <==> k in DoublyDamaged(was, now, n))
            && (o.result in {DataCorrected, EccCorrected} <==>
                  k !in DoublyDamaged(was, now, n) && StoredAt(now, k) != StoredAt(was, k))
            && Stored(o.segment, o.stored) == (if k in DoublyDamaged(was, now, n) then StoredAt(now, k)
                else StoredAt(was, k))
  {
    hide OutcomeAt, Repaired, CalculatedFor, ReadBack, TwoFlips, AtMostOneFlip, StoredAt;
    OutcomeIsReadBack(now, n, k);
    if TwoFlips(StoredAt(was, k), StoredAt(now, k)) {
      TwoFlipsOutcome(StoredAt(was, k), StoredAt(now, k));
    } else {
      OneFlipOutcome(StoredAt(was, k), StoredAt(now, k));
    }
  }

  // An intact page was damaged and read back. Segments with at most one flipped bit are
  // restored, segments with two are left as they are.
  lemma DamageRepaired(was: Page, now: Page, n: nat, k: nat)
    requires HasSegments(was, n) && HasSegments(now, n) && AllIntact(was, n) && Damaged(was, now, n) && k < n
    requires |now.spare| > FLAGS_OFFSET && TakesEcc(now.spare)
    ensures StoredAt(PageAfter(now, CalculatedFor(now, n), n), k)
         == if k in DoublyDamaged(was, now, n) then StoredAt(now, k) else StoredAt(was, k)
  {
    hide OutcomeAt, Repaired, CalculatedFor, StoredAt, TakesEcc, DoublyDamaged, Damaged;
    DamagedSegment(was, now, n, k);
    RepairedAt(now, CalculatedFor(now, n), n, k);
  }

  function Below(n: nat): (all: set<nat>)
    ensures |all| == n && forall k: nat :: k in all <==> k < n
  {
    if n == 0 then {} else Below(n - 1) + {n - 1}
  }

  lemma DamageCounted(was: Page, now: Page, n: nat)
    requires HasSegments(was, n) && HasSegments(now, n) && AllIntact(was, n) && Damaged(was, now, n)
    ensures GoodSegments(now, CalculatedFor(now, n), n) == n - |DoublyDamaged(was, now, n)|
  {
    hide OutcomeAt, CalculatedFor, StoredAt, Damaged, GoodSegments, AllIntact;
    var calculated, double, all := CalculatedFor(now, n), DoublyDamaged(was, now, n), Below(n);
    forall k: nat | k < n ensures OutcomeAt(now, calculated, k).result == Uncorrectable <==> k in double {
      DamagedSegment(was, now, n, k);
    }
    CountsGoodOnes(now, calculated, n);
    assert GoodOnes(now, calculated, n) == all - double;
    assert double <= all;
  }

  // Only the others are counted; success means there are no segments with two flipped bits;
  // and the page is flagged as corrected exactly when some segment had one.
  lemma DamageReported(was: Page, now: Page, n: nat)
    requires HasSegments(was, n) && HasSegments(now, n) && AllIntact(was, n) && Damaged(was, now, n)
    requires |now.spare| > FLAGS_OFFSET && TakesEcc(now.spare)
    ensures var status := PageStatus(now, CalculatedFor(now, n), n); var double := DoublyDamaged(was, now, n);
            && status.ulCount == n - |double|
            && (status.ffxStat == FfxstatSuccess <==> double == {})
            && (status.dataCorrected <==>
                 exists k: nat :: k < n && k !in double && StoredAt(now, k) != StoredAt(was, k))
  {
    hide OutcomeAt, CalculatedFor, StoredAt, Damaged, GoodSegments, AllIntact, TakesEcc, DoublyDamaged;
    var calculated := CalculatedFor(now, n);
    DamageCounted(was, now, n);
    forall k: nat | k < n
      ensures OutcomeAt(now, calculated, k).result in {DataCorrected, EccCorrected}
              <==> k !in DoublyDamaged(was, now, n) && StoredAt(now, k) != StoredAt(was, k)
    {
      DamagedSegment(was, now, n, k);
    }
  }

  // Equal segments make equal data.
  lemma SameSegments(d: seq<Byte>, e: seq<Byte>, n: nat)
    requires |d| == |e| == SEGMENT * n
    requires forall k: nat :: k < n ==> SegmentOf(d, k) == SegmentOf(e, k)
    ensures d == e
  {
    forall i | 0 <= i < |d| ensures d[i] == e[i] {
      var k := i / SEGMENT;
      assert SegmentOf(d, k)[i - SEGMENT * k] == d[i];
      assert SegmentOf(e, k)[i - SEGMENT * k] == e[i];
    }
  }
}
