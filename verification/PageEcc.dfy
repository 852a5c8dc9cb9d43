// Page correction and the software ECC path of fhecc.c. A page is a row of 512-byte
// segments, each with three ECC bytes in the spare area.
module PageEcc {
  import opened Words
  import opened Bits
  import opened DclEcc
  import opened EccFormats
  import opened HardwareEcc
  import opened SpareFlags

  const BYTES_PER_ECC := 3
  const DATA_BYTES_PER_ECC := 256
  const NAND512_SPARE := 16
  const ECC_OFFSET := 1
  const ECC_LEN := 12
  const FLAGS_OFFSET := 32
  const TAG_OFFSET := 38
  const LEGACY_ENCODED_TAG_SIZE := 4

  // ---------- segments and their ECC bytes ----------

  function SegmentOf(data: seq<Byte>, k: nat): (segment: seq<Byte>)
    requires SEGMENT * (k + 1) <= |data|
    ensures |segment| == SEGMENT
  {
    data[SEGMENT * k..SEGMENT * (k + 1)]
  }

  function CsstAt(bytes: seq<Byte>, at: nat): Csst
    requires at + BYTES_PER_ECC <= |bytes|
  {
    Csst(bytes[at], bytes[at + 1], bytes[at + 2])
  }

  function PutCsst(bytes: seq<Byte>, at: nat, c: Csst): (now: seq<Byte>)
    requires at + BYTES_PER_ECC <= |bytes|
    ensures |now| == |bytes|
  {
    bytes[at := c.b0][at + 1 := c.b1][at + 2 := c.b2]
  }

  // The three bytes stored for a segment.
  function SegmentEcc(segment: seq<Byte>): Csst
    requires |segment| == SEGMENT
  {
    SegmentLength();
    CsstOf(EccOf(segment))
  }

  // The bytes stored for the first n segments.
  function EccBytes(data: seq<Byte>, n: nat): (ecc: seq<Byte>)
    requires SEGMENT * n <= |data|
    ensures |ecc| == BYTES_PER_ECC * n
  {
    if n == 0 then []
    else
      var c := SegmentEcc(SegmentOf(data, n - 1));
      EccBytes(data, n - 1) + [c.b0, c.b1, c.b2]
  }

  lemma {:induction false} EccBytesAt(data: seq<Byte>, n: nat, k: nat)
    requires SEGMENT * n <= |data| && k < n
    ensures CsstAt(EccBytes(data, n), BYTES_PER_ECC * k) == SegmentEcc(SegmentOf(data, k))
  {
    hide SegmentEcc;
    if k < n - 1 { EccBytesAt(data, n - 1, k); }
  }

  lemma AppendCsst(ecc: seq<Byte>, rest: seq<Byte>, c: Csst)
    requires |rest| >= BYTES_PER_ECC
    ensures PutCsst(ecc + rest, |ecc|, c) == ecc + [c.b0, c.b1, c.b2] + rest[BYTES_PER_ECC..]
  {}

  // Storing the ECC of the next segment extends the bytes by that segment's.
  lemma NextEccBytes(data: seq<Byte>, k: nat, was: seq<Byte>)
    requires SEGMENT * (k + 1) <= |data| && BYTES_PER_ECC * (k + 1) <= |was|
    ensures PutCsst(EccBytes(data, k) + was[BYTES_PER_ECC * k..], BYTES_PER_ECC * k, SegmentEcc(SegmentOf(data, k)))
         == EccBytes(data, k + 1) + was[BYTES_PER_ECC * (k + 1)..]
  {
    hide PutCsst, SegmentEcc;
    AppendCsst(EccBytes(data, k), was[BYTES_PER_ECC * k..], SegmentEcc(SegmentOf(data, k)));
    assert was[BYTES_PER_ECC * k..][BYTES_PER_ECC..] == was[BYTES_PER_ECC * (k + 1)..];
  }

  // One round of the loop of FfxHookEccCalcRead: the ECC of segment k.
  method CalcOne(pData: array<Byte>, dataAt: nat, pabECC: array<Byte>, eccAt: nat, ghost k: nat)
    requires dataAt == SEGMENT * k && dataAt + SEGMENT <= pData.Length
    requires eccAt + BYTES_PER_ECC <= pabECC.Length && pabECC != pData
    modifies pabECC
    ensures pabECC[..] == PutCsst(old(pabECC[..]), eccAt, SegmentEcc(SegmentOf(pData[..], k)))
  {
    SegmentLength();
    hide EccOf, CsstOf, ValidLength, PowerOfTwo;
    var ulECC := DclEccCalculate(pData, dataAt, DATA_BYTES_PER_ECC * 2);
    assert pData[dataAt..dataAt + SEGMENT] == SegmentOf(pData[..], k);
    CanonicalToCSST(ulECC, pabECC, eccAt);
  }

  // FfxHookEccCalcRead without the ECC hardware.
  method SoftwareEccCalcRead(pData: array<Byte>, nLength: nat, pabECC: array<Byte>)
    requires nLength > 0 && nLength % SEGMENT == 0 && nLength <= pData.Length
    requires BYTES_PER_ECC * (nLength / SEGMENT) <= pabECC.Length && pabECC != pData
    modifies pabECC
    ensures pabECC[..] == EccBytes(pData[..], nLength / SEGMENT) + old(pabECC[BYTES_PER_ECC * (nLength / SEGMENT)..])
  {
    hide EccBytes, SegmentEcc, SegmentOf, PutCsst;
    ghost var was, data, n := pabECC[..], pData[..], nLength / SEGMENT;
    var left := nLength;
    ghost var k := 0;
    var dataAt, eccAt := 0, 0;
    while left != 0
      invariant k <= n && left == SEGMENT * (n - k) && dataAt == SEGMENT * k && eccAt == BYTES_PER_ECC * k
      invariant pabECC[..] == EccBytes(data, k) + was[BYTES_PER_ECC * k..]
      decreases left
    {
      NextEccBytes(data, k, was);
      CalcOne(pData, dataAt, pabECC, eccAt, k);
      left := left - DATA_BYTES_PER_ECC * 2;
      dataAt := dataAt + DATA_BYTES_PER_ECC * 2;
      eccAt := eccAt + BYTES_PER_ECC;
      k := k + 1;
    }
  }

  // One round of the loop on its unsigned 32-bit counter: 512 is subtracted, wrapping around.
  function LengthNext(left: nat): nat {
    (left - SEGMENT) % 0x1_0000_0000
  }

  // The counter after i rounds.
  function LengthLeft(nLength: nat, i: nat): nat {
    if i == 0 then nLength else LengthNext(LengthLeft(nLength, i - 1))
  }

  // Subtracting in turns is subtracting at once, some multiple of 2^32 aside.
  lemma {:induction false} LengthLost(nLength: nat, i: nat) returns (wraps: nat)
    requires nLength < 0x1_0000_0000
    ensures LengthLeft(nLength, i) < 0x1_0000_0000
    ensures LengthLeft(nLength, i) == nLength - SEGMENT * i + 0x1_0000_0000 * wraps
    ensures SEGMENT * i <= nLength ==> wraps == 0
  {
    wraps := 0;
    if i > 0 {
      wraps := LengthLost(nLength, i - 1);
      if LengthLeft(nLength, i - 1) < SEGMENT { wraps := wraps + 1; }
    }
  }

  // The loop's counter reaches zero exactly for multiples of 512, although the code only
  // asserts a multiple of 256: any other length wraps around forever.
  lemma CalcReadTerminates(nLength: nat)
    requires nLength < 0x1_0000_0000
    ensures (exists i: nat :: LengthLeft(nLength, i) == 0) <==> nLength % SEGMENT == 0
  {
    if nLength % SEGMENT == 0 {
      var wraps := LengthLost(nLength, nLength / SEGMENT);
      assert LengthLeft(nLength, nLength / SEGMENT) == 0;
    }
    if i: nat :| LengthLeft(nLength, i) == 0 {
      var wraps := LengthLost(nLength, i);
      assert nLength == SEGMENT * (i - 0x80_0000 * wraps);
    }
  }

  // For those it does so after one round for each segment, and not before.
  lemma CalcReadRounds(nLength: nat, i: nat)
    requires nLength < 0x1_0000_0000 && nLength % SEGMENT == 0 && i <= nLength / SEGMENT
    ensures LengthLeft(nLength, i) == 0 <==> i == nLength / SEGMENT
  {
    var wraps := LengthLost(nLength, i);
  }

  // ---------- correction of one segment ----------

  datatype Outcome = Outcome(result: EccResult, segment: seq<Byte>, stored: Csst)

  // DclEccCorrect asserts that neither ECC has bits outside the ones in use; no stored bytes do.
  lemma CanonicalWithin(c: Csst)
    ensures ValidLength(SEGMENT) && Within(CanonicalOf(c), ValidMask(SEGMENT))
  {
    SegmentLength();
    InterleavedWithin(Invert(EvenOf(c)), Invert(OddOf(c)));
    hide Within, ValidMask, Interleave, Invert, EvenOf, OddOf;
  }

  lemma InterleavedWithin(even: Word32, odd: Word32)
    ensures Within(Interleave(even, odd), 0x00FF_FFFF)
  {}

  // What becomes of a segment and of its stored ECC, given the ECC calculated on reading.
  function CorrectSegment(segment: seq<Byte>, stored: Csst, calculated: Csst): (o: Outcome)
    requires |segment| == SEGMENT
    ensures |o.segment| == SEGMENT
  {
    CanonicalWithin(stored);
    CanonicalWithin(calculated);
    var c := EccCorrect(segment, CanonicalOf(stored), CanonicalOf(calculated));
    Outcome(c.result, c.data, if c.result == EccCorrected then calculated else stored)
  }

  lemma CorrectSegmentIs(segment: seq<Byte>, stored: Csst, calculated: Csst)
    requires |segment| == SEGMENT && ValidLength(SEGMENT)
    requires Within(CanonicalOf(stored), ValidMask(SEGMENT)) && Within(CanonicalOf(calculated), ValidMask(SEGMENT))
    ensures var c := EccCorrect(segment, CanonicalOf(stored), CanonicalOf(calculated));
            CorrectSegment(segment, stored, calculated)
              == Outcome(c.result, c.data, if c.result == EccCorrected then calculated else stored)
  {
    hide CanonicalOf, EccCorrect, Within, ValidMask, ValidLength;
  }

  // ---------- correction of a page ----------

  datatype FfxStat = FfxstatSuccess | FfxstatFimUncorrectableData | FfxstatFimTimeout

  // dataCorrected is the flag PAGESTATUS_DATACORRECTED of the page status.
  datatype IoStatus = IoStatus(ulCount: nat, ffxStat: FfxStat, dataCorrected: bool)

  datatype Page = Page(data: seq<Byte>, spare: seq<Byte>)

  // Room for n segments, their stored ECC, and their calculated ECC.
  predicate RoomFor(p: Page, calculated: seq<Byte>, n: nat) {
    && SEGMENT * n <= |p.data|
    && ECC_OFFSET + BYTES_PER_ECC * n <= |p.spare|
    && BYTES_PER_ECC * n <= |calculated|
  }

  function OutcomeAt(p: Page, calculated: seq<Byte>, k: nat): Outcome
    requires RoomFor(p, calculated, k + 1)
  {
    CorrectSegment(SegmentOf(p.data, k),
                   CsstAt(p.spare, ECC_OFFSET + BYTES_PER_ECC * k),
                   CsstAt(calculated, BYTES_PER_ECC * k))
  }

  // The page with the outcome of segment k written back.
  function WriteBack(p: Page, k: nat, o: Outcome): (q: Page)
    requires SEGMENT * (k + 1) <= |p.data| && ECC_OFFSET + BYTES_PER_ECC * (k + 1) <= |p.spare|
    requires |o.segment| == SEGMENT
    ensures |q.data| == |p.data| && |q.spare| == |p.spare|
  {
    Page(Splice(p.data, SEGMENT * k, o.segment), PutCsst(p.spare, ECC_OFFSET + BYTES_PER_ECC * k, o.stored))
  }

  // The page after its first n segments have been corrected, each from what was read.
  function Repaired(p: Page, calculated: seq<Byte>, n: nat): (q: Page)
    requires RoomFor(p, calculated, n)
    ensures |q.data| == |p.data| && |q.spare| == |p.spare|
  {
    if n == 0 then p
    else WriteBack(Repaired(p, calculated, n - 1), n - 1, OutcomeAt(p, calculated, n - 1))
  }

  // Segments among the first n that are not uncorrectable.
  function GoodSegments(p: Page, calculated: seq<Byte>, n: nat): nat
    requires RoomFor(p, calculated, n)
  {
    if n == 0 then 0
    else GoodSegments(p, calculated, n - 1) + (if OutcomeAt(p, calculated, n - 1).result == Uncorrectable then 0 else 1)
  }

  predicate Touched(p: Page, calculated: seq<Byte>, n: nat)
    requires RoomFor(p, calculated, n)
  {
    exists k :: 0 <= k < n && OutcomeAt(p, calculated, k).result in {DataCorrected, EccCorrected}
  }

  // The ECC of the page is looked at: its flag says so, or its ECC range is not erased.
  predicate TakesEcc(spare: seq<Byte>)
    requires |spare| > FLAGS_OFFSET
  {
    IsWrittenWithEcc(spare[FLAGS_OFFSET]) || !RangeErased1Bit(spare[ECC_OFFSET..ECC_OFFSET + ECC_LEN])
  }

  // The assertion DclAssert(ISUNWRITTEN(..)) of the branch without ECC, where it is reached.
  predicate UnwrittenAsserted(spare: seq<Byte>)
    requires |spare| > FLAGS_OFFSET
  {
    TakesEcc(spare) || AtMostOneBit(XorByte(spare[FLAGS_OFFSET], LEGACY_UNWRITTEN))
  }

  // Both by position and bit: the flag is byte 32, and taken for written when no two of its
  // bits are wrong; the ECC range is bytes 1 to 12, and looked at unless no two of its bits
  // are cleared.
  lemma BranchMeans(spare: seq<Byte>)
    requires |spare| > 32
    ensures TakesEcc(spare)
       <==> || !AtMostOneClear(spare[1..13])
            || forall j: nat, j': nat ::
                 j < 8 && j' < 8 && NotAsWritten(spare[32], j) && NotAsWritten(spare[32], j') ==> j == j'
    ensures UnwrittenAsserted(spare)
       <==> || TakesEcc(spare)
            || forall j: nat, j': nat ::
                 j < 8 && j' < 8 && !HasBit(spare[32], j) && !HasBit(spare[32], j') ==> j == j'
  {
    WrittenFlag(spare[32]);
    UnwrittenFlag(spare[32]);
    UnwrittenMeans(spare[32]);
    RangeErasedMeans(spare[1..13]);
    hide IsWrittenWithEcc, IsUnwritten, AtMostOneBit, XorByte, RangeErased1Bit, AtMostOneClear, NotAsWritten, HasBit;
  }

  function PageStatus(p: Page, calculated: seq<Byte>, n: nat): IoStatus
    requires RoomFor(p, calculated, n) && |p.spare| > FLAGS_OFFSET
  {
    if TakesEcc(p.spare) then
      IoStatus(GoodSegments(p, calculated, n),
               if GoodSegments(p, calculated, n) == n then FfxstatSuccess else FfxstatFimUncorrectableData,
               Touched(p, calculated, n))
    else
      IoStatus(1, FfxstatSuccess, false)
  }

  function PageAfter(p: Page, calculated: seq<Byte>, n: nat): Page
    requires RoomFor(p, calculated, n) && |p.spare| > FLAGS_OFFSET
  {
    if TakesEcc(p.spare) then Repaired(p, calculated, n) else p
  }

  lemma SpliceBeyond(was: seq<Byte>, offset: nat, block: seq<Byte>, from: nat)
    requires offset + |block| <= from <= |was|
    ensures Splice(was, offset, block)[from..] == was[from..]
  {}

  lemma PutBeyond(was: seq<Byte>, at: nat, c: Csst, from: nat)
    requires at + BYTES_PER_ECC <= from <= |was|
    ensures PutCsst(was, at, c)[from..] == was[from..]
  {}

  lemma SuffixOf(s: seq<Byte>, t: seq<Byte>, from: nat, later: nat)
    requires |s| == |t| && from <= later <= |s| && s[from..] == t[from..]
    ensures s[later..] == t[later..]
  {
    assert s[later..] == s[from..][later - from..];
    assert t[later..] == t[from..][later - from..];
  }

  // Correcting the first n segments leaves the rest of the page as it was read.
  lemma {:induction false} RestUntouched(p: Page, calculated: seq<Byte>, n: nat)
    requires RoomFor(p, calculated, n)
    ensures var q := Repaired(p, calculated, n);
            && q.data[SEGMENT * n..] == p.data[SEGMENT * n..]
            && q.spare[ECC_OFFSET + BYTES_PER_ECC * n..] == p.spare[ECC_OFFSET + BYTES_PER_ECC * n..]
  {
    hide CorrectSegment, Splice, PutCsst;
    if n > 0 {
      RestUntouched(p, calculated, n - 1);
      var q, o := Repaired(p, calculated, n - 1), OutcomeAt(p, calculated, n - 1);
      SpliceBeyond(q.data, SEGMENT * (n - 1), o.segment, SEGMENT * n);
      PutBeyond(q.spare, ECC_OFFSET + BYTES_PER_ECC * (n - 1), o.stored, ECC_OFFSET + BYTES_PER_ECC * n);
      SuffixOf(q.data, p.data, SEGMENT * (n - 1), SEGMENT * n);
      SuffixOf(q.spare, p.spare, ECC_OFFSET + BYTES_PER_ECC * (n - 1), ECC_OFFSET + BYTES_PER_ECC * n);
    }
  }

  lemma SameTriple(s: seq<Byte>, t: seq<Byte>, at: nat)
    requires at + BYTES_PER_ECC <= |s| == |t| && s[at..] == t[at..]
    ensures CsstAt(s, at) == CsstAt(t, at)
  {
    forall i | at <= i < |s| ensures s[i] == t[i] {
      assert s[i] == s[at..][i - at];
    }
  }

  // So every segment is corrected from what was read.
  lemma NextAsRead(p: Page, calculated: seq<Byte>, k: nat)
    requires RoomFor(p, calculated, k + 1)
    ensures var q := Repaired(p, calculated, k);
            && SegmentOf(q.data, k) == SegmentOf(p.data, k)
            && CsstAt(q.spare, ECC_OFFSET + BYTES_PER_ECC * k) == CsstAt(p.spare, ECC_OFFSET + BYTES_PER_ECC * k)
  {
    hide Repaired;
    RestUntouched(p, calculated, k);
    var q := Repaired(p, calculated, k);
    assert SegmentOf(q.data, k) == q.data[SEGMENT * k..][..SEGMENT];
    assert SegmentOf(p.data, k) == p.data[SEGMENT * k..][..SEGMENT];
    var at := ECC_OFFSET + BYTES_PER_ECC * k;
    SameTriple(q.spare, p.spare, at);
  }

  lemma PutSame(was: seq<Byte>, at: nat)
    requires at + BYTES_PER_ECC <= |was|
    ensures PutCsst(was, at, CsstAt(was, at)) == was
  {}

  // DclMemCpy of BYTES_PER_ECC bytes.
  method CopyEcc(pSpare: array<Byte>, nIndex: nat, pabECC: array<Byte>, eccAt: nat)
    requires pSpare != pabECC && nIndex + BYTES_PER_ECC <= pSpare.Length && eccAt + BYTES_PER_ECC <= pabECC.Length
    modifies pSpare
    ensures pSpare[..] == PutCsst(old(pSpare[..]), nIndex, CsstAt(pabECC[..], eccAt))
  {
    pSpare[nIndex] := pabECC[eccAt];
    pSpare[nIndex + 1] := pabECC[eccAt + 1];
    pSpare[nIndex + 2] := pabECC[eccAt + 2];
  }

  // One round of the loop of CorrectPage: segment k of the page.
  method CorrectOne(pData: array<Byte>, pSpare: array<Byte>, pabECC: array<Byte>, dataAt: nat, nIndex: nat,
          eccAt: nat, ghost k: nat)
    returns (iResult: EccResult)
    requires pSpare != pabECC && pData != pabECC && pData != pSpare
    requires dataAt == SEGMENT * k && nIndex == ECC_OFFSET + BYTES_PER_ECC * k && eccAt == BYTES_PER_ECC * k
    requires RoomFor(Page(pData[..], pSpare[..]), pabECC[..], k + 1)
    modifies pData, pSpare
    ensures var p := old(Page(pData[..], pSpare[..]));
            && iResult == OutcomeAt(p, pabECC[..], k).result
            && Page(pData[..], pSpare[..]) == WriteBack(p, k, OutcomeAt(p, pabECC[..], k))
  {
    ghost var p := Page(pData[..], pSpare[..]);
    ghost var segment := SegmentOf(pData[..], k);
    ghost var stored, calculated := CsstAt(pSpare[..], nIndex), CsstAt(pabECC[..], eccAt);
    assert pData[dataAt..dataAt + SEGMENT] == segment;
    CanonicalWithin(stored);
    CanonicalWithin(calculated);
    PutSame(p.spare, nIndex);
    CorrectSegmentIs(segment, stored, calculated);
    hide CanonicalOf, EccCorrect, CorrectSegment, Splice, PutCsst, Within, ValidMask, ValidLength, PowerOfTwo;
    var ulOldECC := CSSTToCanonical(pSpare, nIndex);
    var ulNewECC := CSSTToCanonical(pabECC, eccAt);
    iResult, ulOldECC := DclEccCorrect(pData, dataAt, DATA_BYTES_PER_ECC * 2, ulOldECC, ulNewECC);
    if iResult == EccCorrected {
      CopyEcc(pSpare, nIndex, pabECC, eccAt);
    }
  }

  // fAssert tells whether the assertion about the flag holds where it is evaluated; a build
  // without assertions goes on regardless, as the method does.
  method CorrectPage(uSpareSize: nat, pData: array<Byte>, pSpare: array<Byte>, pabECC: array<Byte>)
    returns (ioStat: IoStatus, fAssert: bool)
    requires uSpareSize > 0 && uSpareSize % NAND512_SPARE == 0
    requires pSpare != pabECC && pData != pabECC && pData != pSpare
    requires RoomFor(Page(pData[..], pSpare[..]), pabECC[..], uSpareSize / NAND512_SPARE)
        && pSpare.Length > FLAGS_OFFSET
    modifies pData, pSpare
    ensures var p := old(Page(pData[..], pSpare[..]));
            && ioStat == PageStatus(p, pabECC[..], uSpareSize / NAND512_SPARE)
            && Page(pData[..], pSpare[..]) == PageAfter(p, pabECC[..], uSpareSize / NAND512_SPARE)
            && fAssert == UnwrittenAsserted(p.spare)
  {
    hide OutcomeAt, WriteBack, IsWrittenWithEcc, IsUnwritten, AtMostOneBit, XorByte, RangeErased1Bit, Touched,
         Repaired, GoodSegments;
    UnwrittenMeans(pSpare[FLAGS_OFFSET]);
    fAssert := true;
    ghost var p, calculated := Page(pData[..], pSpare[..]), pabECC[..];
    ghost var n := uSpareSize / NAND512_SPARE;
    ioStat := IoStatus(0, FfxstatFimUncorrectableData, false);
    NothingTouched(p, calculated);
    var erased := FfxNtmHelpIsRangeErased1Bit(pSpare, ECC_OFFSET, ECC_LEN);
    if IsWrittenWithEcc(pSpare[FLAGS_OFFSET]) || !erased {
      var left := uSpareSize;
      var fUncorrectableError := false;
      var nIndex, dataAt, eccAt := ECC_OFFSET, 0, 0;
      ghost var k := 0;
      while left != 0
        invariant k <= n && left == uSpareSize - NAND512_SPARE * k
        invariant nIndex == ECC_OFFSET + BYTES_PER_ECC * k && dataAt == SEGMENT * k && eccAt == BYTES_PER_ECC * k
        invariant Page(pData[..], pSpare[..]) == Repaired(p, calculated, k)
        invariant ioStat.ulCount == GoodSegments(p, calculated, k) && ioStat.dataCorrected == Touched(p, calculated, k)
        invariant ioStat.ffxStat == FfxstatFimUncorrectableData
        invariant fUncorrectableError <==> GoodSegments(p, calculated, k) < k
        invariant GoodSegments(p, calculated, k) <= k
        decreases left
      {
        NextAsRead(p, calculated, k);
        OutcomeAsRead(p, Repaired(p, calculated, k), calculated, k);
        NextRound(p, calculated, k);
        var iResult := CorrectOne(pData, pSpare, pabECC, dataAt, nIndex, eccAt, k);
        if iResult == Uncorrectable {
          fUncorrectableError := true;
        } else {
          if iResult == DataCorrected || iResult == EccCorrected {
            ioStat := ioStat.(dataCorrected := true);
          }
          ioStat := ioStat.(ulCount := ioStat.ulCount + 1);
        }
        dataAt := dataAt + DATA_BYTES_PER_ECC * 2;
        eccAt := eccAt + BYTES_PER_ECC;
        nIndex := nIndex + BYTES_PER_ECC;
        left := left - NAND512_SPARE;
        k := k + 1;
      }
      if !fUncorrectableError {
        ioStat := ioStat.(ffxStat := FfxstatSuccess);
      }
    } else {
      fAssert := IsUnwritten(pSpare[FLAGS_OFFSET]);
      ioStat := IoStatus(1, FfxstatSuccess, ioStat.dataCorrected);
    }
  }

  lemma OutcomeAsRead(p: Page, q: Page, calculated: seq<Byte>, k: nat)
    requires RoomFor(p, calculated, k + 1) && |q.data| == |p.data| && |q.spare| == |p.spare|
    requires SegmentOf(q.data, k) == SegmentOf(p.data, k)
    requires CsstAt(q.spare, ECC_OFFSET + BYTES_PER_ECC * k) == CsstAt(p.spare, ECC_OFFSET + BYTES_PER_ECC * k)
    ensures OutcomeAt(q, calculated, k) == OutcomeAt(p, calculated, k)
  {}

  lemma NothingTouched(p: Page, calculated: seq<Byte>)
    requires RoomFor(p, calculated, 0)
    ensures !Touched(p, calculated, 0) && Repaired(p, calculated, 0) == p && GoodSegments(p, calculated, 0) == 0
  {}

  lemma NextRound(p: Page, calculated: seq<Byte>, k: nat)
    requires RoomFor(p, calculated, k + 1)
    ensures Repaired(p, calculated, k + 1) == WriteBack(Repaired(p, calculated, k), k, OutcomeAt(p, calculated, k))
    ensures GoodSegments(p, calculated, k + 1)
         == GoodSegments(p, calculated, k) + (if OutcomeAt(p, calculated, k).result == Uncorrectable then 0 else 1)
    ensures Touched(p, calculated, k + 1)
       <==> Touched(p, calculated, k) || OutcomeAt(p, calculated, k).result in {DataCorrected, EccCorrected}
  {
    hide OutcomeAt, WriteBack;
  }

  // The entry point adds only the spare size of the supported chips.
  method FfxHookEccCorrectPage(pData: array<Byte>, pSpare: array<Byte>, pabECC: array<Byte>, uSpareSize: nat)
    returns (ioStat: IoStatus, fAssert: bool)
    requires uSpareSize == 64
    requires pSpare != pabECC && pData != pabECC && pData != pSpare
    requires pData.Length >= 4 * SEGMENT && pSpare.Length >= uSpareSize && pabECC.Length >= ECC_LEN
    modifies pData, pSpare
    ensures var p := old(Page(pData[..], pSpare[..]));
            && ioStat == PageStatus(p, pabECC[..], 4) && fAssert == UnwrittenAsserted(p.spare)
            && Page(pData[..], pSpare[..]) == PageAfter(p, pabECC[..], 4)
  {
    ioStat, fAssert := CorrectPage(uSpareSize, pData, pSpare, pabECC);
  }
}
