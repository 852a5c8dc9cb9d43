// The whole pipeline: a page is written with its ECC, bits flip on the medium, the page is
// read back, and CorrectPage puts it right.
module EndToEnd {
  import opened Words
  import opened DclEcc
  import opened EccMeaning
  import opened ErasedPage
  import opened SpareFlags
  import opened PageEcc
  import opened PageTheory
  import opened Micron

  const SEGMENTS := 4
  const PAGE_BYTES := 2048
  const SPARE_BYTES := 64

  // What PageWrite hands to the device for a page of four segments.
  function Written(data: seq<Byte>, spare: seq<Byte>): (p: Page)
    requires |data| == PAGE_BYTES && |spare| == SPARE_BYTES
    ensures HasSegments(p, SEGMENTS) && |p.data| == PAGE_BYTES && |p.spare| == SPARE_BYTES
  {
    Page(data, WrittenSpare(spare, EccBytes(data, SEGMENTS)))
  }

  // A written page is intact.
  lemma WrittenIsIntact(data: seq<Byte>, spare: seq<Byte>)
    requires |data| == PAGE_BYTES && |spare| == SPARE_BYTES
    ensures AllIntact(Written(data, spare), SEGMENTS)
  {
    hide SegmentEcc, EccBytes;
    forall k: nat | k < SEGMENTS ensures StoredAt(Written(data, spare), k).Intact() {
      EccBytesAt(data, SEGMENTS, k);
      SpliceCsst(spare, EccBytes(data, SEGMENTS), k);
    }
  }

  // By position: the data as given, the flag at byte 32, three ECC bytes for each 512 data
  // bytes from byte 1 on, and every other spare byte, the tag among them, as it was.
  lemma WrittenLayout(data: seq<Byte>, spare: seq<Byte>, i: nat, k: nat)
    requires |data| == 2048 && |spare| == 64 && i < 64 && k < 4
    ensures Written(data, spare).data == data
    ensures var now, c := Written(data, spare).spare, SegmentEcc(data[512 * k..512 * (k + 1)]);
            && now[32] == 0x0F && now[1 + 3 * k] == c.b0 && now[2 + 3 * k] == c.b1 && now[3 + 3 * k] == c.b2
            && (i == 0 || (13 <= i && i != 32) ==> now[i] == spare[i])
            && now[38..42] == spare[38..42]
  {
    hide SegmentEcc, EccBytes, WrittenSpare;
    WrittenSpareAt(spare, EccBytes(data, SEGMENTS));
    EccBytesAt(data, SEGMENTS, k);
  }

  lemma SpliceCsst(spare: seq<Byte>, ecc: seq<Byte>, k: nat)
    requires |spare| == SPARE_BYTES && |ecc| == ECC_LEN && k < SEGMENTS
    ensures CsstAt(WrittenSpare(spare, ecc), ECC_OFFSET + BYTES_PER_ECC * k) == CsstAt(ecc, BYTES_PER_ECC * k)
  {}

  // The page's flag still says it was written, whatever its ECC bytes are, even all 0xFF.
  lemma WrittenTakesEcc(spare: seq<Byte>)
    requires |spare| > FLAGS_OFFSET && AtMostOneBit(XorByte(spare[FLAGS_OFFSET], LEGACY_WRITTEN_WITH_ECC))
    ensures TakesEcc(spare)
  {
    Within1BitMeans(spare[FLAGS_OFFSET], LEGACY_WRITTEN_WITH_ECC);
    hide IsWithin1Bit, AtMostOneBit, XorByte;
  }

  // What came back from the medium: up to two flipped bits per segment, at most one in the
  // flag byte, anything elsewhere in the spare area.
  ghost predicate CameBack(was: Page, now: Page) {
    && HasSegments(was, SEGMENTS) && HasSegments(now, SEGMENTS)
    && |now.data| == |was.data| == PAGE_BYTES && |now.spare| == |was.spare| == SPARE_BYTES
    && Damaged(was, now, SEGMENTS)
    && AtMostOneBit(XorByte(now.spare[FLAGS_OFFSET], LEGACY_WRITTEN_WITH_ECC))
  }

  // The stored bytes of segment k are these ECC bytes.
  predicate Holds(spare: seq<Byte>, ecc: seq<Byte>, k: nat)
    requires |spare| == SPARE_BYTES && |ecc| == ECC_LEN && k < SEGMENTS
  {
    CsstAt(spare, ECC_OFFSET + BYTES_PER_ECC * k) == CsstAt(ecc, BYTES_PER_ECC * k)
  }

  // The segments' bytes make up the ECC range.
  lemma EccRange(spare: seq<Byte>, ecc: seq<Byte>)
    requires |spare| == SPARE_BYTES && |ecc| == ECC_LEN
    ensures (forall k: nat :: k < SEGMENTS ==> Holds(spare, ecc, k)) <==> spare[ECC_OFFSET..ECC_OFFSET + ECC_LEN] == ecc
  {
    if forall k: nat :: k < SEGMENTS ==> Holds(spare, ecc, k) {
      assert Holds(spare, ecc, 0) && Holds(spare, ecc, 1) && Holds(spare, ecc, 2) && Holds(spare, ecc, 3);
    }
    if spare[ECC_OFFSET..ECC_OFFSET + ECC_LEN] == ecc {
      forall i | 0 <= i < ECC_LEN ensures spare[ECC_OFFSET + i] == ecc[i] {
        assert spare[ECC_OFFSET..ECC_OFFSET + ECC_LEN][i] == ecc[i];
      }
    }
  }

  lemma WrittenHolds(spare: seq<Byte>, ecc: seq<Byte>, k: nat)
    requires |spare| == SPARE_BYTES && |ecc| == ECC_LEN && k < SEGMENTS
    ensures Holds(WrittenSpare(spare, ecc), ecc, k)
  {
    SpliceCsst(spare, ecc, k);
  }

  lemma RangeReplaced(was: seq<Byte>, after: seq<Byte>, ecc: seq<Byte>)
    requires |was| == |after| == SPARE_BYTES && |ecc| == ECC_LEN
    requires after[ECC_OFFSET..ECC_OFFSET + ECC_LEN] == ecc
    requires forall i :: 0 <= i < SPARE_BYTES && (i < ECC_OFFSET || i >= ECC_OFFSET + ECC_LEN) ==> after[i] == was[i]
    ensures after == Splice(was, ECC_OFFSET, ecc)
  {
    assert after == after[..ECC_OFFSET] + after[ECC_OFFSET..ECC_OFFSET + ECC_LEN] + after[ECC_OFFSET + ECC_LEN..];
    assert after[..ECC_OFFSET] == was[..ECC_OFFSET];
    assert after[ECC_OFFSET + ECC_LEN..] == was[ECC_OFFSET + ECC_LEN..];
  }

  // A page agrees with the written one at segment k when it has its data and ECC bytes.
  lemma AgreesAt(data: seq<Byte>, spare: seq<Byte>, p: Page, k: nat)
    requires |data| == PAGE_BYTES == |p.data| && |spare| == SPARE_BYTES == |p.spare| && k < SEGMENTS
    ensures StoredAt(p, k) == StoredAt(Written(data, spare), k)
       <==> SegmentOf(p.data, k) == SegmentOf(data, k) && Holds(p.spare, EccBytes(data, SEGMENTS), k)
  {
    hide EccBytes, CsstAt, SegmentOf, WrittenSpare;
    WrittenHolds(spare, EccBytes(data, SEGMENTS), k);
  }

  // All segments agree exactly when the data and the ECC range do.
  lemma AllAgree(data: seq<Byte>, spare: seq<Byte>, p: Page)
    requires |data| == PAGE_BYTES == |p.data| && |spare| == SPARE_BYTES == |p.spare|
    ensures (forall k: nat :: k < SEGMENTS ==> StoredAt(p, k) == StoredAt(Written(data, spare), k))
       <==> p.data == data && p.spare[ECC_OFFSET..ECC_OFFSET + ECC_LEN] == EccBytes(data, SEGMENTS)
  {
    hide EccBytes, Holds, SegmentOf, StoredAt, Written;
    var ecc, was := EccBytes(data, SEGMENTS), Written(data, spare);
    EccRange(p.spare, ecc);
    forall k: nat | k < SEGMENTS
      ensures StoredAt(p, k) == StoredAt(was, k)
          <==> SegmentOf(p.data, k) == SegmentOf(data, k) && Holds(p.spare, ecc, k)
    {
      AgreesAt(data, spare, p, k);
    }
    if forall k: nat :: k < SEGMENTS ==> StoredAt(p, k) == StoredAt(was, k) {
      SameSegments(p.data, data, SEGMENTS);
    }
  }

  // With at most one flipped bit in each segment, the data and the stored ECC come back
  // exactly as written, the rest of the spare area as read, all four segments are counted,
  // and a correction is reported exactly when some bit had flipped.
  lemma SingleFlipsRepaired(data: seq<Byte>, spare: seq<Byte>, now: Page)
    requires |data| == PAGE_BYTES && |spare| == SPARE_BYTES && CameBack(Written(data, spare), now)
    requires DoublyDamaged(Written(data, spare), now, SEGMENTS) == {}
    ensures var after := PageAfter(now, CalculatedFor(now, SEGMENTS), SEGMENTS);
            && after.data == data
            && after.spare == Splice(now.spare, ECC_OFFSET, EccBytes(data, SEGMENTS))
    ensures PageStatus(now, CalculatedFor(now, SEGMENTS), SEGMENTS)
         == IoStatus(SEGMENTS, FfxstatSuccess,
                     now.data != data || now.spare[ECC_OFFSET..ECC_OFFSET + ECC_LEN] != EccBytes(data, SEGMENTS))
  {
    hide CalculatedFor, TakesEcc, DoublyDamaged, EccBytes, AtMostOneBit, XorByte, Damaged, AllIntact, SegmentOf, CsstAt,
         Repaired, GoodSegments, Touched, WrittenSpare, StoredAt, Splice;
    var was := Written(data, spare);
    var after := PageAfter(now, CalculatedFor(now, SEGMENTS), SEGMENTS);
    WrittenIsIntact(data, spare);
    WrittenTakesEcc(now.spare);
    DamageReported(was, now, SEGMENTS);
    forall k: nat | k < SEGMENTS ensures StoredAt(after, k) == StoredAt(was, k) {
      DamageRepaired(was, now, SEGMENTS, k);
    }
    AllAgree(data, spare, after);
    AllAgree(data, spare, now);
    forall i | 0 <= i < SPARE_BYTES && (i < ECC_OFFSET || i >= ECC_OFFSET + ECC_LEN)
      ensures after.spare[i] == now.spare[i]
    {
      SpareFrame(now, CalculatedFor(now, SEGMENTS), SEGMENTS, i);
    }
    RangeReplaced(now.spare, after.spare, EccBytes(data, SEGMENTS));
  }

  // What a damaged page ends as: segments with two flipped bits left as read and not
  // counted, the others as written and counted; every spare byte outside the ECC range as
  // read; success exactly when there is no segment with two flipped bits, and a correction
  // reported exactly when there is one with a single flipped bit.
  ghost predicate Ends(was: Page, now: Page, after: Page, status: IoStatus)
    requires HasSegments(was, SEGMENTS) && HasSegments(now, SEGMENTS)
  {
    && |after.data| == PAGE_BYTES && |after.spare| == |now.spare| == SPARE_BYTES
    && (forall k: nat :: k < SEGMENTS ==>
          StoredAt(after, k) == if k in DoublyDamaged(was, now, SEGMENTS) then StoredAt(now, k) else StoredAt(was, k))
    && (forall i :: 0 <= i < SPARE_BYTES && (i < ECC_OFFSET || i >= ECC_OFFSET + ECC_LEN) ==>
          after.spare[i] == now.spare[i])
    && status.ulCount == SEGMENTS - |DoublyDamaged(was, now, SEGMENTS)|
    && status.ffxStat
         == (if DoublyDamaged(was, now, SEGMENTS) == {} then FfxstatSuccess else FfxstatFimUncorrectableData)
    && (status.dataCorrected <==> exists k: nat ::
          k < SEGMENTS && k !in DoublyDamaged(was, now, SEGMENTS) && StoredAt(now, k) != StoredAt(was, k))
  }

  // Two flipped bits in one segment are always noticed, and do not keep the other segments
  // from being repaired.
  lemma DoubleFlipsNoticed(data: seq<Byte>, spare: seq<Byte>, now: Page)
    requires |data| == PAGE_BYTES && |spare| == SPARE_BYTES && CameBack(Written(data, spare), now)
    ensures Ends(Written(data, spare), now, PageAfter(now, CalculatedFor(now, SEGMENTS), SEGMENTS),
                 PageStatus(now, CalculatedFor(now, SEGMENTS), SEGMENTS))
  {
    hide CalculatedFor, TakesEcc, DoublyDamaged, EccBytes, AtMostOneBit, XorByte, Damaged, AllIntact, SegmentOf, CsstAt,
         Repaired, GoodSegments, Touched, WrittenSpare, StoredAt;
    var was := Written(data, spare);
    WrittenIsIntact(data, spare);
    WrittenTakesEcc(now.spare);
    DamageReported(was, now, SEGMENTS);
    forall k: nat | k < SEGMENTS
      ensures StoredAt(PageAfter(now, CalculatedFor(now, SEGMENTS), SEGMENTS), k)
           == if k in DoublyDamaged(was, now, SEGMENTS) then StoredAt(now, k) else StoredAt(was, k)
    {
      DamageRepaired(was, now, SEGMENTS, k);
    }
    forall i | 0 <= i < SPARE_BYTES && (i < ECC_OFFSET || i >= ECC_OFFSET + ECC_LEN)
      ensures PageAfter(now, CalculatedFor(now, SEGMENTS), SEGMENTS).spare[i] == now.spare[i]
    {
      SpareFrame(now, CalculatedFor(now, SEGMENTS), SEGMENTS, i);
    }
  }

  // ---------- the branch without ECC ----------

  // A page that PageWrite made, with any bits of its flag flipped, falls into the branch
  // without ECC exactly when two or more of them are flipped and at most one bit of its ECC
  // range is cleared. The assertion made there fails exactly when, besides, the flips do not
  // lead to within one bit of the unwritten flag.
  lemma WrittenFallsThrough(spare: seq<Byte>, m: Byte)
    requires |spare| > FLAGS_OFFSET && spare[FLAGS_OFFSET] == XorByte(LEGACY_WRITTEN_WITH_ECC, m)
    ensures !TakesEcc(spare)
       <==> !AtMostOneBit(m) && TotalOffBits(spare[ECC_OFFSET..ECC_OFFSET + ECC_LEN]) <= 1
    ensures !UnwrittenAsserted(spare) <==> !TakesEcc(spare) && !AtMostOneBit(XorByte(m, 0xF0))
  {
    Within1BitMeans(spare[FLAGS_OFFSET], LEGACY_WRITTEN_WITH_ECC);
    FlagFlips(m);
    hide IsWithin1Bit, AtMostOneBit, XorByte, TotalOffBits;
  }

  lemma FlagFlips(m: Byte)
    ensures XorByte(XorByte(LEGACY_WRITTEN_WITH_ECC, m), LEGACY_WRITTEN_WITH_ECC) == m
    ensures XorByte(XorByte(LEGACY_WRITTEN_WITH_ECC, m), LEGACY_UNWRITTEN) == XorByte(m, 0xF0)
  {}

  lemma TwoFlagFlips()
    ensures XorByte(LEGACY_WRITTEN_WITH_ECC, 0x30) == 0x3F && XorByte(0x30, 0xF0) == 0xC0
    ensures !AtMostOneBit(0x30) && !AtMostOneBit(0xC0)
  {}

  // It can fail: a page written with data whose ECC bytes are all 0xFF, two bits of its flag
  // flipped. The code accepts it as an unwritten page.
  lemma WrittenMistaken(spare: seq<Byte>)
    requires |spare| == SPARE_BYTES
    ensures var p := Written(TwoEndedData(), spare);
            var now := Page(p.data, p.spare[FLAGS_OFFSET := 0x3F]);
            && !UnwrittenAsserted(now.spare)
            && PageAfter(now, CalculatedFor(now, SEGMENTS), SEGMENTS) == now
            && PageStatus(now, CalculatedFor(now, SEGMENTS), SEGMENTS) == IoStatus(1, FfxstatSuccess, false)
  {
    hide TwoEndedData, EccBytes, AtMostOneBit, XorByte, TotalOffBits, Uniform, Repaired, GoodSegments, CalculatedFor,
         IsWrittenWithEcc;
    var ecc := EccBytes(TwoEndedData(), SEGMENTS);
    TwoEndedBytes(SEGMENTS);
    NothingOff(ecc);
    WrittenRange(spare, ecc, 0x3F);
    hide WrittenSpare;
    TwoFlagFlips();
    WrittenFallsThrough(WrittenSpare(spare, ecc)[FLAGS_OFFSET := 0x3F], 0x30);
  }

  lemma WrittenRange(spare: seq<Byte>, ecc: seq<Byte>, flag: Byte)
    requires |spare| == SPARE_BYTES && |ecc| == ECC_LEN
    ensures WrittenSpare(spare, ecc)[FLAGS_OFFSET := flag][ECC_OFFSET..ECC_OFFSET + ECC_LEN] == ecc
  {}

  lemma NothingOff(bytes: seq<Byte>)
    requires Uniform(bytes, ERASED8)
    ensures TotalOffBits(bytes) == 0
  {
    ErasedTotal(bytes);
    hide TotalOffBits;
  }

  // A page that was never written, its flag and its ECC range at most one bit away from
  // erased, is accepted as it is, and the assertion of that branch holds.
  lemma UnwrittenAccepted(p: Page, calculated: seq<Byte>, n: nat, m: Byte)
    requires RoomFor(p, calculated, n) && |p.spare| > FLAGS_OFFSET
    requires AtMostOneBit(m) && p.spare[FLAGS_OFFSET] == XorByte(LEGACY_UNWRITTEN, m)
    requires RangeErased1Bit(p.spare[ECC_OFFSET..ECC_OFFSET + ECC_LEN])
    ensures PageAfter(p, calculated, n) == p && PageStatus(p, calculated, n) == IoStatus(1, FfxstatSuccess, false)
    ensures IsUnwritten(p.spare[FLAGS_OFFSET]) && UnwrittenAsserted(p.spare)
  {
    FlagSurvives(m);
    FlagsApart(p.spare[FLAGS_OFFSET]);
    UnwrittenMeans(p.spare[FLAGS_OFFSET]);
    hide IsWrittenWithEcc, IsUnwritten, AtMostOneBit, XorByte, RangeErased1Bit;
  }

  // One thing that can happen to a spare area: PageWrite fills in ECC and flag, or
  // CorrectPage corrects a page of four segments read with it.
  datatype SpareChange = Program(ecc: seq<Byte>) | Correct(data: seq<Byte>, calculated: seq<Byte>) {
    predicate Valid() {
      match this
      case Program(ecc) => |ecc| == ECC_LEN
      case Correct(data, calculated) => |data| == PAGE_BYTES && |calculated| == ECC_LEN
    }
  }

  function AfterChange(spare: seq<Byte>, c: SpareChange): (now: seq<Byte>)
    requires |spare| == SPARE_BYTES && c.Valid()
    ensures |now| == SPARE_BYTES
  {
    match c
    case Program(ecc) => WrittenSpare(spare, ecc)
    case Correct(data, calculated) => PageAfter(Page(data, spare), calculated, SEGMENTS).spare
  }

  function SpareAfter(spare: seq<Byte>, changes: seq<SpareChange>): (now: seq<Byte>)
    requires |spare| == SPARE_BYTES && forall i :: 0 <= i < |changes| ==> changes[i].Valid()
    ensures |now| == SPARE_BYTES
  {
    if changes == [] then spare
    else AfterChange(SpareAfter(spare, changes[..|changes| - 1]), changes[|changes| - 1])
  }

  // Neither the flag nor one of the twelve ECC bytes.
  predicate Spared(i: nat) {
    i < 64 && i != 32 && !(1 <= i <= 12)
  }

  lemma ChangeSpares(spare: seq<Byte>, c: SpareChange, i: nat)
    requires |spare| == SPARE_BYTES && c.Valid() && Spared(i)
    ensures AfterChange(spare, c)[i] == spare[i]
  {
    hide Repaired, TakesEcc;
    match c
    case Program(ecc) => WrittenSpareAt(spare, ecc);
    case Correct(data, calculated) => SpareFrame(Page(data, spare), calculated, SEGMENTS, i);
  }

  // Every byte but the flag and the ECC range survives any sequence of writes and corrections.
  lemma {:induction false} SpareSurvives(spare: seq<Byte>, changes: seq<SpareChange>, i: nat)
    requires |spare| == SPARE_BYTES && forall i :: 0 <= i < |changes| ==> changes[i].Valid()
    requires Spared(i)
    ensures SpareAfter(spare, changes)[i] == spare[i]
  {
    hide AfterChange;
    if changes != [] {
      SpareSurvives(spare, changes[..|changes| - 1], i);
      ChangeSpares(SpareAfter(spare, changes[..|changes| - 1]), changes[|changes| - 1], i);
    }
  }

  // The tag lies in the spare area, apart from the flag and the ECC range.
  lemma TagSpared(i: nat)
    requires TAG_OFFSET <= i < TAG_OFFSET + LEGACY_ENCODED_TAG_SIZE
    ensures Spared(i) && i != FLAGS_OFFSET && (i < ECC_OFFSET || i >= ECC_OFFSET + ECC_LEN)
  {}

  // So the tag, bytes 38 to 41, survives.
  lemma TagSurvives(spare: seq<Byte>, changes: seq<SpareChange>)
    requires |spare| == SPARE_BYTES && forall i :: 0 <= i < |changes| ==> changes[i].Valid()
    ensures var end := TAG_OFFSET + LEGACY_ENCODED_TAG_SIZE;
            SpareAfter(spare, changes)[TAG_OFFSET..end] == spare[TAG_OFFSET..end] == spare[38..42]
  {
    hide SpareAfter;
    forall i: nat | TAG_OFFSET <= i < TAG_OFFSET + LEGACY_ENCODED_TAG_SIZE
      ensures SpareAfter(spare, changes)[i] == spare[i]
    {
      TagSpared(i);
      SpareSurvives(spare, changes, i);
    }
  }

  // ---------- the pipeline ----------

  // Sends a page with its ECC, then its spare area.
  method ProgramPage(hook: NtmHook, fAligned: bool, pData: array<Byte>, pSpare: array<Byte>)
    requires hook.ChipSelected() && IsSet(hook.nValidChipMask, hook.nChip) && hook.hw.Idle() && hook.hw.BlocksOf512()
    requires pData.Length == PAGE_BYTES && pSpare.Length == SPARE_BYTES && pData != pSpare
    modifies hook`hw, pSpare
    ensures hook.hw.Idle() && hook.hw.BlocksOf512()
    ensures pSpare[38..42] == old(pSpare[38..42])
    ensures var p := Written(pData[..], old(pSpare[..]));
            pSpare[..] == p.spare && hook.hw.sent == old(hook.hw.sent) + p.data + p.spare
  {
    hide WrittenSpare, EccBytes, IsSet;
    ghost var spare := pSpare[..];
    var ffxStat := hook.FfxHookNTMicronPageWrite(fAligned, pData, PAGE_BYTES / NAND_IO_BYTES, pSpare);
    assert pData[..PAGE_BYTES] == pData[..] && pSpare[..SPARE_BYTES] == pSpare[..];
    ghost var ecc: seq<Byte> :| |ecc| == MAX_ECC_BYTES_PER_PAGE && EccBytes(pData[..], SEGMENTS) <= ecc
                             && pSpare[..] == WrittenSpare(spare, ecc[..ECC_LEN]);
    assert ecc[..ECC_LEN] == EccBytes(pData[..], SEGMENTS);
    hook.FfxHookNTMicronDataOut(fAligned, pSpare, SPARE_BYTES / NAND_IO_BYTES);
  }

  // Reads a page with its ECC and its spare area, and corrects it.
  method FetchPage(hook: NtmHook, fAligned: bool, pBuffer: array<Byte>, pSpare: array<Byte>, pabECC: array<Byte>,
          ghost p: Page)
    returns (ioStat: IoStatus, fAssert: bool)
    requires hook.ChipSelected() && IsSet(hook.nValidChipMask, hook.nChip) && hook.hw.Idle() && hook.hw.BlocksOf512()
    requires pBuffer.Length == PAGE_BYTES && pSpare.Length == SPARE_BYTES && pabECC.Length == ECC_LEN
    requires pBuffer != pSpare && pSpare != pabECC && pBuffer != pabECC
    requires |p.data| == PAGE_BYTES && |p.spare| == SPARE_BYTES && p.data + p.spare <= hook.hw.device
    modifies hook`hw, pBuffer, pSpare, pabECC
    ensures hook.hw.Idle()
    ensures ioStat == PageStatus(p, CalculatedFor(p, SEGMENTS), SEGMENTS) && fAssert == UnwrittenAsserted(p.spare)
    ensures Page(pBuffer[..], pSpare[..]) == PageAfter(p, CalculatedFor(p, SEGMENTS), SEGMENTS)
  {
    hide EccBytes, IsSet, PageStatus, PageAfter;
    ghost var device := hook.hw.device;
    assert device[..PAGE_BYTES] == p.data;
    assert device[PAGE_BYTES..][..SPARE_BYTES] == p.spare;
    var ffxStat := hook.FfxHookNTMicronPageRead(fAligned, pBuffer, PAGE_BYTES / NAND_IO_BYTES, pabECC);
    assert hook.hw.device == device[PAGE_BYTES..];
    assert pBuffer[..] == p.data;
    assert pabECC[..] == CalculatedFor(p, SEGMENTS);
    hook.FfxHookNTMicronDataIn(fAligned, pSpare, SPARE_BYTES / NAND_IO_BYTES);
    assert pSpare[..] == p.spare;
    ioStat, fAssert := FfxHookEccCorrectPage(pBuffer, pSpare, pabECC, SPARE_BYTES);
  }

  // Write, corrupt, read, correct: the medium returns any page with at most two flipped bits
  // in each segment and one in the flag byte. Segments with at most one come back as they
  // were written; if that is all of them, the caller gets the data that was written.
  method WriteCorruptRead(hook: NtmHook, fAligned: bool, pData: array<Byte>, pSpare: array<Byte>, now: Page,
                          pBuffer: array<Byte>, pReadSpare: array<Byte>, pabECC: array<Byte>)
    returns (ioStat: IoStatus, fAssert: bool)
    requires hook.ChipSelected() && IsSet(hook.nValidChipMask, hook.nChip) && hook.hw.Idle() && hook.hw.BlocksOf512()
    requires pData.Length == PAGE_BYTES && pSpare.Length == SPARE_BYTES && pData != pSpare
    requires pBuffer.Length == PAGE_BYTES && pReadSpare.Length == SPARE_BYTES && pabECC.Length == ECC_LEN
    requires pBuffer != pReadSpare && pReadSpare != pabECC && pBuffer != pabECC
    requires pData !in {pBuffer, pReadSpare, pabECC}
    requires CameBack(Written(pData[..], pSpare[..]), now)
    modifies hook`hw, pSpare, pBuffer, pReadSpare, pabECC
    ensures pData[..] == old(pData[..]) && fAssert
    ensures Ends(Written(pData[..], old(pSpare[..])), now, Page(pBuffer[..], pReadSpare[..]), ioStat)
    ensures DoublyDamaged(Written(pData[..], old(pSpare[..])), now, SEGMENTS) == {} ==>
      && pBuffer[..] == pData[..]
      && pReadSpare[..] == Splice(now.spare, ECC_OFFSET, EccBytes(pData[..], SEGMENTS))
      && ioStat == IoStatus(SEGMENTS, FfxstatSuccess,
                            || now.data != pData[..]
                            || now.spare[ECC_OFFSET..ECC_OFFSET + ECC_LEN] != EccBytes(pData[..], SEGMENTS))
  {
    hide CameBack, DoublyDamaged, PageStatus, PageAfter, CalculatedFor, EccBytes, IsSet, Ends, TakesEcc;
    ghost var data, spare := pData[..], pSpare[..];
    SizesOf(data, spare, now);
    DoubleFlipsNoticed(data, spare, now);
    WrittenTakesEcc(now.spare);
    if DoublyDamaged(Written(data, spare), now, SEGMENTS) == {} {
      SingleFlipsRepaired(data, spare, now);
    }
    ProgramPage(hook, fAligned, pData, pSpare);
    hook.hw := hook.hw.(device := now.data + now.spare);
    ioStat, fAssert := FetchPage(hook, fAligned, pBuffer, pReadSpare, pabECC, now);
  }

  lemma SizesOf(data: seq<Byte>, spare: seq<Byte>, now: Page)
    requires |data| == PAGE_BYTES && |spare| == SPARE_BYTES && CameBack(Written(data, spare), now)
    ensures HasSegments(now, SEGMENTS) && |now.data| == PAGE_BYTES && |now.spare| == SPARE_BYTES
    ensures AtMostOneBit(XorByte(now.spare[FLAGS_OFFSET], LEGACY_WRITTEN_WITH_ECC))
  {}
}
