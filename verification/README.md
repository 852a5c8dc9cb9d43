# NAND ECC and page transfer: a Dafny model

This project models the part of the FlashFX boot-loader project that moves NAND pages and
protects them: the error-correcting code of `dlecc.c`, its stored and hardware formats, page
correction in `fhecc.c`, and the transfers of `fhmicron.c` through the 64-byte FIFO that the
CPU shares with the GPMC prefetch/write-posting engine. `dafny verify dfyconfig.toml` checks it.

Paths below are relative to the root of the source tree.

## How it is laid out

- `Words`: 8-bit bytes, 32-bit words, numbers as words, bit interleaving; `Bits`: bit k of a word or a byte.
- `DclEcc`: `DclEccCalculate` and `DclEccCorrect` as loops over arrays, each proved equal to a function.
- `EccMeaning`: what the ECC bits mean, by counting set data bits.
- `Syndromes`, `EccTheory`, `SecDed`: single-error correction and double-error detection, for every
  length from one byte to 8 KB, and the exact condition of each result for arbitrary blocks.
- `EccFormats`, `FormatBits`, `StoredBits`, `HardwareEcc`: the CSST, SSFDC and result-register formats,
  and where each bit of an ECC goes in them.
- `SpareFlags`, `PageEcc`, `PageTheory`, `ErasedPage`: flags, page correction for any number of
  segments, its accounting, locality, idempotence, and what damage it repairs or notices.
- `Gpmc`, `Interleavings`, `Micron`: the hardware as a state machine that moves one byte per step, all
  its interleavings with the CPU, and the transfer functions as methods of a class `NtmHook`.
- `EndToEnd`: write, corrupt, read, correct.

## How the hardware is modelled

The class `NtmHook` has the hook's own fields and the hardware as a value of type `Gpmc`. Before
every access of the CPU the hardware takes an arbitrary number of steps, so a method's contract
holds for every interleaving. Polling loops end because the engine may pause only finitely often
between two steps; nothing else is assumed about its speed. Assumed of the hardware, each in the bits
of its registers:

- starting the engine empties the FIFO and loads the byte count;
- the FIFO pointer, bits 24 to 30 of the prefetch status, shows the bytes available when prefetching and
  the bytes free when write-posting; the other bits of that word may be anything;
- bit 0 of the status register tells whether the write buffer is empty, bits 8 and 9 are the ready pins;
- the ECC unit takes in what crosses the bus while its enable bit is set and it points to a result
  register. A result register holds the parities of its block, and anything in its unused bits, if
  both block sizes are 512 bytes, the unit was set to the 16-bit bus for every byte since the last clear,
  and the pointer was not moved in between; the first block goes to the register pointed to. Nothing
  is assumed of a result otherwise.

Every byte that crosses the bus is recorded with the idle mode and the state of the ECC unit at that
moment, which is how "no-idle while data moves" and "ECC enabled for exactly this page" are stated.

## Where code and comments differ

The model follows the code.

- The headers of `CorrectPage` and `FfxHookEccCorrectPage` promise `FFXSTAT_FIMCORRECTABLEDATA` after a
  correction (`fhecc.c:284`, `fhecc.c:325`); the code returns `FFXSTAT_SUCCESS` with
  `PAGESTATUS_DATACORRECTED`.
- The comment at `fhecc.c:386-388` suggests that counting stops at the first uncorrectable segment; the
  code counts every other segment (`PageTheory.CountsGoodOnes`).
- `fhecc.c:113` and `fhecc.c:180` assert a multiple of 256 bytes; the loops only end for multiples of
  512 (`PageEcc.CalcReadTerminates`), so the methods require that.
- `fhecc.c:424` asserts that a page outside the ECC branch has an unwritten flag. A written page with two
  flipped flag bits and nearly erased ECC bytes gets there as well, and its data is not checked
  (`EndToEnd.WrittenFallsThrough`, `EndToEnd.WrittenMistaken`). `CorrectPage` returns whether the assertion
  holds; it goes on regardless, as a build without assertions does.
- The branch is chosen from the bytes as read, so a page whose flag does not say that it was written can
  take the ECC branch once and, its ECC bytes corrected, the other branch the next time
  (`PageTheory.SameStatusIff`, `ErasedPage.SecondReadingDiffers`).
- `fhmicron.c:926` always copies twelve ECC bytes. For a page shorter than 2048 bytes the last of them
  come from uninitialised stack memory; the contract of `FfxHookNTMicronPageWrite` leaves them open.

## Model

| member | source | states |
|---|---|---|
| `DclEcc.DclEccCalculate` | 3rdParty/Datalight/FlashFX/dcl/common/util/dlecc.c:243-314 | the in-place loop over the bytes, then table lookups, shifts and the length's mask, give the ECC function `EccOf` of exactly the given slice of the buffer |
| `EccMeaning.EccMeans` | 3rdParty/Datalight/FlashFX/dcl/common/util/dlecc.c:48-66 | the documented meaning of every ECC bit: P of an address digit is set iff an even number of set data bits have a one at that digit, P' likewise for a zero, and bits of digits no address has are clear; for every block of every accepted length |
| `DclEcc.CpEntryIs` | 3rdParty/Datalight/FlashFX/dcl/common/util/dlecc.c:158-193 | each of the 256 column-parity table entries is the exclusive or of the codes of the byte's set bits |
| `DclEcc.LinePairsIs` | 3rdParty/Datalight/FlashFX/dcl/common/util/dlecc.c:286-303 | the four lookups in the merge table and the shifts interleave the two 16-bit line parities |
| `EccTheory.EccFlip` | 3rdParty/Datalight/FlashFX/dcl/common/util/dlecc.c:64-71 | flipping data bit 8i+j changes the ECC of any block by exactly one bit of every parity pair, those its address selects |
| `DclEcc.DclEccCorrect` | 3rdParty/Datalight/FlashFX/dcl/common/util/dlecc.c:352-460 | the in-place correction returns the result, the old ECC and the buffer that `EccCorrect` gives for the slice, and changes nothing else in the buffer |
| `DclEcc.ExtractEvenBits` | 3rdParty/Datalight/FlashFX/dcl/common/util/dlecc.c:421-432 | the bit-by-bit loop reads the bit address out of a correctable syndrome |
| `DclEcc.AddressFits` | 3rdParty/Datalight/FlashFX/dcl/common/util/dlecc.c:413-445 | the address read from a syndrome never lies outside the block, so the correction writes inside the buffer |
| `SecDed.DecodeConsistent` | 3rdParty/Datalight/FlashFX/dcl/common/util/dlecc.c:380-385 | a block whose stored ECC is the ECC of its data is accepted unchanged |
| `SecDed.SingleErrorCorrected` | 3rdParty/Datalight/FlashFX/dcl/common/util/dlecc.c:317-350 | one flipped bit anywhere in the data or in the stored ECC is repaired exactly, and the result says which of the two was wrong; for every accepted length |
| `SecDed.DoubleErrorDetected` | 3rdParty/Datalight/FlashFX/dcl/common/util/dlecc.c:38-40 | any two different flipped bits in data and ECC together are reported as uncorrectable and nothing is changed |
| `SecDed.DecodeDecides` | 3rdParty/Datalight/FlashFX/dcl/common/util/dlecc.c:317-350 | for every block whatever happened to it: valid iff consistent; corrected iff some single flip makes it consistent; anything not reported as uncorrectable is consistent afterwards |
| `SecDed.FlipDecoded` | 3rdParty/Datalight/FlashFX/dcl/common/util/dlecc.c:64-71 | the flip that makes a block consistent is unique, and is the one the correction performs |
| `SecDed.EccOfWithin` | 3rdParty/Datalight/FlashFX/dcl/common/util/dlecc.c:307-309 | a calculated ECC has no bits above those in use, which is what the correction asserts of its arguments |
| `EccFormats.CSSTToCanonical` | 3rdParty/Datalight/FlashFX/micbl/fhecc.c:456-490 | the interleaving loop computes the canonical word of three stored bytes |
| `EccFormats.CanonicalToCSST` | 3rdParty/Datalight/FlashFX/micbl/fhecc.c:508-547 | the splitting loop stores the three bytes of a canonical word and changes nothing else |
| `EccFormats.CsstRoundTrip` | 3rdParty/Datalight/FlashFX/micbl/fhecc.c:456-547 | stored bytes to canonical word to stored bytes is the identity on all bytes |
| `EccFormats.StoredAsGiven` | 3rdParty/Datalight/FlashFX/micbl/fhecc.c:544 | canonical word to stored bytes to canonical word is the identity iff the word has no bits above the 24 parity bits: exactly when the assertion holds |
| `EccFormats.EvenPairsSplit` | 3rdParty/Datalight/FlashFX/micbl/fhecc.c:477-484 | for any number of parity pairs, splitting undoes interleaving: even parities |
| `EccFormats.OddPairsSplit` | 3rdParty/Datalight/FlashFX/micbl/fhecc.c:477-484 | the same for odd parities |
| `EccFormats.SplitPairs` | 3rdParty/Datalight/FlashFX/micbl/fhecc.c:518-527 | for any number of parity pairs, interleaving undoes splitting iff the word has no bits outside the pairs |
| `EccFormats.DifferencePreserved` | 3rdParty/Datalight/FlashFX/micbl/fhecc.c:362-365 | the inversions cancel: the difference of two canonical words is the difference of the stored bytes, rearranged |
| `EccFormats.OneBitRearranged` | 3rdParty/Datalight/FlashFX/micbl/fhecc.c:456-490 | a single canonical bit is a single stored bit and the other way round |
| `StoredBits.SameDistance` | 3rdParty/Datalight/FlashFX/micbl/fhecc.c:362-365 | two stored ECCs differ in exactly as many bits as their canonical words |
| `EccFormats.SsfdcOfCanonical` | 3rdParty/Datalight/FlashFX/include/ecc.h:136-144 | canonical to SSFDC and back is the identity iff the word fits in 22 bits |
| `EccFormats.CanonicalOfSsfdc` | 3rdParty/Datalight/FlashFX/include/ecc.h:136-144 | SSFDC to canonical and back is the identity iff the third byte ends in two ones |
| `FormatBits.SsfdcBits` | 3rdParty/Datalight/FlashFX/include/ecc.h:136-139 | bit k of the first SSFDC byte is bit 6+k of the word, bit k of the second is bit 14+k |
| `FormatBits.SsfdcThird` | 3rdParty/Datalight/FlashFX/include/ecc.h:136-139 | bit 2+k of the third SSFDC byte is bit k of the word, its two lowest bits are set |
| `FormatBits.SsfdcWordBits` | 3rdParty/Datalight/FlashFX/include/ecc.h:141-144 | every bit of the word of three SSFDC bytes, and no bit from 22 on |
| `FormatBits.CsstBits` | 3rdParty/Datalight/FlashFX/micbl/fhecc.c:508-547 | bit k of the first stored byte is the inverse of ECC bit 2k, bit k of the second of bit 2k+1 |
| `FormatBits.CsstThird` | 3rdParty/Datalight/FlashFX/micbl/fhecc.c:508-547 | the third byte has the inverted ECC bits 16, 18, 20, 22 low and 17, 19, 21, 23 high |
| `FormatBits.RegisterBits` | 3rdParty/Datalight/FlashFX/micbl/fhecc.c:196-198 | the three bytes taken from a result register are its bits 0-7, 16-23, and 8-11 below 24-27 |
| `HardwareEcc.HardwareIsSoftware` | 3rdParty/Datalight/FlashFX/micbl/fhecc.c:190-221 | any result register that holds the parities of a segment (even in bits 0-11, odd in 16-27, the rest arbitrary) packs into the same three bytes the software path computes |
| `SpareFlags.Within1BitMeans` | 3rdParty/Datalight/FlashFX/fmsl/include/fxnandapi.h:197-201 | the one-bit test of the flag accepts exactly the bytes that differ in at most one bit |
| `SpareFlags.FlagsApart` | 3rdParty/Datalight/FlashFX/fmsl/include/fxnandapi.h:180-201 | no flag byte is taken both for written and for unwritten |
| `SpareFlags.WrittenFlag` | 3rdParty/Datalight/FlashFX/fmsl/include/fxnandapi.h:181-200 | a flag is taken for written iff no two different bits of it deviate from low four bits set, high four clear |
| `SpareFlags.UnwrittenFlag` | 3rdParty/Datalight/FlashFX/fmsl/include/fxnandapi.h:183-201 | a flag is taken for unwritten iff no two different bits of it are cleared |
| `SpareFlags.DclBitCount` | 3rdParty/Datalight/FlashFX/dcl/common/util/dlbit.c:74-87 | the shifting loop returns the number of set bits: the cardinality of the set of bits below 32 that are set |
| `SpareFlags.OffBitsCount` | 3rdParty/Datalight/FlashFX/fmsl/nand/nthelptags.c:227-229 | 8 minus the bit count of a byte is the number of its cleared bits |
| `SpareFlags.FfxNtmHelpIsRangeErased1Bit` | 3rdParty/Datalight/FlashFX/fmsl/nand/nthelptags.c:212-243 | true iff no two different bits of the whole range are cleared, although the loop stops at the second damaged byte |
| `SpareFlags.RangeErasedMeans` | 3rdParty/Datalight/FlashFX/fmsl/nand/nthelptags.c:212-243 | for a range of any length, a total of at most one over its bytes is the same as no two cleared bits, in one byte or in two |
| `SpareFlags.ErasedTotal` | 3rdParty/Datalight/FlashFX/fmsl/nand/nthelptags.c:212-243 | no bit of a range is cleared iff every byte is 0xFF |
| `PageEcc.SoftwareEccCalcRead` | 3rdParty/Datalight/FlashFX/micbl/fhecc.c:235-248 | the software path writes exactly three bytes per 512 data bytes, those of each segment, and leaves the rest of the buffer |
| `PageEcc.CalcReadTerminates` | 3rdParty/Datalight/FlashFX/micbl/fhecc.c:180-226 | iterating the loop's unsigned subtraction reaches zero in some round iff the length is a multiple of 512; the assertion asks only for 256 |
| `PageEcc.CalcReadRounds` | 3rdParty/Datalight/FlashFX/micbl/fhecc.c:190-226 | and for those the counter is zero after one round per segment and not before |
| `PageEcc.CorrectPage` | 3rdParty/Datalight/FlashFX/micbl/fhecc.c:332-435 | the loop over the segments with its four cursors changes data and spare area, and reports, exactly what `PageAfter` and `PageStatus` say, for any number of segments; the assertion on the branch without ECC holds iff the flag is within one bit of 0xFF |
| `PageEcc.BranchMeans` | 3rdParty/Datalight/FlashFX/micbl/fhecc.c:351-424 | the ECC branch is taken iff no two bits of byte 32 deviate from the written flag or two bits of bytes 1 to 12 are cleared; the assertion of the other branch holds iff no two bits of byte 32 are cleared |
| `PageEcc.CorrectOne` | 3rdParty/Datalight/FlashFX/micbl/fhecc.c:360-389 | one round: the segment's data or its stored ECC bytes are replaced by its outcome, and nothing else changes |
| `PageEcc.FfxHookEccCorrectPage` | 3rdParty/Datalight/FlashFX/micbl/fhecc.c:291-302 | the entry point corrects four segments, with the same assertion |
| `PageEcc.NextAsRead` | 3rdParty/Datalight/FlashFX/micbl/fhecc.c:360-401 | correcting earlier segments leaves the next one, data and ECC bytes, as it was read |
| `PageTheory.SegmentSingle` | 3rdParty/Datalight/FlashFX/micbl/fhecc.c:362-380 | one flipped bit in a segment's data or in its three stored bytes is repaired exactly |
| `PageTheory.SegmentDouble` | 3rdParty/Datalight/FlashFX/micbl/fhecc.c:362-370 | two different flipped bits in a segment are reported as uncorrectable, nothing is changed |
| `PageTheory.SegmentDecides` | 3rdParty/Datalight/FlashFX/micbl/fhecc.c:362-384 | for anything read: accepted iff intact, and what is not uncorrectable is intact afterwards |
| `PageTheory.CorrectedIffOneFlip` | 3rdParty/Datalight/FlashFX/micbl/fhecc.c:372-380 | a correction is reported iff a single flip of a data or stored bit makes the segment intact |
| `PageTheory.SegmentIsLocal` | 3rdParty/Datalight/FlashFX/micbl/fhecc.c:360-401 | a segment's outcome depends only on its own data, stored bytes and calculated bytes, whatever the rest of the page holds |
| `PageTheory.StoredAtMeans` | 3rdParty/Datalight/FlashFX/micbl/fhecc.c:353-401 | segment k is data bytes 512k to 512k+511 with spare bytes 1+3k to 3+3k |
| `PageTheory.SpareFrame` | 3rdParty/Datalight/FlashFX/micbl/fhecc.c:360-401 | no spare byte outside the ECC bytes of the segments changes |
| `PageTheory.CountsGoodOnes` | 3rdParty/Datalight/FlashFX/micbl/fhecc.c:386-389 | ulCount is the number of all segments not uncorrectable, also those after an uncorrectable one |
| `PageTheory.StatusDecides` | 3rdParty/Datalight/FlashFX/micbl/fhecc.c:366-409 | for every page: success iff each segment is within one flip of intact; DATACORRECTED iff some segment is exactly one flip away |
| `PageTheory.SuccessLeavesIntact` | 3rdParty/Datalight/FlashFX/micbl/fhecc.c:406-409 | after success every segment's stored ECC is the ECC of its data |
| `PageTheory.CorrectionIsIdempotent` | 3rdParty/Datalight/FlashFX/micbl/fhecc.c:351-409 | for every page, recalculating and correcting again changes nothing and reports no correction; count and status repeat, except that a page which loses the ECC branch is then accepted as unwritten |
| `PageTheory.SameStatusIff` | 3rdParty/Datalight/FlashFX/micbl/fhecc.c:351-427 | count and status repeat iff the page has one segment or does not lose its branch, a condition on flag, stored and calculated bytes before the correction |
| `PageTheory.LosesBranchIff` | 3rdParty/Datalight/FlashFX/micbl/fhecc.c:351 | while the flag lies outside the ECC bytes, a page loses its branch iff its flag does not say it was written, at least two bits of its ECC range are cleared, and at most one is after replacing each stored ECC one bit away from the calculated one; never when the flag says it was written |
| `PageTheory.ReplacedIff` | 3rdParty/Datalight/FlashFX/micbl/fhecc.c:374-378 | a stored ECC is replaced iff it differs from the calculated one in exactly one bit, and then by that |
| `ErasedPage.SecondReadingDiffers` | 3rdParty/Datalight/FlashFX/micbl/fhecc.c:351-427 | a page that loses its branch: four segments counted and a correction reported the first time, one and none the second time |
| `PageTheory.DamageRepaired` | 3rdParty/Datalight/FlashFX/micbl/fhecc.c:360-401 | up to two flips per segment of an intact page, any number of segments: those with at most one are restored, those with two left as read |
| `PageTheory.DamageReported` | 3rdParty/Datalight/FlashFX/micbl/fhecc.c:386-420 | for such a page ulCount is the number of segments without a double flip, success iff there is none with, DATACORRECTED iff some segment had a single flip |
| `ErasedPage.UniformEcc` | 3rdParty/Datalight/FlashFX/micbl/fhecc.c:445-447 | data that is all zeros or all ones has ECC bytes of zero |
| `ErasedPage.ErasedIsUncorrectable` | 3rdParty/Datalight/FlashFX/micbl/fhecc.c:351 | so an erased segment would be uncorrectable on the ECC branch, which is why the branch test exists |
| `Gpmc.ReadSteps` | 3rdParty/Datalight/FlashFX/micbl/fhmicron.c:766-786 | whatever number of steps the engine takes while prefetching, the state is determined by two counters |
| `Gpmc.ReadConserves` | 3rdParty/Datalight/FlashFX/micbl/fhmicron.c:766-786 | copied bytes, FIFO contents and bytes still in the device always make up the device's stream, and the FIFO never overflows |
| `Gpmc.WriteConserves` | 3rdParty/Datalight/FlashFX/micbl/fhmicron.c:886-906 | bytes sent, FIFO contents and bytes not yet copied always make up the caller's data |
| `Interleavings.ReadRunIs` | 3rdParty/Datalight/FlashFX/micbl/fhmicron.c:768-786 | after any schedule of polls, single-byte copies and engine steps the CPU has copied a prefix of the stream, every other byte is in order in FIFO or device, and no copy has met an empty FIFO |
| `Interleavings.ReadRunProceeds` | 3rdParty/Datalight/FlashFX/micbl/fhmicron.c:768-786 | with a multiple of 64 bytes no schedule deadlocks, and when everything is copied the FIFO is empty and the engine done |
| `Interleavings.WriteRunIs` | 3rdParty/Datalight/FlashFX/micbl/fhmicron.c:888-906 | the same for write posting: after any schedule no copy has met a full FIFO or the end of the data |
| `Interleavings.WriteRunConserves` | 3rdParty/Datalight/FlashFX/micbl/fhmicron.c:888-908 | after any schedule bytes sent, in the FIFO and not yet copied make up the data, and an empty FIFO after the last copy means the device has exactly the data |
| `Interleavings.WriteRunProceeds` | 3rdParty/Datalight/FlashFX/micbl/fhmicron.c:888-906 | no schedule deadlocks before the device has everything |
| `Micron.ReadNeverStuck` | 3rdParty/Datalight/FlashFX/micbl/fhmicron.c:772-780 | while the CPU waits for 64 bytes the engine can fetch one more |
| `Micron.WriteNeverStuck` | 3rdParty/Datalight/FlashFX/micbl/fhmicron.c:897-905 | while the CPU waits for 64 free bytes the engine can send one more |
| `Micron.LevelIs` | 3rdParty/Datalight/FlashFX/micbl/fhmicron.c:776-780 | for every status word whose bits 24 to 30 are the digits of a level up to 64, whatever its other bits are, masking and shifting gives that level |
| `Micron.NtmHook.WaitForData` | 3rdParty/Datalight/FlashFX/micbl/fhmicron.c:770-780 | the polling loop, which sees only status words, ends under a fair engine and finds exactly 64 bytes |
| `Micron.NtmHook.WaitForRoom` | 3rdParty/Datalight/FlashFX/micbl/fhmicron.c:896-905 | the polling loop, which sees only status words, ends under a fair engine, and then the FIFO is drained |
| `Micron.NtmHook.WaitForPosted` | 3rdParty/Datalight/FlashFX/micbl/fhmicron.c:683-689 | the polling loop on bit 0 of the status register ends under a fair bus, and then every direct write has reached the device |
| `Micron.NtmHook.IOMemCopyIn` | 3rdParty/Datalight/FlashFX/micbl/fhmicron.c:1087-1116 | either copy loop takes the next 64 bytes of the stream in order while the engine runs |
| `Micron.NtmHook.IOMemCopyOut` | 3rdParty/Datalight/FlashFX/micbl/fhmicron.c:1087-1116 | either copy loop puts the next 64 bytes of the data into the FIFO without overflow |
| `Micron.NtmHook.PrefetchSetup` | 3rdParty/Datalight/FlashFX/micbl/fhmicron.c:1039-1076 | on a configured chip: leaves the engine stopped, set up for the asked direction and byte count, and enabled so that the start bit alone makes it run; every bit of the mode register as `PrefetchModeIs` says |
| `Micron.PrefetchModeIs` | 3rdParty/Datalight/FlashFX/micbl/fhmicron.c:1060-1070 | the mode bit by bit: direction, enable, FIFO threshold 64, weight 15, round robin, the chip's digits, optimised access, cycle 1; all others clear |
| `Micron.ReadDoneEcc` | 3rdParty/Datalight/FlashFX/micbl/fhmicron.c:755-793 | a finished prefetching run: the ECC unit has seen exactly this page, all of it in 16-bit mode with the first block in the first result register; every byte crossed the bus in no-idle mode with the unit on, nothing is left in the FIFO |
| `Micron.WriteDoneEcc` | 3rdParty/Datalight/FlashFX/micbl/fhmicron.c:876-912 | the same for a finished write-posting run |
| `Micron.NtmHook.FfxHookNTMicronDataIn` | 3rdParty/Datalight/FlashFX/micbl/fhmicron.c:527-603 | the buffer receives the next bytes of the device in no-idle mode, through the FIFO of a configured chip or, for fewer than 64 bytes, directly even before the chip is configured; the idle mode is restored |
| `Micron.NtmHook.FfxHookNTMicronDataOut` | 3rdParty/Datalight/FlashFX/micbl/fhmicron.c:622-699 | the device receives exactly the given number of bytes from the start of the buffer, in no-idle mode; the idle mode is restored |
| `Micron.NtmHook.FfxHookEccCalcStart` | 3rdParty/Datalight/FlashFX/micbl/fhecc.c:102-144 | afterwards bits 0 and 7 of the unit's configuration are set, bits 1 to 3 are the digits of the chip, all others are clear, the control register names the first result, and the unit has seen nothing; nothing else of the hardware changes |
| `Micron.NtmHook.FfxHookEccCalcRead` | 3rdParty/Datalight/FlashFX/micbl/fhecc.c:169-253 | the hardware path writes the same bytes as the software path for the data the unit has seen, then clears the enable bit of the configuration and keeps its other bits |
| `Micron.NtmHook.constructor` | 3rdParty/Datalight/FlashFX/micbl/fhmicron.c:147-177 | creation clears the ECC unit's enable bit and keeps its other bits, sets both ECC block sizes to 512 bytes bit by bit, stops the engine, and selects and configures no chip |
| `Micron.NtmHook.FfxHookNTMicronPageRead` | 3rdParty/Datalight/FlashFX/micbl/fhmicron.c:724-809 | under every interleaving: buffer and device stream agree, every byte crossed the bus in no-idle mode with the ECC unit on, the ECC bytes are those of exactly this page, idle mode restored, ECC off |
| `Micron.NtmHook.FfxHookNTMicronPageWrite` | 3rdParty/Datalight/FlashFX/micbl/fhmicron.c:834-932 | under every interleaving: the device gets exactly the data with the ECC unit on for every byte; then spare byte 32 is 0x0F, bytes 1 to 12 are the ECC bytes, and every other one, the tag included, is as before |
| `Micron.NtmHook.FfxHookNTMicronReadyWait` | 3rdParty/Datalight/FlashFX/micbl/fhmicron.c:380-419 | success iff some status sample, the one after the timeout included, has bit 8 set, the ready pin of chip 0 |
| `Micron.ReadyBit` | 3rdParty/Datalight/FlashFX/micbl/fhmicron.c:401-410 | the bit looked at is bit 8 for chip 0 and bit 9 for any other chip number |
| `Micron.NtmHook.FfxHookNTMicronSetChipCommand` | 3rdParty/Datalight/FlashFX/micbl/fhmicron.c:435-462 | the command is sent iff some status sample has bit 8 set |
| `EndToEnd.WrittenTakesEcc` | 3rdParty/Datalight/FlashFX/micbl/fhecc.c:351 | a written page takes the ECC branch even with one flipped flag bit and whatever its ECC bytes are |
| `EndToEnd.UnwrittenAccepted` | 3rdParty/Datalight/FlashFX/micbl/fhecc.c:422-427 | an unwritten page, flag and ECC range at most one bit off, is accepted untouched and the branch's assertion holds |
| `EndToEnd.WrittenFallsThrough` | 3rdParty/Datalight/FlashFX/micbl/fhecc.c:351-424 | a written page with any flag bits flipped takes the branch without ECC iff two or more are flipped and at most one bit of its ECC range is cleared; the assertion there then fails iff the flips also leave the flag more than one bit from 0xFF |
| `EndToEnd.WrittenMistaken` | 3rdParty/Datalight/FlashFX/micbl/fhecc.c:422-427 | an input for which it fails: the page is accepted as unwritten, with its data unchecked |
| `EndToEnd.SingleFlipsRepaired` | 3rdParty/Datalight/FlashFX/micbl/fhecc.c:325-409 | at most one flip per segment and in the flag: exact data and stored ECC restored, SUCCESS, count four, DATACORRECTED iff a data or ECC bit differed |
| `EndToEnd.DoubleFlipsNoticed` | 3rdParty/Datalight/FlashFX/micbl/fhecc.c:360-420 | up to two flips per segment: segments with two give FIMUNCORRECTABLEDATA, are left as read and not counted; all others are restored and counted; DATACORRECTED iff some segment had one flip; spare bytes outside the ECC range as read |
| `EndToEnd.WrittenLayout` | 3rdParty/Datalight/FlashFX/micbl/fhmicron.c:926-928 | a written page by position: byte 32 is 0x0F, the ECC bytes of segment k are at 1+3k, every other spare byte, the tag at 38 to 41 among them, is as given |
| `EndToEnd.SpareSurvives` | 3rdParty/Datalight/FlashFX/micbl/project.h:59-61 | every spare byte but byte 32 and bytes 1 to 12 survives any sequence of page writes and corrections |
| `EndToEnd.TagSurvives` | 3rdParty/Datalight/FlashFX/micbl/project.h:62 | so the four tag bytes at 38 do: they lie in the spare area, apart from flag and ECC range |
| `EndToEnd.WriteCorruptRead` | 3rdParty/Datalight/FlashFX/micbl/fhmicron.c:724-932 | the code of the whole pipeline, write, corrupt with up to two flips per segment and one in the flag, read, correct, ends as `DoubleFlipsNoticed` says; without double flips the caller gets exactly the data that was written |

## Left out

- FfxHookEccCalcRead: requires a multiple of 512 bytes where the source asserts 256, because for any other length its loop never ends (`PageEcc.CalcReadTerminates`), and at most nine segments, one for each result register.
- FfxHookNTMicronPageWrite: for a page shorter than 2048 bytes says nothing about the stored bytes after the calculated ECC, because the source copies uninitialised stack memory there; a page may have at most eight segments, as many as `abECC` has room for.
- The NTM layer above the hook (page program and read commands, address cycles, `StatusIn`, `AddressOut`): thin wrappers, or not part of this model. `EndToEnd.ProgramPage` and `EndToEnd.FetchPage` call the hook's transfers in order.
- `FfxHookNTMicronGetPageStatus` and the tag encoding of `nthelptags.c`: only the erased-range test of that file is modelled.
- M60 on-die ECC, and the OMAP35x variant of the stored format (`dleccomap35x.c`): not used by this project's page layout.
- The branches compiled out by `USE_PREFETCH_MODE` and by an 8-bit `NAND_DATA_WIDTH_BYTES`; the software ECC branch is modelled as `PageEcc.SoftwareEccCalcRead`.
- More than one chip: `MAX_CHIPS` is 1, and the chip-select fields of the engine and the ECC unit do not choose between devices.
- constructor: models the first creation; a later one leaves all registers alone, and the write-protect pin is not modelled.
- Real time: `FfxHookNTMicronReadyWait` takes the status samples it sees as a parameter.
- The width of the engine's transfer-count register, which bounds a single transfer to 8 KB in hardware.
- Pointer alignment: whether `IOMemCopy` takes its word or its byte path is a parameter.
- Debug output, profiling, tracing, register dumps, address mapping, and assertions about pointers.
- The order of the error-free tests in `CorrectPage`: the erased-range test has no effect, so it is evaluated before the flag test and not only when that fails.
