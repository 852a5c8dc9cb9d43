// The Micron NTM hook of fhmicron.c and the hardware ECC path of fhecc.c: page transfers
// through the prefetch/write-posting FIFO, with the ECC unit watching.
module Micron {
  import opened Words
  import opened Bits
  import opened DclEcc
  import opened EccMeaning
  import opened EccFormats
  import opened HardwareEcc
  import opened SpareFlags
  import opened PageEcc
  import opened Gpmc

  const MAX_CHIPS := 1
  const MAX_ECC_BYTES_PER_PAGE := 24
  const NAND_IO_BYTES := 2

  const SYSCONFIG_NO_IDLE: Word32 := 0x8
  const STATUS_WRITEBUFFEREMPTY: Word32 := 0x1
  const STATUS_WAIT0_READY: Word32 := 0x100
  const STATUS_WAIT1_READY: Word32 := 0x200
  const FIFOPOINTER_MASK: Word32 := 0x7F00_0000
  const ECC_CONFIG_ENABLE: Word32 := 0x1
  const ECC_CONFIG_16BIT: Word32 := 0x80
  const ECC_CONTROL_CLEAR: Word32 := 0x100
  const ECC_CONTROL_POINTER_1: Word32 := 0x1
  const ECC_SIZE_BOTH_512: Word32 := 0x3FC0_0000 | 0xF_F000 | 0x1

  // ---------- register values ----------

  function ConfigFor(chip: Word32): Word32 {
    ECC_CONFIG_16BIT | ((chip << 1) & 0xE)
  }

  function EccConfigFor(nChip: nat): Word32 {
    ConfigFor(WordOf(nChip))
  }

  function Enabled(config: Word32): Word32 {
    config | ECC_CONFIG_ENABLE
  }

  function Disabled(config: Word32): Word32 {
    config & !ECC_CONFIG_ENABLE
  }

  // The mode bits of PrefetchSetup, for the chip number as a word.
  function ModeFor(chip: Word32, fWriting: bool): Word32 {
    var ulMode := ((chip << 24) & 0x0700_0000) | 0x0800_0000 | 0x1000_0000 | 0x000F_0000 | 0x0080_0000 | 0x4000 | 0x80;
    if fWriting then ulMode | 0x1 else ulMode
  }

  function PrefetchMode(fWriting: bool, nChip: nat): Word32 {
    ModeFor(WordOf(nChip), fWriting)
  }

  lemma PrefetchModeBits(fWriting: bool, nChip: nat)
    ensures PrefetchMode(fWriting, nChip) & 0x80 != 0
    ensures PrefetchMode(fWriting, nChip) & 0x1 != 0 <==> fWriting
  {
    hide WordOf;
  }

  // DCLBITSET for chip 0, the only one there is.
  function WithChip0(mask: Word32): Word32 {
    mask | 1
  }

  lemma LowestParts(w: Word32)
    ensures LowBit(WithChip0(w)) && Half(WithChip0(w)) == Half(w)
  {}

  lemma LowestSet(w: Word32, n: nat)
    ensures IsSet(WithChip0(w), n) <==> IsSet(w, n) || n == 0
  {
    LowestParts(w);
    hide LowBit, Half, WithChip0;
  }

  // ---------- the same values by bits ----------

  // Three binary digits of a chip number.
  lemma ChipDigit(nChip: nat, k: nat)
    requires k < 3
    ensures Tests(WordOf(nChip), k) <==> Digit(nChip, k)
  {
    hide WordOf;
    if k == 0 { LowestDigit(nChip); } else if k == 1 { DigitOne(nChip); } else { DigitTwo(nChip); }
  }

  lemma ConfigBit(chip: Word32, k: nat)
    requires k < 32
    ensures Tests(Enabled(ConfigFor(chip)), k) <==> k == 0 || k == 7 || (1 <= k <= 3 && Tests(chip, (k + 2) % 3))
  {
    match k
    case 0 => case 1 => case 2 => case 3 => case 4 => case 5 => case 6 => case 7 => case 8 => case 9 =>
    case 10 => case 11 => case 12 => case 13 => case 14 => case 15 => case 16 => case 17 => case 18 =>
    case 19 => case 20 => case 21 => case 22 => case 23 => case 24 => case 25 => case 26 => case 27 =>
    case 28 => case 29 => case 30 => case _ =>
  }

  // The ECC unit is enabled, for a 16-bit bus and the chip, and nothing else is chosen.
  lemma EccConfigIs(nChip: nat, k: nat)
    ensures IsSet(Enabled(EccConfigFor(nChip)), k)
       <==> k == 0 || k == 7 || (1 <= k <= 3 && Digit(nChip, k - 1))
  {
    hide WordOf, IsSet, Tests, Enabled, ConfigFor, Digit;
    if k < 32 {
      BitSet(Enabled(EccConfigFor(nChip)), k);
      ConfigBit(WordOf(nChip), k);
      if 1 <= k <= 3 { ChipDigit(nChip, k - 1); }
    } else {
      BeyondWord(Enabled(EccConfigFor(nChip)), k);
    }
  }

  lemma DisabledParts(config: Word32)
    ensures !LowBit(Disabled(config)) && Half(Disabled(config)) == Half(config)
  {}

  lemma DisabledIs(config: Word32, k: nat)
    ensures IsSet(Disabled(config), k) <==> k != 0 && IsSet(config, k)
  {
    DisabledParts(config);
    hide LowBit, Half, Disabled;
  }

  lemma FirstPointer(k: nat)
    ensures IsSet(ECC_CONTROL_POINTER_1, k) <==> k == 0
  {
    assert LowBit(1) && Half(1) == 0;
    hide LowBit, Half;
    if k > 0 { ZeroSet(k - 1); }
  }

  lemma ModeBitLow(chip: Word32, fWriting: bool, k: nat)
    requires k < 16
    ensures Tests(ModeFor(chip, fWriting), k) <==> k == 7 || k == 14 || (k == 0 && fWriting)
  {
    match k
    case 0 => case 1 => case 2 => case 3 => case 4 => case 5 => case 6 => case 7 => case 8 => case 9 =>
    case 10 => case 11 => case 12 => case 13 => case 14 => case _ =>
  }

  lemma ModeBitHigh(chip: Word32, fWriting: bool, k: nat)
    requires 16 <= k < 32
    ensures Tests(ModeFor(chip, fWriting), k)
       <==> || 16 <= k <= 19 || k == 23 || k == 27 || k == 28
            || (24 <= k <= 26 && Tests(chip, k % 3))
  {
    match k
    case 16 => case 17 => case 18 => case 19 => case 20 => case 21 => case 22 => case 23 => case 24 =>
    case 25 => case 26 => case 27 => case 28 => case 29 => case 30 => case _ =>
  }

  // The engine is enabled (bit 7) for the direction and the chip, with a FIFO threshold of 64
  // bytes (64 in bits 8 to 14), weight 15 (bits 16 to 19) and round robin (bit 23), and with
  // optimised access (bit 27) saving one cycle (1 in bits 28 to 30); nothing else is chosen.
  lemma PrefetchModeIs(fWriting: bool, nChip: nat, k: nat)
    ensures IsSet(PrefetchMode(fWriting, nChip), k)
       <==> || (k == 0 && fWriting) || k == 7 || (8 <= k <= 14 && Digit(64, k - 8)) || 16 <= k <= 19 || k == 23
            || (24 <= k <= 26 && Digit(nChip, k - 24)) || k == 27 || (28 <= k <= 30 && Digit(1, k - 28))
  {
    DigitsOf64(k);
    hide PrefetchMode, IsSet, Digit;
    if k < 16 {
      ModeIsLow(fWriting, nChip, k);
    } else if k < 32 {
      ModeIsHigh(fWriting, nChip, k);
    } else {
      BeyondWord(PrefetchMode(fWriting, nChip), k);
    }
  }

  lemma ModeIsLow(fWriting: bool, nChip: nat, k: nat)
    requires k < 16
    ensures IsSet(PrefetchMode(fWriting, nChip), k) <==> k == 7 || k == 14 || (k == 0 && fWriting)
  {
    hide ModeFor, WordOf, IsSet, Tests;
    BitSet(PrefetchMode(fWriting, nChip), k);
    ModeBitLow(WordOf(nChip), fWriting, k);
  }

  lemma ModeIsHigh(fWriting: bool, nChip: nat, k: nat)
    requires 16 <= k < 32
    ensures IsSet(PrefetchMode(fWriting, nChip), k)
       <==> 16 <= k <= 19 || k == 23 || k == 27 || k == 28 || (24 <= k <= 26 && Digit(nChip, k - 24))
  {
    hide ModeFor, WordOf, IsSet, Tests, Digit;
    BitSet(PrefetchMode(fWriting, nChip), k);
    ModeBitHigh(WordOf(nChip), fWriting, k);
    if 24 <= k <= 26 { ChipDigit(nChip, k - 24); }
  }

  lemma DigitsOf64(k: nat)
    ensures 8 <= k <= 14 ==> (Digit(64, k - 8) <==> k == 14)
    ensures 28 <= k <= 30 ==> (Digit(1, k - 28) <==> k == 28)
  {
    assert Digit(64, 6) by { assert Digit(16, 4) && Digit(4, 2); }
    assert Digit(1, 0) && !Digit(1, 1) && !Digit(1, 2);
    assert !Digit(64, 0) && !Digit(64, 1) && !Digit(64, 2) && !Digit(64, 3) && !Digit(64, 4) && !Digit(64, 5) by {
      assert !Digit(32, 4) && !Digit(16, 3) && !Digit(8, 2);
    }
  }

  // Both block sizes are 2 * (255 + 1) bytes, and the first result takes the second one.
  lemma SizeBits(k: nat)
    requires k < 32
    ensures Tests(ECC_SIZE_BOTH_512, k) <==> k == 0 || 12 <= k <= 19 || 22 <= k <= 29
  {
    match k
    case 0 => case 1 => case 2 => case 3 => case 4 => case 5 => case 6 => case 7 => case 8 => case 9 =>
    case 10 => case 11 => case 12 => case 13 => case 14 => case 15 => case 16 => case 17 => case 18 =>
    case 19 => case 20 => case 21 => case 22 => case 23 => case 24 => case 25 => case 26 => case 27 =>
    case 28 => case 29 => case 30 => case _ =>
  }

  lemma EccSizeIs(k: nat)
    ensures IsSet(ECC_SIZE_BOTH_512, k) <==> k == 0 || 12 <= k <= 19 || 22 <= k <= 29
  {
    hide IsSet, Tests;
    if k < 32 {
      BitSet(ECC_SIZE_BOTH_512, k);
      SizeBits(k);
    } else {
      BeyondWord(ECC_SIZE_BOTH_512, k);
    }
  }

  // ---------- states between the transfers ----------

  // FfxHookEccCalcStart clears the results, selects the first result register and enables the unit.
  function EccOn(h: Gpmc, nChip: nat): Gpmc {
    h.(eccConfig := Enabled(EccConfigFor(nChip)), eccControl := ECC_CONTROL_POINTER_1, eccSeen := [],
       eccSpoiled := false)
  }

  function EccOff(h: Gpmc): Gpmc {
    h.(eccConfig := Disabled(h.eccConfig))
  }

  lemma EccOnActive(h: Gpmc, nChip: nat)
    ensures EccOn(h, nChip).EccActive() && EccOn(h, nChip).FirstResult() == 1
  {
    hide WordOf;
  }

  lemma EccOffInactive(h: Gpmc)
    ensures !EccOff(h).EccActive()
    ensures forall v: Word32 :: !EccOff(h).(sysconfig := v).EccActive()
  {}

  // FfxHookNTMicronCreate switches the ECC unit and the engine off and sets the block sizes.
  function SwitchedOff(found: Gpmc): Gpmc {
    EccOff(found).(eccSize := ECC_SIZE_BOTH_512, prefetchConfig1 := 0, prefetchConfig2 := 0, started := false)
  }

  lemma SwitchedOffIs(found: Gpmc)
    requires found.posted == [] && found.fifo == []
    ensures var h := SwitchedOff(found); h.Idle() && !h.EccActive() && h.BlocksOf512()
  {}

  lemma SwitchedOffBits(found: Gpmc)
    ensures forall k: nat :: IsSet(SwitchedOff(found).eccConfig, k) <==> k != 0 && IsSet(found.eccConfig, k)
    ensures forall k: nat :: IsSet(SwitchedOff(found).eccSize, k) <==> k == 0 || 12 <= k <= 19 || 22 <= k <= 29
  {
    hide IsSet, Disabled;
    forall k: nat ensures IsSet(SwitchedOff(found).eccConfig, k) <==> k != 0 && IsSet(found.eccConfig, k) {
      DisabledIs(found.eccConfig, k);
    }
    forall k: nat ensures IsSet(SwitchedOff(found).eccSize, k) <==> k == 0 || 12 <= k <= 19 || 22 <= k <= 29 {
      EccSizeIs(k);
    }
  }

  // PrefetchSetup stops the engine and gives it its next job.
  function EngineSet(h: Gpmc, fWriting: bool, nChip: nat, nCount: nat): Gpmc {
    h.(started := false, prefetchConfig2 := nCount, prefetchConfig1 := PrefetchMode(fWriting, nChip))
  }

  // Starting the engine empties the FIFO and loads the transfer count.
  function EngineStarted(h: Gpmc): Gpmc {
    h.(started := true, fifo := [], toMove := h.prefetchConfig2)
  }

  lemma StartsReading(h: Gpmc, nChip: nat, nCount: nat)
    requires h.posted == [] && nCount <= |h.device|
    ensures ReadStarted(EngineStarted(EngineSet(h, false, nChip, nCount)))
  {
    PrefetchModeBits(false, nChip);
    hide PrefetchMode;
  }

  lemma StartsWriting(h: Gpmc, nChip: nat, nCount: nat)
    requires h.posted == []
    ensures WriteStarted(EngineStarted(EngineSet(h, true, nChip, nCount)))
  {
    PrefetchModeBits(true, nChip);
    hide PrefetchMode;
  }

  // ---------- the FIFO level in the status register ----------

  function FifoLevel(ulStatus: Word32): nat {
    Index((ulStatus & FIFOPOINTER_MASK) >> 24)
  }

  // The FIFO pointer field, bits 24 to 30, holds the level; the other bits may be anything.
  predicate ShowsLevel(ulStatus: Word32, level: nat) {
    forall k: nat :: k < 7 ==> (IsSet(ulStatus, 24 + k) <==> Digit(level, k))
  }

  lemma LevelField(v: Word32)
    ensures (v & FIFOPOINTER_MASK) >> 24 == Masked(v >> 24, 0x7F)
  {}

  lemma TwentyFourUp(v: Word32, k: nat)
    ensures IsSet(v, 24 + k) <==> IsSet(v >> 24, k)
  {
    hide IsSet;
    SixteenUp(v, 8 + k);
    EightUp(v >> 16, k);
    assert (v >> 16) >> 8 == v >> 24;
  }

  lemma SevenDigits()
    ensures PowerOfTwo(128) && Digits(128) == 7 && LowMask(128) == 0x7F
  {
    LowMasks();
    assert PowerOfTwo(32);
    assert Digits(16) == 4;
  }

  lemma MaskedFits(w: Word32)
    requires LowMask(128) == 0x7F
    ensures Fits(Masked(w, 0x7F), 128)
  {
    hide LowMask;
  }

  // The level is read from the field alone, whatever else the status word shows.
  lemma LevelIs(ulStatus: Word32, level: nat)
    requires level <= FIFO_BYTES && ShowsLevel(ulStatus, level)
    ensures FifoLevel(ulStatus) == level
  {
    hide IsSet, Digit, Digits, PowerOfTwo, LowMask, Fits, WordOf, Index, Masked;
    SevenDigits();
    LevelField(ulStatus);
    WordFits(level, 128);
    MaskedFits(ulStatus >> 24);
    forall k: nat | k < 7 ensures IsSet(Masked(ulStatus >> 24, 0x7F), k) <==> IsSet(WordOf(level), k) {
      TwentyFourUp(ulStatus, k);
      LowMaskSet(128, k);
      MaskedSet(ulStatus >> 24, 0x7F, k);
      WordOfSet(level, 128, k);
    }
    SameDigits(Masked(ulStatus >> 24, 0x7F), WordOf(level), 128);
    IndexOfWord(level, 128);
  }

  // A status word that shows a level, the one with zeros elsewhere.
  function StatusWith(level: nat): Word32 {
    WordOf(level) << 24
  }

  lemma ShiftedBack(w: Word32)
    requires Within(w, 0xFF)
    ensures (w << 24) >> 24 == w
  {}

  lemma FitsByte(w: Word32)
    requires LowMask(128) == 0x7F && Fits(w, 128)
    ensures Within(w, 0xFF)
  {
    hide LowMask;
  }

  lemma StatusShows(level: nat)
    requires level <= FIFO_BYTES
    ensures ShowsLevel(StatusWith(level), level)
  {
    hide IsSet, Digit, Digits, PowerOfTwo, LowMask, Fits, WordOf, Within;
    SevenDigits();
    WordFits(level, 128);
    FitsByte(WordOf(level));
    ShiftedBack(WordOf(level));
    forall k: nat | k < 7 ensures IsSet(StatusWith(level), 24 + k) <==> Digit(level, k) {
      TwentyFourUp(StatusWith(level), k);
      WordOfSet(level, 128, k);
    }
  }

  // ---------- progress ----------

  // While the CPU waits for 64 bytes, the engine can fetch: it never deadlocks.
  lemma ReadNeverStuck(h1: Gpmc, copied: nat, fetched: nat)
    requires ReadStarted(h1) && ReadCounters(h1, copied, fetched)
    requires copied + FIFO_BYTES <= h1.toMove && fetched < copied + FIFO_BYTES
    ensures Step(ReadState(h1, copied, fetched)) == ReadState(h1, copied, fetched + 1)
    ensures Step(ReadState(h1, copied, fetched)) != ReadState(h1, copied, fetched)
  {
    hide Step;
    ReadStep(h1, copied, fetched);
  }

  // While the CPU waits for 64 free bytes, the engine can send.
  lemma WriteNeverStuck(h1: Gpmc, data: seq<Byte>, copied: nat, sent: nat)
    requires WriteStarted(h1) && WriteCounters(h1, data, copied, sent)
    requires WriteState(h1, data, copied, sent).FifoPointer() < FIFO_BYTES
    ensures sent < copied
    ensures Step(WriteState(h1, data, copied, sent)) == WriteState(h1, data, copied, sent + 1)
    ensures Step(WriteState(h1, data, copied, sent)) != WriteState(h1, data, copied, sent)
  {
    hide Step;
    WriteStep(h1, data, copied, sent);
  }

  class NtmHook {
    var nChip: nat
    var nValidChipMask: Word32
    var hw: Gpmc

    // FfxHookNTMicronCreate: no chip selected, none configured, the ECC unit and the
    // prefetch engine switched off, ECC blocks of 512 bytes, everything else as the hardware
    // was found.
    constructor (found: Gpmc)
      requires found.posted == [] && found.fifo == []
      ensures hw.Idle() && !hw.EccActive() && hw.sysconfig == found.sysconfig
      ensures forall k: nat :: IsSet(hw.eccConfig, k) <==> k != 0 && IsSet(found.eccConfig, k)
      ensures forall k: nat :: IsSet(hw.eccSize, k) <==> k == 0 || 12 <= k <= 19 || 22 <= k <= 29
      ensures hw.BlocksOf512()
      ensures hw.device == found.device && hw.sent == found.sent && hw.trace == found.trace && hw.commands
          == found.commands
      ensures !ChipSelected() && forall n: nat :: !IsSet(nValidChipMask, n)
    {
      nChip := 0xFFFF_FFFF;
      nValidChipMask := 0;
      hw := SwitchedOff(found);
      new;
      SwitchedOffIs(found);
      SwitchedOffBits(found);
      hide IsSet, Disabled, Gpmc.Idle, Gpmc.EccActive, Gpmc.BlocksOf512;
      forall n: nat ensures !IsSet(nValidChipMask, n) {
        ZeroSet(n);
      }
    }

    method FfxHookNTMicronConfigure(nNewChip: nat) returns (ffxStat: FfxStat)
      requires nNewChip < MAX_CHIPS && !IsSet(nValidChipMask, nNewChip)
      modifies this`nValidChipMask
      ensures ffxStat == FfxstatSuccess
      ensures forall n: nat :: IsSet(nValidChipMask, n) <==> IsSet(old(nValidChipMask), n) || n == nNewChip
    {
      hide IsSet, WithChip0;
      forall n: nat ensures IsSet(WithChip0(nValidChipMask), n) <==> IsSet(nValidChipMask, n) || n == 0 {
        LowestSet(nValidChipMask, n);
      }
      nValidChipMask := WithChip0(nValidChipMask);
      ffxStat := FfxstatSuccess;
    }

    predicate ChipSelected()
      reads this
    {
      nChip < MAX_CHIPS
    }

    // ---------- accesses to the hardware ----------

    // Between two accesses of the CPU the engine takes any number of steps, none included.
    method Interfere() returns (ghost n: nat)
      modifies this`hw
      ensures hw == Steps(old(hw), n)
    {
      var k: nat := *;
      hw := Steps(hw, k);
      n := k;
    }

    // The engine may pause, but only finitely often between two steps: patience bounds the
    // pauses that remain before the next step.
    method InterfereFairly(patience: nat) returns (ghost n: nat, left: nat)
      modifies this`hw
      ensures hw == Steps(old(hw), n)
      ensures n == 0 ==> left < patience
    {
      var k: nat := *;
      left := *;
      if k == 0 {
        if patience == 0 {
          k := 1;
        } else {
          left := patience - 1;
        }
      }
      hw := Steps(hw, k);
      n := k;
    }

    method Settle()
      requires hw.Quiet()
      modifies this`hw
      ensures hw == old(hw)
    {
      ghost var before := hw;
      ghost var n := Interfere();
      QuietSteps(before, n);
    }

    method GetSysconfig() returns (v: Word32)
      requires hw.Quiet()
      modifies this`hw
      ensures hw == old(hw) && v == hw.sysconfig
    {
      Settle();
      v := hw.sysconfig;
    }

    method SetSysconfig(v: Word32)
      requires hw.Quiet()
      modifies this`hw
      ensures hw == old(hw).(sysconfig := v)
    {
      Settle();
      hw := hw.(sysconfig := v);
    }

    method GetEccConfig() returns (v: Word32)
      requires hw.Quiet()
      modifies this`hw
      ensures hw == old(hw) && v == hw.eccConfig
    {
      Settle();
      v := hw.eccConfig;
    }

    method SetEccConfig(v: Word32)
      requires hw.Quiet()
      modifies this`hw
      ensures hw == old(hw).(eccConfig := v)
    {
      Settle();
      hw := hw.(eccConfig := v);
    }

    method GetEccControl() returns (v: Word32)
      requires hw.Quiet()
      modifies this`hw
      ensures hw == old(hw) && v == hw.eccControl
    {
      Settle();
      v := hw.eccControl;
    }

    // Writing the clear bit (bit 8) clears the results; the bit itself reads as zero. A new
    // result pointer without it spoils what has been seen.
    method SetEccControl(v: Word32)
      requires hw.Quiet()
      modifies this`hw
      ensures hw == old(hw).(eccControl := v & !0x100,
                             eccSeen := if v & 0x100 != 0 then [] else old(hw).eccSeen,
                             eccSpoiled := v & 0x100 == 0 && (old(hw).eccSpoiled || old(hw).eccSeen != []))
    {
      Settle();
      hw := hw.(eccControl := v & !0x100,
                eccSeen := if v & 0x100 != 0 then [] else hw.eccSeen,
                eccSpoiled := v & 0x100 == 0 && (hw.eccSpoiled || hw.eccSeen != []));
    }

    // A result register, counted from zero: if the unit has seen nothing in the wrong mode,
    // any word with the parities of a block of 512 bytes, the first block being in the register
    // that the result pointer names.
    method GetEccResult(i: nat) returns (r: Word32)
      requires hw.Quiet() && i < ECC_RESULTS
      modifies this`hw
      ensures hw == old(hw)
      ensures var first := hw.FirstResult();
        && !hw.eccSpoiled && hw.BlocksOf512() && 1 <= first <= i + 1 && SEGMENT * (i + 2 - first) <= |hw.eccSeen|
        ==> HoldsParities(r, SegmentOf(hw.eccSeen, i + 1 - first))
    {
      Settle();
      r := *;
      var first := hw.FirstResult();
      if 1 <= first <= i + 1 && SEGMENT * (i + 2 - first) <= |hw.eccSeen| {
        var segment := SegmentOf(hw.eccSeen, i + 1 - first);
        if !HoldsParities(r, segment) {
          RegisterOfHolds(segment);
          r := RegisterOf(segment);
        }
      }
    }

    // ---------- fhecc.c ----------

    method FfxHookEccCalcStart(nLength: nat)
      requires nLength > 0 && nLength % DATA_BYTES_PER_ECC == 0
      requires hw.Quiet()
      modifies this`hw
      ensures hw == EccOn(old(hw), nChip) && hw.EccActive() && hw.eccSeen == []
      ensures forall k: nat ::
        IsSet(hw.eccConfig, k) <==> k == 0 || k == 7 || (1 <= k <= 3 && Digit(nChip, k - 1))
      ensures forall k: nat :: IsSet(hw.eccControl, k) <==> k == 0
    {
      hide EccConfigFor, IsSet, Digit, Enabled;
      EccOnActive(hw, nChip);
      forall k: nat
        ensures IsSet(Enabled(EccConfigFor(nChip)), k) <==> k == 0 || k == 7 || (1 <= k <= 3 && Digit(nChip, k - 1))
      {
        EccConfigIs(nChip, k);
      }
      forall k: nat ensures IsSet(ECC_CONTROL_POINTER_1, k) <==> k == 0 { FirstPointer(k); }
      var ulConfigVal := EccConfigFor(nChip);
      SetEccConfig(ulConfigVal);
      SetEccControl(ECC_CONTROL_CLEAR);
      ulConfigVal := GetEccControl();
      ulConfigVal := ulConfigVal | ECC_CONTROL_POINTER_1;
      SetEccControl(ulConfigVal);
      ulConfigVal := GetEccConfig();
      ulConfigVal := Enabled(ulConfigVal);
      SetEccConfig(ulConfigVal);
    }

    method FfxHookEccCalcRead(nLength: nat, pabECC: array<Byte>)
      requires nLength > 0 && nLength % SEGMENT == 0 && nLength / SEGMENT <= ECC_RESULTS
      requires BYTES_PER_ECC * (nLength / SEGMENT) <= pabECC.Length
      requires hw.Quiet() && nLength <= |hw.eccSeen|
      requires !hw.eccSpoiled && hw.BlocksOf512() && hw.FirstResult() == 1
      modifies this`hw, pabECC
      ensures hw == EccOff(old(hw)) && !hw.EccActive()
      ensures forall k: nat :: IsSet(hw.eccConfig, k) <==> k != 0 && IsSet(old(hw.eccConfig), k)
      ensures pabECC[..] == EccBytes(hw.eccSeen, nLength / SEGMENT) + old(pabECC[BYTES_PER_ECC * (nLength / SEGMENT)..])
    {
      hide EccBytes, SegmentEcc, SegmentOf, PutCsst, Disabled, HoldsParities, RegisterBytes, IsSet;
      ghost var h, was, n := hw, pabECC[..], nLength / SEGMENT;
      var left := nLength;
      var nRegisterIndex, nn := 0, 0;
      while left != 0
        invariant nRegisterIndex <= n && left == SEGMENT * (n - nRegisterIndex) && nn == BYTES_PER_ECC * nRegisterIndex
        invariant hw == h && SEGMENT * n <= |h.eccSeen|
        invariant pabECC[..] == EccBytes(h.eccSeen, nRegisterIndex) + was[nn..]
        decreases left
      {
        var ulConfigVal := GetEccResult(nRegisterIndex);
        RegisterIsSegmentEcc(ulConfigVal, SegmentOf(h.eccSeen, nRegisterIndex));
        NextEccBytes(h.eccSeen, nRegisterIndex, was);
        StoreRegister(ulConfigVal, pabECC, nn);
        nn := nn + BYTES_PER_ECC;
        nRegisterIndex := nRegisterIndex + 1;
        left := left - DATA_BYTES_PER_ECC * 2;
      }
      EccOffInactive(hw);
      forall k: nat ensures IsSet(Disabled(h.eccConfig), k) <==> k != 0 && IsSet(h.eccConfig, k) {
        DisabledIs(h.eccConfig, k);
      }
      var ulConfigVal := GetEccConfig();
      ulConfigVal := Disabled(ulConfigVal);
      SetEccConfig(ulConfigVal);
    }

    // ---------- the FIFO ----------

    method SetPrefetchControl(start: bool)
      requires hw.Quiet()
      modifies this`hw
      ensures hw == if start then EngineStarted(old(hw)) else old(hw).(started := false)
    {
      Settle();
      hw := if start then EngineStarted(hw) else hw.(started := false);
    }

    method PrefetchSetup(fWriting: bool, nCount: nat)
      requires ChipSelected() && IsSet(nValidChipMask, nChip) && nCount > 0 && hw.Quiet()
      modifies this`hw
      ensures hw == EngineSet(old(hw), fWriting, nChip, nCount)
      ensures !hw.Running() && (hw.Writing() <==> fWriting) && hw.prefetchConfig2 == nCount
      ensures EngineStarted(hw).Running()
      ensures forall k: nat ::
        IsSet(hw.prefetchConfig1, k)
        <==> || (k == 0 && fWriting) || k == 7 || (8 <= k <= 14 && Digit(64, k - 8)) || 16 <= k <= 19 || k == 23
             || (24 <= k <= 26 && Digit(nChip, k - 24)) || k == 27 || (28 <= k <= 30 && Digit(1, k - 28))
    {
      PrefetchModeBits(fWriting, nChip);
      hide PrefetchMode, IsSet, Digit;
      forall k: nat
        ensures IsSet(PrefetchMode(fWriting, nChip), k)
          <==> || (k == 0 && fWriting) || k == 7 || (8 <= k <= 14 && Digit(64, k - 8)) || 16 <= k <= 19 || k == 23
               || (24 <= k <= 26 && Digit(nChip, k - 24)) || k == 27 || (28 <= k <= 30 && Digit(1, k - 28))
      {
        PrefetchModeIs(fWriting, nChip, k);
      }
      SetPrefetchControl(false);
      var ulMode := PrefetchMode(fWriting, nChip);
      Settle();
      hw := hw.(prefetchConfig2 := nCount);
      Settle();
      hw := hw.(prefetchConfig1 := ulMode);
    }

    // PrefetchSetup, then the start bit.
    method StartTransfer(fWriting: bool, nCount: nat)
      requires ChipSelected() && IsSet(nValidChipMask, nChip) && nCount > 0 && hw.Quiet()
      requires fWriting || nCount <= |hw.device|
      modifies this`hw
      ensures hw == EngineStarted(EngineSet(old(hw), fWriting, nChip, nCount))
      ensures hw.toMove == nCount && hw.device == old(hw.device)
      ensures if fWriting then WriteStarted(hw) else ReadStarted(hw)
    {
      hide PrefetchMode, IsSet;
      ghost var h := hw;
      PrefetchSetup(fWriting, nCount);
      SetPrefetchControl(true);
      if fWriting { StartsWriting(h, nChip, nCount); } else { StartsReading(h, nChip, nCount); }
    }

    // Any status word whose FIFO pointer field is right.
    method GetPrefetchStatus() returns (v: Word32)
      requires |hw.fifo| <= FIFO_BYTES
      ensures ShowsLevel(v, hw.FifoPointer())
    {
      hide IsSet, Digit;
      v := *;
      if !ShowsLevel(v, hw.FifoPointer()) {
        StatusShows(hw.FifoPointer());
        v := StatusWith(hw.FifoPointer());
      }
    }

    // A load of n bytes from the FIFO window.
    method FifoLoad(dest: array<Byte>, at: nat, n: nat, ghost h1: Gpmc, ghost copied: nat, ghost fetched: nat)
      returns (ghost f: nat)
      requires ReadStarted(h1) && ReadCounters(h1, copied, fetched) && hw == ReadState(h1, copied, fetched)
      requires copied + n <= fetched && at + n <= dest.Length
      modifies this`hw, dest
      ensures fetched <= f && ReadCounters(h1, copied + n, f) && hw == ReadState(h1, copied + n, f)
      ensures dest[..] == Splice(old(dest[..]), at, h1.device[copied..copied + n])
    {
      hide ReadState, Splice;
      ghost var k := Interfere();
      ReadSteps(h1, copied, fetched, k);
      f := Furthest(fetched, k, ReadLimit(h1, copied));
      ReadTake(h1, copied, f, n);
      StoreBytes(hw.fifo[..n], dest, at);
      hw := hw.(fifo := hw.fifo[n..]);
    }

    // A store of n bytes into the FIFO window.
    method FifoStore(src: array<Byte>, at: nat, n: nat, ghost h1: Gpmc, ghost data: seq<Byte>, ghost sent: nat)
      returns (ghost s: nat)
      requires data <= src[..]
      requires WriteStarted(h1) && WriteCounters(h1, data, at, sent) && hw == WriteState(h1, data, at, sent)
      requires at + n <= |data| && at + n <= sent + FIFO_BYTES
      modifies this`hw
      ensures sent <= s && WriteCounters(h1, data, at + n, s) && hw == WriteState(h1, data, at + n, s)
    {
      hide WriteState;
      ghost var k := Interfere();
      WriteSteps(h1, data, at, sent, k);
      s := Furthest(sent, k, at);
      WritePut(h1, data, at, s, n);
      assert src[at..at + n] == data[at..at + n];
      hw := hw.(fifo := hw.fifo + src[at..at + n]);
    }

    // IOMemCopy out of the FIFO: 64 single bytes, or two 32-byte groups of words when both
    // addresses are aligned.
    method IOMemCopyIn(fAligned: bool, dest: array<Byte>, at: nat, ghost h1: Gpmc, ghost copied: nat,
            ghost fetched: nat)
      returns (ghost f: nat)
      requires ReadStarted(h1) && ReadCounters(h1, copied, fetched) && hw == ReadState(h1, copied, fetched)
      requires copied + FIFO_BYTES <= fetched && at + FIFO_BYTES <= dest.Length
      modifies this`hw, dest
      ensures fetched <= f && ReadCounters(h1, copied + FIFO_BYTES, f) && hw == ReadState(h1, copied + FIFO_BYTES, f)
      ensures dest[..] == Splice(old(dest[..]), at, h1.device[copied..copied + FIFO_BYTES])
    {
      hide ReadState, Splice;
      ghost var was := dest[..];
      f := fetched;
      var nUnit := if fAligned then 4 else 1;
      var nDone := 0;
      SpliceNothing(was, at);
      assert h1.device[copied..copied + 0] == [];
      while nDone < FIFO_BYTES
        invariant 0 <= nDone <= FIFO_BYTES && nDone % nUnit == 0
        invariant fetched <= f && ReadCounters(h1, copied + nDone, f) && hw == ReadState(h1, copied + nDone, f)
        invariant dest[..] == Splice(was, at, h1.device[copied..copied + nDone])
      {
        SpliceTwice(was, at, h1.device[copied..copied + nDone], h1.device[copied + nDone..copied + nDone + nUnit]);
        assert h1.device[copied..copied + nDone] + h1.device[copied + nDone..copied + nDone + nUnit]
            == h1.device[copied..copied + nDone + nUnit];
        f := FifoLoad(dest, at + nDone, nUnit, h1, copied + nDone, f);
        nDone := nDone + nUnit;
      }
    }

    // IOMemCopy into the FIFO.
    method IOMemCopyOut(fAligned: bool, src: array<Byte>, at: nat, ghost h1: Gpmc, ghost data: seq<Byte>,
            ghost sent: nat)
      returns (ghost s: nat)
      requires data <= src[..]
      requires WriteStarted(h1) && WriteCounters(h1, data, at, sent) && hw == WriteState(h1, data, at, sent)
      requires at + FIFO_BYTES <= |data| && sent == at
      modifies this`hw
      ensures sent <= s && WriteCounters(h1, data, at + FIFO_BYTES, s)
      ensures hw == WriteState(h1, data, at + FIFO_BYTES, s)
    {
      hide WriteState;
      s := sent;
      var nUnit := if fAligned then 4 else 1;
      var nDone := 0;
      while nDone < FIFO_BYTES
        invariant 0 <= nDone <= FIFO_BYTES && nDone % nUnit == 0
        invariant sent <= s && WriteCounters(h1, data, at + nDone, s) && hw == WriteState(h1, data, at + nDone, s)
      {
        s := FifoStore(src, at + nDone, nUnit, h1, data, s);
        nDone := nDone + nUnit;
      }
    }

    // Polls until 64 bytes can be read. The engine eventually steps, so this ends.
    method WaitForData(ghost h1: Gpmc, ghost copied: nat, ghost fetched: nat) returns (ghost f: nat)
      requires ReadStarted(h1) && ReadCounters(h1, copied, fetched) && hw == ReadState(h1, copied, fetched)
      requires copied + FIFO_BYTES <= h1.toMove
      modifies this`hw
      ensures fetched <= f == copied + 64 && ReadCounters(h1, copied, f) && hw == ReadState(h1, copied, f)
    {
      hide Step, Steps, FifoLevel, ShowsLevel;
      f := fetched;
      var ulFifoLev := 0;
      var patience: nat := *;
      while ulFifoLev < FIFO_BYTES
        invariant fetched <= f && ReadCounters(h1, copied, f) && hw == ReadState(h1, copied, f)
        invariant ulFifoLev <= f - copied
        decreases h1.toMove - f, if ulFifoLev < FIFO_BYTES then 1 else 0, patience
      {
        ghost var k;
        k, patience := InterfereFairly(patience);
        ReadSteps(h1, copied, f, k);
        f := Furthest(f, k, ReadLimit(h1, copied));
        var ulStatus := GetPrefetchStatus();
        LevelIs(ulStatus, hw.FifoPointer());
        ulFifoLev := FifoLevel(ulStatus);
      }
    }

    // Polls until 64 bytes can be written, which means that the FIFO is empty.
    method WaitForRoom(ghost h1: Gpmc, ghost data: seq<Byte>, ghost copied: nat, ghost sent: nat) returns (ghost s: nat)
      requires WriteStarted(h1) && WriteCounters(h1, data, copied, sent) && hw == WriteState(h1, data, copied, sent)
      modifies this`hw
      ensures s == copied && WriteCounters(h1, data, copied, s) && hw == WriteState(h1, data, copied, s)
    {
      hide Step, Steps, FifoLevel, ShowsLevel;
      s := sent;
      var ulFifoLev := 0;
      var patience: nat := *;
      while ulFifoLev < FIFO_BYTES
        invariant sent <= s && WriteCounters(h1, data, copied, s) && hw == WriteState(h1, data, copied, s)
        invariant ulFifoLev <= FIFO_BYTES - (copied - s)
        decreases copied - s, if ulFifoLev < FIFO_BYTES then 1 else 0, patience
      {
        ghost var k;
        k, patience := InterfereFairly(patience);
        WriteSteps(h1, data, copied, s, k);
        s := Furthest(s, k, copied);
        var ulStatus := GetPrefetchStatus();
        LevelIs(ulStatus, hw.FifoPointer());
        ulFifoLev := FifoLevel(ulStatus);
      }
    }

    // ---------- the transfer loops ----------

    method PrefetchIn(fAligned: bool, pBuffer: array<Byte>, nCount: nat, ghost h1: Gpmc)
      requires ReadStarted(h1) && hw == h1 && h1.toMove == nCount
      requires nCount % FIFO_BYTES == 0 && nCount <= pBuffer.Length
      modifies this`hw, pBuffer
      ensures hw == ReadState(h1, nCount, nCount)
      ensures pBuffer[..] == Splice(old(pBuffer[..]), 0, h1.device[..nCount])
    {
      hide ReadState, Splice;
      ReadStart(h1);
      ghost var was := pBuffer[..];
      ghost var f := 0;
      var nBytes: nat, at: nat := nCount, 0;
      SpliceNothing(was, 0);
      assert h1.device[..0] == [];
      while nBytes != 0
        invariant at + nBytes == nCount && nBytes % FIFO_BYTES == 0
        invariant ReadCounters(h1, at, f) && hw == ReadState(h1, at, f)
        invariant pBuffer[..] == Splice(was, 0, h1.device[..at])
        decreases nBytes
      {
        f := WaitForData(h1, at, f);
        SpliceTwice(was, 0, h1.device[..at], h1.device[at..at + FIFO_BYTES]);
        assert h1.device[..at] + h1.device[at..at + FIFO_BYTES] == h1.device[..at + FIFO_BYTES];
        f := IOMemCopyIn(fAligned, pBuffer, at, h1, at, f);
        at := at + FIFO_BYTES;
        nBytes := nBytes - FIFO_BYTES;
      }
    }

    method PostOut(fAligned: bool, pData: array<Byte>, nCount: nat, ghost h1: Gpmc)
      requires WriteStarted(h1) && hw == h1 && h1.toMove == nCount <= pData.Length
      requires nCount % FIFO_BYTES == 0
      modifies this`hw
      ensures hw == WriteState(h1, pData[..nCount], nCount, nCount)
    {
      hide WriteState;
      ghost var data := pData[..nCount];
      WriteStart(h1, data);
      ghost var s := 0;
      var nBytes: nat, at: nat := nCount, 0;
      while nBytes != 0
        invariant at + nBytes == nCount && nBytes % FIFO_BYTES == 0
        invariant s == at && hw == WriteState(h1, data, at, s)
        decreases nBytes
      {
        s := IOMemCopyOut(fAligned, pData, at, h1, data, s);
        at := at + FIFO_BYTES;
        nBytes := nBytes - FIFO_BYTES;
        s := WaitForRoom(h1, data, at, s);
      }
    }

    // ---------- fhmicron.c ----------

    // One 16-bit load from the data port.
    method NandGet(pBuffer: array<Byte>, at: nat, ghost h0: Gpmc)
      requires EngineOff(h0) && at + NAND_IO_BYTES <= |h0.device| && at + NAND_IO_BYTES <= pBuffer.Length
      requires hw == GetState(h0, at)
      modifies this`hw, pBuffer
      ensures hw == GetState(h0, at + NAND_IO_BYTES)
      ensures pBuffer[..] == Splice(old(pBuffer[..]), at, h0.device[at..at + NAND_IO_BYTES])
    {
      Settle();
      GetNext(h0, at);
      GetNext(h0, at + 1);
      hide Get, GetState, Splice;
      var low := hw.device[0];
      hw := Get(hw);
      var high := hw.device[0];
      hw := Get(hw);
      assert h0.device[at..at + NAND_IO_BYTES] == [low, high];
      StoreBytes([low, high], pBuffer, at);
    }

    // Short transfers, such as reading the chip's ID, come before the chip is configured;
    // only those that go through the FIFO need the FIFO window that Configure sets.
    method FfxHookNTMicronDataIn(fAligned: bool, pBuffer: array<Byte>, nCount: nat)
      requires ChipSelected() && nCount > 0
      requires nCount * NAND_IO_BYTES >= FIFO_BYTES ==>
        IsSet(nValidChipMask, nChip) && nCount * NAND_IO_BYTES % FIFO_BYTES == 0
      requires nCount * NAND_IO_BYTES <= pBuffer.Length && nCount * NAND_IO_BYTES <= |hw.device|
      requires hw.Idle()
      modifies this`hw, pBuffer
      ensures Received(old(hw), hw, old(hw.device)[..nCount * NAND_IO_BYTES], old(hw).EccActive())
      ensures pBuffer[..] == Splice(old(pBuffer[..]), 0, old(hw.device)[..nCount * NAND_IO_BYTES])
    {
      hide Splice, ReadState, GetState, IsSet, EngineSet, EngineStarted,
           Gpmc.EccActive, Gpmc.Writing, Gpmc.NoIdle;
      ghost var h, was := hw, pBuffer[..];
      var nBytes := nCount * NAND_IO_BYTES;
      var ulOldIdleMode := GetSysconfig();
      SetSysconfig(SYSCONFIG_NO_IDLE);
      ghost var h0 := hw;
      if nBytes >= FIFO_BYTES {
        StartTransfer(false, nBytes);
        ghost var h1 := hw;
        PrefetchIn(fAligned, pBuffer, nBytes, h1);
        ReadDone(h, h0, h1, nChip, nBytes);
        SetSysconfig(ulOldIdleMode);
      } else {
        var left: nat, at: nat := nBytes, 0;
        GetNothing(h0);
        SpliceNothing(was, 0);
        assert h0.device[..0] == [];
        while left != 0
          invariant at + left == nBytes && left % NAND_IO_BYTES == 0
          invariant hw == GetState(h0, at)
          invariant pBuffer[..] == Splice(was, 0, h0.device[..at])
          decreases left
        {
          SpliceTwice(was, 0, h0.device[..at], h0.device[at..at + NAND_IO_BYTES]);
          assert h0.device[..at] + h0.device[at..at + NAND_IO_BYTES] == h0.device[..at + NAND_IO_BYTES];
          NandGet(pBuffer, at, h0);
          at := at + NAND_IO_BYTES;
          left := left - NAND_IO_BYTES;
        }
        GetDone(h, h0, nBytes);
        SetSysconfig(ulOldIdleMode);
      }
    }

    // One 16-bit store to the data port.
    method NandPut(pBuffer: array<Byte>, at: nat, ghost h0: Gpmc, ghost data: seq<Byte>)
      requires EngineOff(h0) && data <= pBuffer[..] && at + NAND_IO_BYTES <= |data|
      requires hw == PostState(h0, data, at, at)
      modifies this`hw
      ensures hw == PostState(h0, data, at + NAND_IO_BYTES, at)
    {
      ghost var k := Interfere();
      PostSteps(h0, data, at, at, k);
      hw := hw.(posted := hw.posted + [pBuffer[at], pBuffer[at + 1]]);
      assert data[at] == pBuffer[..][at] && data[at + 1] == pBuffer[..][at + 1];
      assert data[at..at + NAND_IO_BYTES] == [pBuffer[at], pBuffer[at + 1]];
    }

    // Any status word whose lowest bit tells whether the write buffer is empty.
    method GetStatus() returns (v: Word32)
      ensures IsSet(v, 0) <==> hw.posted == []
    {
      assert LowBit(1) && !LowBit(0);
      v := *;
      if IsSet(v, 0) != (hw.posted == []) {
        v := if hw.posted == [] then 1 else 0;
      }
    }

    // Polls until the write buffer is empty.
    method WaitForPosted(ghost h0: Gpmc, ghost data: seq<Byte>, ghost queued: nat, ghost sent: nat)
      requires EngineOff(h0) && sent <= queued <= |data| && hw == PostState(h0, data, queued, sent)
      modifies this`hw
      ensures hw == PostState(h0, data, queued, queued)
    {
      hide Step, Steps, IsSet;
      ghost var s := sent;
      var fEmpty := false;
      var patience: nat := *;
      while !fEmpty
        invariant s <= queued && hw == PostState(h0, data, queued, s)
        invariant fEmpty ==> s == queued
        decreases queued - s, if fEmpty then 0 else 1, patience
      {
        ghost var k;
        k, patience := InterfereFairly(patience);
        PostSteps(h0, data, queued, s, k);
        s := Furthest(s, k, queued);
        var ulStatusVal := GetStatus();
        EmptyBit(ulStatusVal);
        fEmpty := ulStatusVal & STATUS_WRITEBUFFEREMPTY != 0;
      }
    }

    method FfxHookNTMicronDataOut(fAligned: bool, pBuffer: array<Byte>, nCount: nat)
      requires ChipSelected() && IsSet(nValidChipMask, nChip) && nCount > 0
      requires nCount * NAND_IO_BYTES >= FIFO_BYTES ==> nCount * NAND_IO_BYTES % FIFO_BYTES == 0
      requires nCount * NAND_IO_BYTES <= pBuffer.Length
      requires hw.Idle()
      modifies this`hw
      ensures Delivered(old(hw), hw, pBuffer[..nCount * NAND_IO_BYTES], old(hw).EccActive())
    {
      hide WriteState, PostState, IsSet, EngineSet, EngineStarted,
           Gpmc.EccActive, Gpmc.Writing, Gpmc.NoIdle;
      ghost var h := hw;
      var nBytes := nCount * NAND_IO_BYTES;
      ghost var data := pBuffer[..nBytes];
      var ulOldIdleMode := GetSysconfig();
      SetSysconfig(SYSCONFIG_NO_IDLE);
      ghost var h0 := hw;
      if nBytes >= FIFO_BYTES {
        StartTransfer(true, nBytes);
        ghost var h1 := hw;
        PostOut(fAligned, pBuffer, nBytes, h1);
        WriteDone(h, h0, h1, data, nChip);
        SetSysconfig(ulOldIdleMode);
      } else {
        var left: nat, at: nat := nBytes, 0;
        PostNothing(h0, data);
        while left != 0
          invariant at + left == nBytes && left % NAND_IO_BYTES == 0
          invariant hw == PostState(h0, data, at, at)
          decreases left
        {
          NandPut(pBuffer, at, h0, data);
          WaitForPosted(h0, data, at + NAND_IO_BYTES, at);
          at := at + NAND_IO_BYTES;
          left := left - NAND_IO_BYTES;
        }
        PostDone(h, h0, data);
        SetSysconfig(ulOldIdleMode);
      }
    }

    method FfxHookNTMicronPageRead(fAligned: bool, pBuffer: array<Byte>, nCount: nat, pabECC: array?<Byte>)
      returns (ffxStat: FfxStat)
      requires ChipSelected() && IsSet(nValidChipMask, nChip) && nCount > 0
      requires nCount * NAND_IO_BYTES % DATA_BYTES_PER_ECC == 0
      requires nCount * NAND_IO_BYTES <= pBuffer.Length && nCount * NAND_IO_BYTES <= |hw.device|
      requires pabECC != null ==>
        && nCount * NAND_IO_BYTES % SEGMENT == 0 && nCount * NAND_IO_BYTES / SEGMENT <= ECC_RESULTS
        && BYTES_PER_ECC * (nCount * NAND_IO_BYTES / SEGMENT) <= pabECC.Length && pabECC != pBuffer
        && hw.BlocksOf512()
      requires hw.Idle()
      modifies this`hw, pBuffer, if pabECC == null then {} else {pabECC}
      ensures ffxStat == FfxstatSuccess
      ensures Received(old(hw), hw, old(hw.device)[..nCount * NAND_IO_BYTES], pabECC != null || old(hw).EccActive())
      ensures pBuffer[..] == Splice(old(pBuffer[..]), 0, old(hw.device)[..nCount * NAND_IO_BYTES])
      ensures pabECC != null ==> var n := nCount * NAND_IO_BYTES / SEGMENT;
        && pabECC[..] == EccBytes(old(hw.device)[..nCount * NAND_IO_BYTES], n) + old(pabECC[BYTES_PER_ECC * n..])
        && !hw.EccActive()
    {
      hide Splice, ReadState, EccBytes, Disabled, Enabled, EccConfigFor, IsSet, EngineSet, EngineStarted,
           Gpmc.EccActive, Gpmc.Writing, Gpmc.NoIdle;
      ghost var h := hw;
      var nBytes := nCount * NAND_IO_BYTES;
      var ulOldIdleMode := GetSysconfig();
      SetSysconfig(SYSCONFIG_NO_IDLE);
      ghost var h0 := hw;
      if pabECC != null {
        FfxHookEccCalcStart(nBytes);
      }
      StartTransfer(false, nBytes);
      ghost var h1 := hw;
      PrefetchIn(fAligned, pBuffer, nBytes, h1);
      if pabECC != null {
        ReadDoneEcc(h, h0, h1, nChip, nBytes);
        EccOffInactive(hw);
        FfxHookEccCalcRead(nBytes, pabECC);
      } else {
        ReadDone(h, h0, h1, nChip, nBytes);
      }
      SetSysconfig(ulOldIdleMode);
      ffxStat := FfxstatSuccess;
    }

    // Sends the data with the ECC unit on and reads the ECC that results.
    method WriteWithEcc(fAligned: bool, pData: array<Byte>, nBytes: nat, abECC: array<Byte>)
      requires ChipSelected() && IsSet(nValidChipMask, nChip) && pData != abECC
      requires 0 < nBytes <= pData.Length && nBytes % SEGMENT == 0
      requires BYTES_PER_ECC * (nBytes / SEGMENT) <= abECC.Length == MAX_ECC_BYTES_PER_PAGE
      requires hw.Idle() && hw.BlocksOf512()
      modifies this`hw, abECC
      ensures Delivered(old(hw), hw, pData[..nBytes], true) && !hw.EccActive()
      ensures var n := nBytes / SEGMENT;
              abECC[..] == EccBytes(pData[..nBytes], n) + old(abECC[BYTES_PER_ECC * n..])
    {
      hide WriteState, EccBytes, Disabled, Enabled, EccConfigFor, IsSet, EngineSet, EngineStarted,
           Gpmc.EccActive, Gpmc.Writing, Gpmc.NoIdle;
      ghost var h, data := hw, pData[..nBytes];
      var ulOldIdleMode := GetSysconfig();
      SetSysconfig(SYSCONFIG_NO_IDLE);
      ghost var h0 := hw;
      FfxHookEccCalcStart(nBytes);
      StartTransfer(true, nBytes);
      ghost var h1 := hw;
      PostOut(fAligned, pData, nBytes, h1);
      WriteDoneEcc(h, h0, h1, data, nChip);
      EccOffInactive(hw);
      FfxHookEccCalcRead(nBytes, abECC);
      SetSysconfig(ulOldIdleMode);
    }

    method FfxHookNTMicronPageWrite(fAligned: bool, pData: array<Byte>, nCount: nat, pSpare: array?<Byte>)
      returns (ffxStat: FfxStat)
      requires ChipSelected() && IsSet(nValidChipMask, nChip) && nCount > 0
      requires nCount * NAND_IO_BYTES <= pData.Length && nCount * NAND_IO_BYTES % DATA_BYTES_PER_ECC == 0
      requires pSpare != null ==> var nBytes := nCount * NAND_IO_BYTES;
        && nBytes % SEGMENT == 0 && BYTES_PER_ECC * (nBytes / SEGMENT) <= MAX_ECC_BYTES_PER_PAGE
        && pSpare.Length > 32 && pSpare != pData && hw.BlocksOf512()
      requires hw.Idle()
      modifies this`hw, if pSpare == null then {} else {pSpare}
      ensures ffxStat == FfxstatSuccess
      ensures Delivered(old(hw), hw, pData[..nCount * NAND_IO_BYTES], pSpare != null || old(hw).EccActive())
      ensures pSpare != null ==> !hw.EccActive()
      ensures pSpare != null ==> exists ecc: seq<Byte> ::
        && |ecc| == MAX_ECC_BYTES_PER_PAGE
        && EccBytes(pData[..nCount * NAND_IO_BYTES], nCount * NAND_IO_BYTES / SEGMENT) <= ecc
        && pSpare[..] == WrittenSpare(old(pSpare[..]), ecc[..ECC_LEN])
        && forall i :: 0 <= i < pSpare.Length ==>
             pSpare[i] == if i == 32 then 0x0F else if 1 <= i <= 12 then ecc[i - 1] else old(pSpare[i])
    {
      hide EccBytes, WrittenSpare, IsSet, Delivered, Gpmc.EccActive;
      ffxStat := FfxstatSuccess;
      var nBytes := nCount * NAND_IO_BYTES;
      if pSpare == null {
        FfxHookNTMicronDataOut(fAligned, pData, nCount);
      } else {
        var abECC := new Byte[MAX_ECC_BYTES_PER_PAGE];
        WriteWithEcc(fAligned, pData, nBytes, abECC);
        ghost var was, ecc := pSpare[..], abECC[..];
        StoreBytes(abECC[..ECC_LEN], pSpare, ECC_OFFSET);
        pSpare[FLAGS_OFFSET] := LEGACY_WRITTEN_WITH_ECC;
        WrittenSpareIs(was, ecc[..ECC_LEN], pSpare[..]);
        WrittenSpareAt(was, ecc[..ECC_LEN]);
        assert forall i :: 0 <= i < pSpare.Length ==> pSpare[i] == pSpare[..][i];
        assert EccBytes(pData[..nBytes], nBytes / SEGMENT) <= ecc;
      }
    }

    // ---------- commands ----------

    method FfxHookNTMicronSetChipSelect(nNewChip: nat) returns (ffxStat: FfxStat)
      requires nNewChip < MAX_CHIPS
      modifies this`nChip
      ensures ffxStat == FfxstatSuccess && nChip == nNewChip && ChipSelected()
    {
      nChip := nNewChip;
      ffxStat := FfxstatSuccess;
    }

    // The samples are what the status register shows: all but the last are read before the
    // timer expires, the last is the one more check after that. Bit 8 is the ready pin of
    // chip 0, the only one there is.
    method FfxHookNTMicronReadyWait(samples: seq<Word32>) returns (ffxStat: FfxStat)
      requires ChipSelected() && samples != []
      ensures ffxStat == (if exists i :: 0 <= i < |samples| && IsSet(samples[i], 8) then FfxstatSuccess
          else FfxstatFimTimeout)
    {
      hide ShowsReady, IsSet;
      forall s: Word32 ensures ShowsReady(s, nChip) <==> IsSet(s, 8) {
        ReadyBit(s, nChip);
      }
      for i := 0 to |samples| - 1
        invariant forall j :: 0 <= j < i ==> !ShowsReady(samples[j], nChip)
      {
        if ShowsReady(samples[i], nChip) {
          return FfxstatSuccess;
        }
      }
      if ShowsReady(samples[|samples| - 1], nChip) {
        return FfxstatSuccess;
      }
      return FfxstatFimTimeout;
    }

    method FfxHookNTMicronSetChipCommandNoWait(bCommand: Byte) returns (ffxStat: FfxStat)
      requires ChipSelected() && hw.Quiet()
      modifies this`hw
      ensures ffxStat == FfxstatSuccess && hw == old(hw).(commands := old(hw).commands + [bCommand])
    {
      Settle();
      hw := hw.(commands := hw.commands + [bCommand]);
      ffxStat := FfxstatSuccess;
    }

    // The command is sent if and only if the chip became ready in time.
    method FfxHookNTMicronSetChipCommand(samples: seq<Word32>, bCommand: Byte) returns (ffxStat: FfxStat)
      requires ChipSelected() && samples != [] && hw.Quiet()
      modifies this`hw
      ensures ffxStat == (if exists i :: 0 <= i < |samples| && IsSet(samples[i], 8) then FfxstatSuccess
          else FfxstatFimTimeout)
      ensures hw == old(hw).(commands := old(hw).commands + (if ffxStat == FfxstatSuccess then [bCommand] else []))
    {
      hide IsSet;
      ffxStat := FfxHookNTMicronReadyWait(samples);
      if ffxStat == FfxstatSuccess {
        ffxStat := FfxHookNTMicronSetChipCommandNoWait(bCommand);
      }
    }
  }

  // The wait bit that the selected chip's ready pin drives.
  predicate ShowsReady(ulStatus: Word32, nChip: nat) {
    ulStatus & (if nChip == 0 then STATUS_WAIT0_READY else STATUS_WAIT1_READY) != 0
  }

  lemma ReadyBit(ulStatus: Word32, nChip: nat)
    ensures ShowsReady(ulStatus, nChip) <==> IsSet(ulStatus, if nChip == 0 then 8 else 9)
  {
    BitSet(ulStatus, 8);
    BitSet(ulStatus, 9);
    hide IsSet;
  }

  lemma EmptyBit(ulStatus: Word32)
    ensures ulStatus & STATUS_WRITEBUFFEREMPTY != 0 <==> IsSet(ulStatus, 0)
  {}

  // The spare area that PageWrite leaves: twelve ECC bytes and the flag.
  function WrittenSpare(spare: seq<Byte>, ecc: seq<Byte>): (now: seq<Byte>)
    requires |spare| > FLAGS_OFFSET && |ecc| == ECC_LEN
    ensures |now| == |spare|
  {
    Splice(spare, ECC_OFFSET, ecc)[FLAGS_OFFSET := LEGACY_WRITTEN_WITH_ECC]
  }

  // Byte 32 is the flag, bytes 1 to 12 are the ECC bytes, and all others are as they were.
  lemma WrittenSpareAt(spare: seq<Byte>, ecc: seq<Byte>)
    requires |spare| > 32 && |ecc| == 12
    ensures |WrittenSpare(spare, ecc)| == |spare|
    ensures forall i :: 0 <= i < |spare| ==>
      WrittenSpare(spare, ecc)[i] == if i == 32 then 0x0F else if 1 <= i <= 12 then ecc[i - 1] else spare[i]
  {}

  lemma WrittenSpareIs(spare: seq<Byte>, ecc: seq<Byte>, now: seq<Byte>)
    requires |spare| > FLAGS_OFFSET && |ecc| == ECC_LEN
    requires now == Splice(spare, ECC_OFFSET, ecc)[FLAGS_OFFSET := LEGACY_WRITTEN_WITH_ECC]
    ensures now == WrittenSpare(spare, ecc)
  {}

  // A finished write-posting run that the ECC unit has watched: it has seen exactly the data.
  lemma WriteDoneEcc(h: Gpmc, h0: Gpmc, h1: Gpmc, data: seq<Byte>, nChip: nat)
    requires h.Idle() && h0 == h.(sysconfig := SYSCONFIG_NO_IDLE)
    requires h1 == EngineStarted(EngineSet(EccOn(h0, nChip), true, nChip, |data|)) && WriteStarted(h1)
    ensures var done := WriteState(h1, data, |data|, |data|);
            && done.Idle() && done.eccSeen == data && !done.eccSpoiled && done.FirstResult() == 1
            && done.eccSize == h.eccSize
    ensures Delivered(h, EccOff(WriteState(h1, data, |data|, |data|)).(sysconfig := h.sysconfig), data, true)
  {
    hide PrefetchMode, EccConfigFor;
    EccOnActive(h0, nChip);
    assert data[..|data|] == data;
  }

  lemma PostNothing(h0: Gpmc, data: seq<Byte>)
    requires EngineOff(h0)
    ensures PostState(h0, data, 0, 0) == h0
  {}

  lemma PostDone(h: Gpmc, h0: Gpmc, data: seq<Byte>)
    requires h.Idle() && h0 == h.(sysconfig := SYSCONFIG_NO_IDLE)
    ensures PostState(h0, data, |data|, |data|).Idle()
    ensures Delivered(h, PostState(h0, data, |data|, |data|).(sysconfig := h.sysconfig), data, h.EccActive())
  {
    assert data[..|data|] == data;
  }

  // A finished write-posting run: nothing is left in the FIFO.
  lemma WriteDone(h: Gpmc, h0: Gpmc, h1: Gpmc, data: seq<Byte>, nChip: nat)
    requires h.Idle() && h0 == h.(sysconfig := SYSCONFIG_NO_IDLE)
    requires h1 == EngineStarted(EngineSet(h0, true, nChip, |data|)) && WriteStarted(h1)
    ensures WriteState(h1, data, |data|, |data|).Idle()
    ensures Delivered(h, WriteState(h1, data, |data|, |data|).(sysconfig := h.sysconfig), data, h.EccActive())
  {
    hide PrefetchMode;
    assert data[..|data|] == data;
  }

  // A finished prefetching run that the ECC unit has watched from the first byte to the last.
  lemma ReadDoneEcc(h: Gpmc, h0: Gpmc, h1: Gpmc, nChip: nat, n: nat)
    requires h.Idle() && n <= |h.device| && h0 == h.(sysconfig := SYSCONFIG_NO_IDLE)
    requires h1 == EngineStarted(EngineSet(EccOn(h0, nChip), false, nChip, n)) && ReadStarted(h1)
    ensures var done := ReadState(h1, n, n);
            && done.Idle() && done.eccSeen == h.device[..n] && !done.eccSpoiled && done.FirstResult() == 1
            && done.eccSize == h.eccSize
    ensures Received(h, EccOff(ReadState(h1, n, n)).(sysconfig := h.sysconfig), h.device[..n], true)
  {
    hide PrefetchMode, EccConfigFor;
    EccOnActive(h0, nChip);
  }

  // A finished prefetching run, with the old idle mode restored.
  lemma ReadDone(h: Gpmc, h0: Gpmc, h1: Gpmc, nChip: nat, n: nat)
    requires h.Idle() && n <= |h.device| && h0 == h.(sysconfig := SYSCONFIG_NO_IDLE)
    requires h1 == EngineStarted(EngineSet(h0, false, nChip, n)) && ReadStarted(h1)
    ensures ReadState(h1, n, n).Idle()
    ensures Received(h, ReadState(h1, n, n).(sysconfig := h.sysconfig), h.device[..n], h.EccActive())
  {
    hide PrefetchMode;
  }

  lemma GetNothing(h0: Gpmc)
    ensures GetState(h0, 0) == h0
  {}

  lemma GetDone(h: Gpmc, h0: Gpmc, n: nat)
    requires h.Idle() && n <= |h.device| && h0 == h.(sysconfig := SYSCONFIG_NO_IDLE)
    ensures GetState(h0, n).Idle()
    ensures Received(h, GetState(h0, n).(sysconfig := h.sysconfig), h.device[..n], h.EccActive())
  {}

  // The plain memory stores of a copy loop.
  method StoreBytes(bytes: seq<Byte>, dest: array<Byte>, at: nat)
    requires at + |bytes| <= dest.Length
    modifies dest
    ensures dest[..] == Splice(old(dest[..]), at, bytes)
  {
    ghost var was := dest[..];
    for i := 0 to |bytes|
      invariant dest[..] == was[..at] + bytes[..i] + was[at + i..]
    {
      dest[at + i] := bytes[i];
    }
    assert bytes[..|bytes|] == bytes;
  }

  lemma SpliceNothing(was: seq<Byte>, at: nat)
    requires at <= |was|
    ensures Splice(was, at, []) == was
  {}

  lemma SpliceTwice(was: seq<Byte>, at: nat, x: seq<Byte>, y: seq<Byte>)
    requires at + |x| + |y| <= |was|
    ensures Splice(Splice(was, at, x), at + |x|, y) == Splice(was, at, x + y)
  {}

  lemma RegisterIsSegmentEcc(r: Word32, segment: seq<Byte>)
    requires |segment| == SEGMENT && HoldsParities(r, segment)
    ensures RegisterBytes(r) == SegmentEcc(segment)
  {
    hide RegisterBytes, HoldsParities, EccOf, CsstOf;
    HardwareIsSoftware(r, segment);
  }

  // The three byte stores of the register-packing loop.
  method StoreRegister(ulConfigVal: Word32, pabECC: array<Byte>, nn: nat)
    requires nn + BYTES_PER_ECC <= pabECC.Length
    modifies pabECC
    ensures pabECC[..] == PutCsst(old(pabECC[..]), nn, RegisterBytes(ulConfigVal))
  {
    hide RegisterBytes;
    var c := RegisterBytes(ulConfigVal);
    pabECC[nn] := c.b0;
    pabECC[nn + 1] := c.b1;
    pabECC[nn + 2] := c.b2;
  }
}
