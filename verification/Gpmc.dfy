// The GPMC as the transfer code of fhmicron.c sees it: registers, the 64-byte FIFO between
// the CPU and the prefetch/write-posting engine, the NAND device behind it, and the ECC
// unit that watches the bus. The engine moves one byte per step; how many steps it takes
// between two accesses of the CPU is left open, so that every interleaving is covered.
module Gpmc {
  import opened Words

  const FIFO_BYTES := 64
  const ECC_RESULTS := 9

  // A data byte crossing the bus, with the idle mode and the state of the ECC unit at that moment.
  datatype BusEvent = BusEvent(byte: Byte, noIdle: bool, ecc: bool)

  datatype Gpmc = Gpmc(
    sysconfig: Word32,
    eccConfig: Word32,
    eccControl: Word32,
    eccSize: Word32,
    prefetchConfig1: Word32,
    prefetchConfig2: nat,
    started: bool,
    fifo: seq<Byte>,
    toMove: nat,         // bytes the engine has still to move to or from the device
    posted: seq<Byte>,   // direct writes not yet on the bus
    device: seq<Byte>,   // what the device will supply next
    sent: seq<Byte>,     // what the device has been given
    eccSeen: seq<Byte>,  // what the ECC unit has taken in since it was cleared
    eccSpoiled: bool,    // some of that in the wrong mode, or with its registers changed in between
    trace: seq<BusEvent>,
    commands: seq<Byte>)
  {
    predicate NoIdle() {
      sysconfig == 0x8
    }

    // The ECC unit takes in the bytes on the bus: it is enabled, and points to a result register.
    predicate EccEnabled() {
      eccConfig & 0x1 != 0 && eccControl & 0xF != 0
    }

    // It also knows that the bus is 16 bits wide, as it is here.
    predicate EccActive() {
      EccEnabled() && eccConfig & 0x80 != 0
    }

    // It takes the bus for one of 8 bits: nothing is known of what it calculates.
    predicate EccWrong() {
      EccEnabled() && eccConfig & 0x80 == 0
    }

    // The result register of the first block, counted from one.
    function FirstResult(): nat {
      Index(eccControl & 0xF)
    }

    // Both block sizes, which a register may choose from, are 2 * (0xFF + 1) bytes.
    predicate BlocksOf512() {
      eccSize & 0x3FC0_0000 == 0x3FC0_0000 && eccSize & 0xF_F000 == 0xF_F000
    }

    predicate Writing() {
      prefetchConfig1 & 0x1 != 0
    }

    predicate Running() {
      started && prefetchConfig1 & 0x80 != 0
    }

    // No data will move unless the CPU does something.
    predicate Quiet() {
      posted == [] && (!Running() || toMove == 0)
    }

    // Between transfers: in addition, no byte is left behind in the FIFO.
    predicate Idle() {
      Quiet() && fifo == []
    }

    // The FIFO pointer: bytes available when prefetching, bytes free when write-posting.
    function FifoPointer(): nat
      requires |fifo| <= FIFO_BYTES
    {
      if Writing() then FIFO_BYTES - |fifo| else |fifo|
    }
  }

  // A data byte on the bus: recorded, and seen by the ECC unit if that is active.
  function OnBus(h: Gpmc, b: Byte): Gpmc {
    h.(trace := h.trace + [BusEvent(b, h.NoIdle(), h.EccActive())],
       eccSeen := if h.EccActive() then h.eccSeen + [b] else h.eccSeen,
       eccSpoiled := h.eccSpoiled || h.EccWrong())
  }

  // One step of the hardware.
  function Step(h: Gpmc): Gpmc {
    if h.posted != [] then
      OnBus(h, h.posted[0]).(posted := h.posted[1..], sent := h.sent + [h.posted[0]])
    else if !h.Running() || h.toMove == 0 then
      h
    else if h.Writing() then
      if h.fifo == [] then h
      else OnBus(h, h.fifo[0]).(fifo := h.fifo[1..], sent := h.sent + [h.fifo[0]], toMove := h.toMove - 1)
    else
      if |h.fifo| >= FIFO_BYTES || h.device == [] then h
      else OnBus(h, h.device[0]).(fifo := h.fifo + [h.device[0]], device := h.device[1..], toMove := h.toMove - 1)
  }

  function Steps(h: Gpmc, n: nat): Gpmc
    decreases n
  {
    if n == 0 then h else Steps(Step(h), n - 1)
  }

  lemma {:induction false} QuietSteps(h: Gpmc, n: nat)
    requires h.Quiet()
    ensures Steps(h, n) == h
  {
    if n > 0 { QuietSteps(h, n - 1); }
  }

  // The events of bytes that cross the bus one after the other.
  function Moves(bytes: seq<Byte>, noIdle: bool, ecc: bool): (events: seq<BusEvent>)
    ensures |events| == |bytes|
    ensures forall i | 0 <= i < |bytes| :: events[i] == BusEvent(bytes[i], noIdle, ecc)
  {
    seq(|bytes|, i requires 0 <= i < |bytes| => BusEvent(bytes[i], noIdle, ecc))
  }

  // The bytes have crossed the bus one after the other.
  function Watched(h: Gpmc, bytes: seq<Byte>): Gpmc {
    h.(trace := h.trace + Moves(bytes, h.NoIdle(), h.EccActive()),
       eccSeen := if h.EccActive() then h.eccSeen + bytes else h.eccSeen,
       eccSpoiled := h.eccSpoiled || (h.EccWrong() && bytes != []))
  }

  lemma MovesAppend(bytes: seq<Byte>, b: Byte, noIdle: bool, ecc: bool)
    ensures Moves(bytes + [b], noIdle, ecc) == Moves(bytes, noIdle, ecc) + [BusEvent(b, noIdle, ecc)]
  {}

  lemma WatchedModes(h: Gpmc, bytes: seq<Byte>)
    ensures var w := Watched(h, bytes);
            && w.NoIdle() == h.NoIdle() && w.EccActive() == h.EccActive() && w.EccWrong() == h.EccWrong()
            && w.Running() == h.Running() && w.Writing() == h.Writing()
  {}

  lemma WatchedNext(h: Gpmc, bytes: seq<Byte>, b: Byte)
    ensures OnBus(Watched(h, bytes), b) == Watched(h, bytes + [b])
  {
    WatchedModes(h, bytes);
    hide Gpmc.NoIdle, Gpmc.EccActive, Gpmc.EccWrong;
    MovesAppend(bytes, b, h.NoIdle(), h.EccActive());
  }

  lemma WatchedNone(h: Gpmc)
    ensures Watched(h, []) == h
  {}

  // What is elsewhere does not matter to the bus.
  lemma OnBusElsewhere(h: Gpmc, b: Byte, fifo: seq<Byte>, toMove: nat, posted: seq<Byte>, device: seq<Byte>,
          sent: seq<Byte>)
    ensures OnBus(h.(fifo := fifo, toMove := toMove, posted := posted, device := device, sent := sent), b)
         == OnBus(h, b).(fifo := fifo, toMove := toMove, posted := posted, device := device, sent := sent)
  {
    ModesElsewhere(h, fifo, toMove, posted, device, sent);
    hide Gpmc.NoIdle, Gpmc.EccActive, Gpmc.EccWrong;
  }

  lemma ModesElsewhere(h: Gpmc, fifo: seq<Byte>, toMove: nat, posted: seq<Byte>, device: seq<Byte>, sent: seq<Byte>)
    ensures var g := h.(fifo := fifo, toMove := toMove, posted := posted, device := device, sent := sent);
            && g.NoIdle() == h.NoIdle() && g.EccActive() == h.EccActive() && g.EccWrong() == h.EccWrong()
            && g.Running() == h.Running() && g.Writing() == h.Writing()
  {}

  // ---------- a prefetching run ----------

  // The engine has just been started to fetch toMove bytes.
  predicate ReadStarted(h: Gpmc) {
    && h.Running() && !h.Writing()
    && h.posted == [] && h.fifo == [] && h.toMove <= |h.device|
  }

  // Counters a prefetching run can reach: copied bytes have left the FIFO, fetched bytes
  // have entered it, and the FIFO has not overflowed.
  predicate ReadCounters(h1: Gpmc, copied: nat, fetched: nat) {
    copied <= fetched <= h1.toMove && fetched <= copied + FIFO_BYTES
  }

  // The state of a prefetching run after copied and fetched bytes. Nothing else about the
  // interleaving matters: every byte is in one place, in order.
  function ReadState(h1: Gpmc, copied: nat, fetched: nat): Gpmc
    requires ReadStarted(h1) && ReadCounters(h1, copied, fetched)
  {
    Watched(h1, h1.device[..fetched])
      .(fifo := h1.device[copied..fetched], device := h1.device[fetched..], toMove := h1.toMove - fetched)
  }

  // What the CPU takes from the FIFO is the next part of the device's stream.
  lemma ReadTake(h1: Gpmc, copied: nat, fetched: nat, n: nat)
    requires ReadStarted(h1) && ReadCounters(h1, copied, fetched) && copied + n <= fetched
    ensures var h := ReadState(h1, copied, fetched);
            && n <= |h.fifo| && h.fifo[..n] == h1.device[copied..copied + n]
            && h.(fifo := h.fifo[n..]) == ReadState(h1, copied + n, fetched)
  {}

  // Every byte of the device's stream is in exactly one place, and in order: already
  // copied, in the FIFO, or still in the device.
  lemma ReadConserves(h1: Gpmc, copied: nat, fetched: nat)
    requires ReadStarted(h1) && ReadCounters(h1, copied, fetched)
    ensures h1.device[..copied] + ReadState(h1, copied, fetched).fifo + ReadState(h1, copied, fetched).device
        == h1.device
    ensures |ReadState(h1, copied, fetched).fifo| <= FIFO_BYTES
  {}

  // The furthest the engine can get without the CPU.
  function ReadLimit(h1: Gpmc, copied: nat): nat {
    if copied + FIFO_BYTES <= h1.toMove then copied + FIFO_BYTES else h1.toMove
  }

  lemma ReadStart(h1: Gpmc)
    requires ReadStarted(h1)
    ensures ReadState(h1, 0, 0) == h1
  {}

  // The registers do not change during a run.
  lemma ReadModes(h1: Gpmc, copied: nat, fetched: nat)
    requires ReadStarted(h1) && ReadCounters(h1, copied, fetched)
    ensures var h := ReadState(h1, copied, fetched);
            h.NoIdle() == h1.NoIdle() && h.EccActive() == h1.EccActive() && h.EccWrong() == h1.EccWrong()
            && h.Running() && !h.Writing()
  {}

  lemma NextByte(d: seq<Byte>, copied: nat, fetched: nat)
    requires copied <= fetched < |d|
    ensures d[..fetched + 1] == d[..fetched] + [d[fetched]]
    ensures d[copied..fetched + 1] == d[copied..fetched] + [d[fetched]]
    ensures d[fetched..][0] == d[fetched] && d[fetched..][1..] == d[fetched + 1..]
  {}

  lemma ReadStep(h1: Gpmc, copied: nat, fetched: nat)
    requires ReadStarted(h1) && ReadCounters(h1, copied, fetched)
    ensures Step(ReadState(h1, copied, fetched))
         == ReadState(h1, copied, if fetched < ReadLimit(h1, copied) then fetched + 1 else fetched)
  {
    ReadModes(h1, copied, fetched);
    hide OnBus, Watched, Gpmc.NoIdle, Gpmc.EccActive, Gpmc.EccWrong, Gpmc.Running, Gpmc.Writing;
    if fetched < ReadLimit(h1, copied) {
      NextByte(h1.device, copied, fetched);
      WatchedNext(h1, h1.device[..fetched], h1.device[fetched]);
      OnBusElsewhere(Watched(h1, h1.device[..fetched]), h1.device[fetched], h1.device[copied..fetched],
                     h1.toMove - fetched, [], h1.device[fetched..], h1.sent);
    }
  }

  function Furthest(at: nat, n: nat, limit: nat): nat {
    if at + n <= limit then at + n else limit
  }

  // Whatever the engine does while the CPU waits, the state is again one of these.
  lemma {:induction false} ReadSteps(h1: Gpmc, copied: nat, fetched: nat, n: nat)
    requires ReadStarted(h1) && ReadCounters(h1, copied, fetched)
    ensures Steps(ReadState(h1, copied, fetched), n)
         == ReadState(h1, copied, Furthest(fetched, n, ReadLimit(h1, copied)))
    decreases n
  {
    hide ReadState, Step;
    if n > 0 {
      ReadStep(h1, copied, fetched);
      ReadSteps(h1, copied, if fetched < ReadLimit(h1, copied) then fetched + 1 else fetched, n - 1);
    }
  }

  // ---------- a write-posting run ----------

  predicate WriteStarted(h: Gpmc) {
    h.Running() && h.Writing() && h.posted == [] && h.fifo == []
  }

  // Counters a write-posting run of the given data can reach.
  predicate WriteCounters(h1: Gpmc, data: seq<Byte>, copied: nat, sent: nat) {
    |data| == h1.toMove && sent <= copied <= |data| && copied <= sent + FIFO_BYTES
  }

  function WriteState(h1: Gpmc, data: seq<Byte>, copied: nat, sent: nat): Gpmc
    requires WriteStarted(h1) && WriteCounters(h1, data, copied, sent)
  {
    Watched(h1, data[..sent])
      .(fifo := data[sent..copied], sent := h1.sent + data[..sent], toMove := h1.toMove - sent)
  }

  lemma WriteStart(h1: Gpmc, data: seq<Byte>)
    requires WriteStarted(h1) && |data| == h1.toMove
    ensures WriteState(h1, data, 0, 0) == h1
  {}

  // What the CPU puts into the FIFO is the next part of its data.
  lemma WritePut(h1: Gpmc, data: seq<Byte>, copied: nat, sent: nat, n: nat)
    requires WriteStarted(h1) && WriteCounters(h1, data, copied, sent)
    requires copied + n <= |data| && copied + n <= sent + FIFO_BYTES
    ensures var h := WriteState(h1, data, copied, sent);
            && |h.fifo| + n <= FIFO_BYTES
            && h.(fifo := h.fifo + data[copied..copied + n]) == WriteState(h1, data, copied + n, sent)
  {
    assert data[sent..copied] + data[copied..copied + n] == data[sent..copied + n];
  }

  // Every byte of the data is in exactly one place, and in order: with the device, in the
  // FIFO, or not yet copied.
  lemma WriteConserves(h1: Gpmc, data: seq<Byte>, copied: nat, sent: nat)
    requires WriteStarted(h1) && WriteCounters(h1, data, copied, sent)
    ensures WriteState(h1, data, copied, sent).sent + WriteState(h1, data, copied, sent).fifo + data[copied..]
        == h1.sent + data
    ensures |WriteState(h1, data, copied, sent).fifo| <= FIFO_BYTES
  {
    ThreeParts(h1.sent, data, sent, copied);
  }

  lemma Regroup(p: seq<Byte>, a: seq<Byte>, b: seq<Byte>, c: seq<Byte>)
    ensures p + a + b + c == p + (a + b + c)
  {}

  lemma WholeParts(data: seq<Byte>, i: nat, j: nat)
    requires i <= j <= |data|
    ensures data[..i] + data[i..j] + data[j..] == data
  {}

  lemma ThreeParts(before: seq<Byte>, data: seq<Byte>, i: nat, j: nat)
    requires i <= j <= |data|
    ensures before + data[..i] + data[i..j] + data[j..] == before + data
  {
    Regroup(before, data[..i], data[i..j], data[j..]);
    WholeParts(data, i, j);
  }

  lemma WriteModes(h1: Gpmc, data: seq<Byte>, copied: nat, sent: nat)
    requires WriteStarted(h1) && WriteCounters(h1, data, copied, sent)
    ensures var h := WriteState(h1, data, copied, sent);
            h.NoIdle() == h1.NoIdle() && h.EccActive() == h1.EccActive() && h.EccWrong() == h1.EccWrong()
            && h.Running() && h.Writing()
  {}

  lemma FirstOf(d: seq<Byte>, i: nat, j: nat)
    requires i < j <= |d|
    ensures d[..i + 1] == d[..i] + [d[i]]
    ensures d[i..j][0] == d[i] && d[i..j][1..] == d[i + 1..j]
  {}

  lemma WriteStep(h1: Gpmc, data: seq<Byte>, copied: nat, sent: nat)
    requires WriteStarted(h1) && WriteCounters(h1, data, copied, sent)
    ensures Step(WriteState(h1, data, copied, sent))
         == WriteState(h1, data, copied, if sent < copied then sent + 1 else sent)
  {
    WriteModes(h1, data, copied, sent);
    hide OnBus, Watched, Gpmc.NoIdle, Gpmc.EccActive, Gpmc.EccWrong, Gpmc.Running, Gpmc.Writing;
    if sent < copied {
      FirstOf(data, sent, copied);
      WatchedNext(h1, data[..sent], data[sent]);
      OnBusElsewhere(Watched(h1, data[..sent]), data[sent], data[sent..copied], h1.toMove - sent, [], h1.device,
                     h1.sent + data[..sent]);
    }
  }

  lemma {:induction false} WriteSteps(h1: Gpmc, data: seq<Byte>, copied: nat, sent: nat, n: nat)
    requires WriteStarted(h1) && WriteCounters(h1, data, copied, sent)
    ensures Steps(WriteState(h1, data, copied, sent), n) == WriteState(h1, data, copied, Furthest(sent, n, copied))
    decreases n
  {
    hide WriteState, Step;
    if n > 0 {
      WriteStep(h1, data, copied, sent);
      WriteSteps(h1, data, copied, if sent < copied then sent + 1 else sent, n - 1);
    }
  }

  // ---------- writes that bypass the FIFO ----------

  // The engine is not at work.
  predicate EngineOff(h: Gpmc) {
    h.posted == [] && (!h.Running() || h.toMove == 0)
  }

  // Data written directly to the device's data port: queued bytes were put there, sent
  // bytes have left the write buffer.
  function PostState(h0: Gpmc, data: seq<Byte>, queued: nat, sent: nat): Gpmc
    requires EngineOff(h0) && sent <= queued <= |data|
  {
    Watched(h0, data[..sent]).(posted := data[sent..queued], sent := h0.sent + data[..sent])
  }

  lemma PostModes(h0: Gpmc, data: seq<Byte>, queued: nat, sent: nat)
    requires EngineOff(h0) && sent <= queued <= |data|
    ensures var h := PostState(h0, data, queued, sent);
            h.NoIdle() == h0.NoIdle() && h.EccActive() == h0.EccActive() && h.EccWrong() == h0.EccWrong()
            && h.Running() == h0.Running()
  {}

  lemma PostStep(h0: Gpmc, data: seq<Byte>, queued: nat, sent: nat)
    requires EngineOff(h0) && sent <= queued <= |data|
    ensures Step(PostState(h0, data, queued, sent))
         == PostState(h0, data, queued, if sent < queued then sent + 1 else sent)
  {
    PostModes(h0, data, queued, sent);
    hide OnBus, Watched, Gpmc.NoIdle, Gpmc.EccActive, Gpmc.EccWrong, Gpmc.Running, Gpmc.Writing;
    if sent < queued {
      FirstOf(data, sent, queued);
      WatchedNext(h0, data[..sent], data[sent]);
      OnBusElsewhere(Watched(h0, data[..sent]), data[sent], h0.fifo, h0.toMove, data[sent..queued], h0.device,
                     h0.sent + data[..sent]);
    }
  }

  lemma {:induction false} PostSteps(h0: Gpmc, data: seq<Byte>, queued: nat, sent: nat, n: nat)
    requires EngineOff(h0) && sent <= queued <= |data|
    ensures Steps(PostState(h0, data, queued, sent), n) == PostState(h0, data, queued, Furthest(sent, n, queued))
    decreases n
  {
    hide PostState, Step;
    if n > 0 {
      PostStep(h0, data, queued, sent);
      PostSteps(h0, data, queued, if sent < queued then sent + 1 else sent, n - 1);
    }
  }

  // n bytes have been read directly from the device's data port.
  function GetState(h0: Gpmc, n: nat): Gpmc
    requires n <= |h0.device|
  {
    Watched(h0, h0.device[..n]).(device := h0.device[n..])
  }

  // One byte from the data port.
  function Get(h: Gpmc): Gpmc
    requires h.device != []
  {
    OnBus(h, h.device[0]).(device := h.device[1..])
  }

  lemma GetNext(h0: Gpmc, n: nat)
    requires n < |h0.device|
    ensures GetState(h0, n).device != [] && GetState(h0, n).device[0] == h0.device[n]
    ensures Get(GetState(h0, n)) == GetState(h0, n + 1)
  {
    var d := h0.device;
    assert d[..n + 1] == d[..n] + [d[n]];
    assert d[n..][1..] == d[n + 1..];
    WatchedNext(h0, d[..n], d[n]);
    OnBusElsewhere(Watched(h0, d[..n]), d[n], h0.fifo, h0.toMove, h0.posted, d[n..], h0.sent);
    hide OnBus, Watched, Gpmc.NoIdle, Gpmc.EccActive, Gpmc.EccWrong;
  }

  // ---------- whole transfers ----------

  // From one state to the other, exactly these bytes came from the device, all of them in
  // no-idle mode and with the ECC unit active or not as stated.
  predicate Received(h: Gpmc, h': Gpmc, bytes: seq<Byte>, ecc: bool) {
    && h'.Idle() && h'.sysconfig == h.sysconfig && h'.eccSize == h.eccSize && h'.commands == h.commands
    && h.device == bytes + h'.device && h'.sent == h.sent
    && h'.trace == h.trace + Moves(bytes, true, ecc)
  }

  // From one state to the other, exactly these bytes were given to the device.
  predicate Delivered(h: Gpmc, h': Gpmc, bytes: seq<Byte>, ecc: bool) {
    && h'.Idle() && h'.sysconfig == h.sysconfig && h'.eccSize == h.eccSize && h'.commands == h.commands
    && h'.device == h.device && h'.sent == h.sent + bytes
    && h'.trace == h.trace + Moves(bytes, true, ecc)
  }
}
