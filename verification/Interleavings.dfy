// Every interleaving of the CPU's loop with the engine, as a schedule of their steps.
module Interleavings {
  import opened Words
  import opened Gpmc

  // Engine: the hardware takes a step. Poll: the waiting CPU reads the FIFO pointer, and if
  // it shows 64 bytes, begins a copy of 64 bytes. Copy: the CPU moves one byte of the copy
  // it has begun. The engine may step between any two of these; a word access is four
  // copies in a row.
  datatype Action = Engine | Poll | Copy

  // The hardware, what the CPU has copied out of the FIFO, what is left of its current
  // copy, and whether it has ever read an empty FIFO.
  datatype Reading = Reading(hw: Gpmc, copied: seq<Byte>, toCopy: nat, underflow: bool)

  function ReadAction(r: Reading, a: Action): Reading {
    match a
    case Engine => r.(hw := Step(r.hw))
    case Poll => if r.toCopy == 0 && |r.hw.fifo| >= FIFO_BYTES then r.(toCopy := FIFO_BYTES) else r
    case Copy =>
      if r.toCopy == 0 then r
      else if r.hw.fifo == [] then r.(underflow := true)
      else r.(hw := r.hw.(fifo := r.hw.fifo[1..]), copied := r.copied + r.hw.fifo[..1], toCopy := r.toCopy - 1)
  }

  function ReadRun(h1: Gpmc, schedule: seq<Action>): Reading {
    if schedule == [] then Reading(h1, [], 0, false)
    else ReadAction(ReadRun(h1, schedule[..|schedule| - 1]), schedule[|schedule| - 1])
  }

  // What holds of a read in progress: everything not yet copied of the current 64 bytes is
  // already in the FIFO.
  predicate ReadProgress(h1: Gpmc, r: Reading, fetched: nat)
    requires ReadStarted(h1)
  {
    && ReadCounters(h1, |r.copied|, fetched) && r.hw == ReadState(h1, |r.copied|, fetched)
    && r.copied == h1.device[..|r.copied|]
    && (|r.copied| + r.toCopy) % FIFO_BYTES == 0 && |r.copied| + r.toCopy <= fetched
    && !r.underflow
  }

  lemma ReadFifoIs(h1: Gpmc, copied: nat, fetched: nat)
    requires ReadStarted(h1) && ReadCounters(h1, copied, fetched)
    ensures |ReadState(h1, copied, fetched).fifo| == fetched - copied
    ensures ReadState(h1, copied, fetched).toMove == h1.toMove - fetched
  {}

  lemma ReadCopies(h1: Gpmc, r: Reading, fetched: nat)
    requires ReadStarted(h1) && ReadProgress(h1, r, fetched)
    ensures ReadProgress(h1, ReadAction(r, Copy), fetched)
  {
    hide ReadState;
    ReadFifoIs(h1, |r.copied|, fetched);
    if r.toCopy > 0 {
      ReadTake(h1, |r.copied|, fetched, 1);
      var c := |r.copied|;
      assert h1.device[..c] + h1.device[c..c + 1] == h1.device[..c + 1];
    }
  }

  // After any schedule: no byte lost, duplicated or reordered, no underflow, no overflow.
  lemma {:induction false} ReadRunIs(h1: Gpmc, schedule: seq<Action>) returns (fetched: nat)
    requires ReadStarted(h1)
    ensures ReadProgress(h1, ReadRun(h1, schedule), fetched)
  {
    hide ReadState, Step;
    if schedule == [] {
      fetched := 0;
      ReadStart(h1);
    } else {
      fetched := ReadRunIs(h1, schedule[..|schedule| - 1]);
      var r := ReadRun(h1, schedule[..|schedule| - 1]);
      match schedule[|schedule| - 1]
      case Engine =>
        ReadStep(h1, |r.copied|, fetched);
        fetched := if fetched < ReadLimit(h1, |r.copied|) then fetched + 1 else fetched;
      case Poll => ReadFifoIs(h1, |r.copied|, fetched);
      case Copy => ReadCopies(h1, r, fetched);
    }
  }

  // With a byte count that is a multiple of 64, no schedule deadlocks: until everything is
  // copied, the CPU can poll with success or copy, or the engine can fetch. And when
  // everything is copied, the FIFO is empty and the engine has nothing left to do.
  lemma ReadRunProceeds(h1: Gpmc, schedule: seq<Action>)
    requires ReadStarted(h1) && h1.toMove % FIFO_BYTES == 0
    ensures var r := ReadRun(h1, schedule);
            && r.copied <= h1.device[..h1.toMove] && !r.underflow
            && (|r.copied| < h1.toMove ==> exists a: Action :: ReadAction(r, a) != r)
            && (|r.copied| == h1.toMove ==> r.hw.fifo == [] && r.hw.toMove == 0 && r.toCopy == 0)
  {
    hide ReadState, Step;
    var fetched := ReadRunIs(h1, schedule);
    var r := ReadRun(h1, schedule);
    var c := |r.copied|;
    ReadFifoIs(h1, c, fetched);
    assert h1.device[..c] == h1.device[..h1.toMove][..c];
    if c < h1.toMove {
      if r.toCopy > 0 {
        assert ReadAction(r, Copy) != r;
      } else if fetched == c + FIFO_BYTES {
        assert ReadAction(r, Poll) != r;
      } else {
        ReadStep(h1, c, fetched);
        ReadFifoIs(h1, c, fetched + 1);
        assert ReadAction(r, Engine) != r;
      }
    }
  }

  // ---------- write posting ----------

  // The hardware, how much of its data the CPU has put into the FIFO, what is left of its
  // current copy, and whether it has ever stored into a full FIFO or read past its data.
  datatype Writing = Writing(hw: Gpmc, copied: nat, toCopy: nat, fault: bool)

  function WriteAction(w: Writing, data: seq<Byte>, a: Action): Writing {
    match a
    case Engine => w.(hw := Step(w.hw))
    case Poll =>
      if w.toCopy == 0 && |w.hw.fifo| + FIFO_BYTES <= FIFO_BYTES && w.copied < |data|
      then w.(toCopy := FIFO_BYTES) else w
    case Copy =>
      if w.toCopy == 0 then w
      else if |w.hw.fifo| >= FIFO_BYTES || w.copied >= |data| then w.(fault := true)
      else w.(hw := w.hw.(fifo := w.hw.fifo + data[w.copied..w.copied + 1]),
              copied := w.copied + 1, toCopy := w.toCopy - 1)
  }

  // The first copy begins without a poll.
  function WriteRun(h1: Gpmc, data: seq<Byte>, schedule: seq<Action>): Writing {
    if schedule == [] then Writing(h1, 0, if data == [] then 0 else FIFO_BYTES, false)
    else WriteAction(WriteRun(h1, data, schedule[..|schedule| - 1]), data, schedule[|schedule| - 1])
  }

  // What holds of a write in progress: the rest of the current copy fits the FIFO.
  predicate WriteProgress(h1: Gpmc, data: seq<Byte>, w: Writing, sent: nat)
    requires WriteStarted(h1)
  {
    && WriteCounters(h1, data, w.copied, sent) && w.hw == WriteState(h1, data, w.copied, sent)
    && (w.copied + w.toCopy) % FIFO_BYTES == 0
    && w.copied + w.toCopy <= |data| && w.copied + w.toCopy <= sent + FIFO_BYTES
    && !w.fault
  }

  lemma WriteFifoIs(h1: Gpmc, data: seq<Byte>, copied: nat, sent: nat)
    requires WriteStarted(h1) && WriteCounters(h1, data, copied, sent)
    ensures var h := WriteState(h1, data, copied, sent);
            && |h.fifo| == copied - sent && h.toMove == h1.toMove - sent && h.sent == h1.sent + data[..sent]
  {}

  lemma WriteCopies(h1: Gpmc, data: seq<Byte>, w: Writing, sent: nat)
    requires WriteStarted(h1) && WriteProgress(h1, data, w, sent)
    ensures WriteProgress(h1, data, WriteAction(w, data, Copy), sent)
  {
    hide WriteState;
    WriteFifoIs(h1, data, w.copied, sent);
    if w.toCopy > 0 {
      WritePut(h1, data, w.copied, sent, 1);
    }
  }

  lemma {:induction false} WriteRunIs(h1: Gpmc, data: seq<Byte>, schedule: seq<Action>) returns (sent: nat)
    requires WriteStarted(h1) && |data| == h1.toMove && |data| % FIFO_BYTES == 0
    ensures WriteProgress(h1, data, WriteRun(h1, data, schedule), sent)
  {
    hide WriteState, Step;
    if schedule == [] {
      sent := 0;
      WriteStart(h1, data);
    } else {
      sent := WriteRunIs(h1, data, schedule[..|schedule| - 1]);
      var w := WriteRun(h1, data, schedule[..|schedule| - 1]);
      match schedule[|schedule| - 1]
      case Engine =>
        WriteStep(h1, data, w.copied, sent);
        sent := if sent < w.copied then sent + 1 else sent;
      case Poll => WriteFifoIs(h1, data, w.copied, sent);
      case Copy => WriteCopies(h1, data, w, sent);
    }
  }

  // No schedule loses a byte, and when the CPU finds the FIFO empty after its last copy,
  // the device has exactly the data.
  lemma WriteRunConserves(h1: Gpmc, data: seq<Byte>, schedule: seq<Action>)
    requires WriteStarted(h1) && |data| == h1.toMove && |data| % FIFO_BYTES == 0
    ensures var w := WriteRun(h1, data, schedule);
            && w.copied <= |data| && |w.hw.fifo| <= FIFO_BYTES && !w.fault
            && w.hw.sent + w.hw.fifo + data[w.copied..] == h1.sent + data
            && (w.copied == |data| && w.hw.fifo == [] ==> w.hw.sent == h1.sent + data && w.hw.toMove == 0)
  {
    hide WriteState, Step;
    var sent := WriteRunIs(h1, data, schedule);
    var w := WriteRun(h1, data, schedule);
    WriteFifoIs(h1, data, w.copied, sent);
    WriteConserves(h1, data, w.copied, sent);
    assert data[..|data|] == data;
  }

  // No schedule deadlocks: until the device has everything, the CPU can poll with success
  // or copy, or the engine can send.
  lemma WriteRunProceeds(h1: Gpmc, data: seq<Byte>, schedule: seq<Action>)
    requires WriteStarted(h1) && |data| == h1.toMove && |data| % FIFO_BYTES == 0
    ensures var w := WriteRun(h1, data, schedule);
            w.copied < |data| || w.hw.fifo != [] ==> exists a: Action :: WriteAction(w, data, a) != w
  {
    hide WriteState, Step;
    var sent := WriteRunIs(h1, data, schedule);
    var w := WriteRun(h1, data, schedule);
    WriteFifoIs(h1, data, w.copied, sent);
    if w.toCopy > 0 {
      assert WriteAction(w, data, Copy) != w;
    } else if sent < w.copied {
      WriteStep(h1, data, w.copied, sent);
      WriteFifoIs(h1, data, w.copied, sent + 1);
      assert WriteAction(w, data, Engine) != w;
    } else if w.copied < |data| {
      assert WriteAction(w, data, Poll) != w;
    }
  }
}
