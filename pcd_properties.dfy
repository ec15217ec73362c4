/**
 * What the reader IC's wait loops do, stated over the whole script of replies the IC gives:
 * where each loop stops, what it returns there, and how many reads it makes.
 */
module PcdProperties {
  import opened Bits
  import opened Registers
  import opened Errors
  import opened Device
  import opened Pcd
  import opened Fifo

  // ---------------------------------------------------------------- transceive wait

  /** How many of `irqs` are all-quiet (zero) reads: those are the ones `transceive` counts. */
  function QuietCount(irqs: seq<byte>): (n: nat)
    ensures n <= |irqs|
  {
    if |irqs| == 0 then 0
    else QuietCount(irqs[..|irqs| - 1]) + (if irqs[|irqs| - 1] == 0 then 1 else 0)
  }

  /** After reading `irq` with `timeout` quiet reads counted, `transceive` polls again. */
  predicate PollGoesOn(irq: byte, timeout: nat)
  {
    irq & TRANSCEIVE_DONE == 0 && irq & TIMER_IRQ == 0 && timeout <= MAX_IDLE_POLLS
  }

  /** The first `j` reads of `irqs`, entered with `t` counted, each lead to another read. */
  predicate PollsGoOn(irqs: seq<byte>, t: nat, j: nat)
    requires j <= |irqs|
  {
    forall i :: 0 <= i < j ==> PollGoesOn(irqs[i], t + QuietCount(irqs[..i]))
  }

  lemma TransceivePollStep(e: DeviceState, n: nat, next: DeviceState, m: nat)
    requires |Replies(e, ComIrqReg)| > 0 && PollGoesOn(Replies(e, ComIrqReg)[0], n)
    requires next == AfterReads(e, ComIrqReg, 1)
    requires m == n + (if Replies(e, ComIrqReg)[0] == 0 then 1 else 0)
    ensures TransceivePoll(e, n) == TransceivePoll(next, m)
  {
    ReadIsAfterReads(e, ComIrqReg);
  }

  lemma QuietCountStep(irqs: seq<byte>, j: nat)
    requires 0 < j <= |irqs|
    ensures QuietCount(irqs[..j]) == QuietCount(irqs[..j - 1]) + (if irqs[j - 1] == 0 then 1 else 0)
  {
    assert irqs[..j][..j - 1] == irqs[..j - 1];
  }

  /** One more read that keeps the loop going extends a skip of `j - 1` reads to `j`. */
  lemma TransceivePollSkipOne(d: DeviceState, t: nat, j: nat, e: DeviceState, n: nat, next: DeviceState, m: nat)
    requires 0 < j <= |Replies(d, ComIrqReg)|
    requires e == AfterReads(d, ComIrqReg, j - 1) && n == t + QuietCount(Replies(d, ComIrqReg)[..j - 1])
    requires next == AfterReads(d, ComIrqReg, j) && m == t + QuietCount(Replies(d, ComIrqReg)[..j])
    requires PollGoesOn(Replies(d, ComIrqReg)[j - 1], n)
    ensures TransceivePoll(e, n) == TransceivePoll(next, m)
  {
    var irqs := Replies(d, ComIrqReg);
    assert Replies(e, ComIrqReg)[0] == irqs[j - 1];
    QuietCountStep(irqs, j);
    AfterReadsAdd(d, ComIrqReg, j - 1, 1);
    TransceivePollStep(e, n, next, m);
  }

  /** Reads that keep the loop going can be skipped, carrying the quiet count along: the wait
      from `d` is the wait from `e`, the device after `j` such reads. */
  lemma {:induction false} TransceivePollSkip(d: DeviceState, t: nat, j: nat, e: DeviceState, n: nat)
    requires j <= |Replies(d, ComIrqReg)|
    requires PollsGoOn(Replies(d, ComIrqReg), t, j)
    requires e == AfterReads(d, ComIrqReg, j) && n == t + QuietCount(Replies(d, ComIrqReg)[..j])
    ensures TransceivePoll(d, t) == TransceivePoll(e, n)
    decreases j
  {
    var irqs := Replies(d, ComIrqReg);
    if j > 0 {
      var e' := AfterReads(d, ComIrqReg, j - 1);
      var n' := t + QuietCount(irqs[..j - 1]);
      TransceivePollSkip(d, t, j - 1, e', n');
      TransceivePollSkipOne(d, t, j, e', n', e, n);
    } else {
      assert irqs[..0] == [];
    }
  }

  /** The wait ends at the first read after which the loop does not poll again: a done
      interrupt wins over a timer interrupt, and a timer interrupt over counting. */
  lemma TransceivePollEnds(d: DeviceState, t: nat, j: nat)
    requires j < |Replies(d, ComIrqReg)|
    requires PollsGoOn(Replies(d, ComIrqReg), t, j)
    requires !PollGoesOn(Replies(d, ComIrqReg)[j], t + QuietCount(Replies(d, ComIrqReg)[..j]))
    ensures var irq := Replies(d, ComIrqReg)[j];
      var e := AfterReads(d, ComIrqReg, j + 1);
      TransceivePoll(d, t)
        == if irq & TRANSCEIVE_DONE != 0 then Step(Ok(()), e)
           else if irq & TIMER_IRQ != 0 then Step(Err(Timeout), e)
           else Step(Err(LostCommunication), e)
  {
    TransceivePollSkip(d, t, j, AfterReads(d, ComIrqReg, j), t + QuietCount(Replies(d, ComIrqReg)[..j]));
    ReadIsAfterReads(AfterReads(d, ComIrqReg, j), ComIrqReg);
    AfterReadsAdd(d, ComIrqReg, j, 1);
  }

  /** When every scripted reply keeps the loop going, the wait runs out of replies. */
  lemma TransceivePollExhausted(d: DeviceState, t: nat)
    requires PollsGoOn(Replies(d, ComIrqReg), t, |Replies(d, ComIrqReg)|)
    ensures TransceivePoll(d, t)
         == Step(Err(Spi(NoReply(ComIrqReg))), AfterReads(d, ComIrqReg, |Replies(d, ComIrqReg)|))
  {
    var all := |Replies(d, ComIrqReg)|;
    TransceivePollSkip(d, t, all, AfterReads(d, ComIrqReg, all), t + QuietCount(Replies(d, ComIrqReg)[..all]));
  }

  lemma {:induction false} QuietPrefix(irqs: seq<byte>, j: nat)
    requires j <= |irqs|
    requires forall i :: 0 <= i < j ==> irqs[i] == 0
    ensures QuietCount(irqs[..j]) == j
  {
    if j > 0 {
      QuietPrefix(irqs, j - 1);
      assert irqs[..j][..j - 1] == irqs[..j - 1];
    }
  }

  lemma {:induction false} BusyPrefix(irqs: seq<byte>, j: nat)
    requires j <= |irqs|
    requires forall i :: 0 <= i < j ==> irqs[i] != 0
    ensures QuietCount(irqs[..j]) == 0
  {
    if j > 0 {
      BusyPrefix(irqs, j - 1);
      assert irqs[..j][..j - 1] == irqs[..j - 1];
    }
  }

  /** Twelve all-quiet reads in a row and `transceive` reports lost communication. */
  lemma TwelveQuietPollsLoseCommunication(d: DeviceState)
    requires |Replies(d, ComIrqReg)| >= 12
    requires forall i :: 0 <= i < 12 ==> Replies(d, ComIrqReg)[i] == 0
    ensures TransceivePoll(d, 0) == Step(Err(LostCommunication), AfterReads(d, ComIrqReg, 12))
  {
    var irqs := Replies(d, ComIrqReg);
    forall i | 0 <= i <= 11 ensures QuietCount(irqs[..i]) == i {
      QuietPrefix(irqs, i);
    }
    TransceivePollEnds(d, 0, 11);
  }

  /** Reads that are non-zero but carry neither a done nor a timer interrupt are never
      counted: the wait goes on for as long as the IC answers so. */
  lemma BusyPollsNeverLoseCommunication(d: DeviceState, t: nat)
    requires t <= MAX_IDLE_POLLS
    requires forall i :: 0 <= i < |Replies(d, ComIrqReg)| ==>
      Replies(d, ComIrqReg)[i] != 0 && Replies(d, ComIrqReg)[i] & (TRANSCEIVE_DONE | TIMER_IRQ) == 0
    ensures TransceivePoll(d, t).result == Err(Spi(NoReply(ComIrqReg)))
  {
    var irqs := Replies(d, ComIrqReg);
    forall i | 0 <= i < |irqs| ensures PollGoesOn(irqs[i], t + QuietCount(irqs[..i])) {
      BusyPrefix(irqs, i);
      assert irqs[i] & TRANSCEIVE_DONE == 0 && irqs[i] & TIMER_IRQ == 0;
    }
    TransceivePollExhausted(d, t);
  }

  // ---------------------------------------------------------------- FIFO

  /** The burst and the ControlReg read that follow a non-zero FIFOLevelReg count `n`. */
  lemma FifoBytesContents(d: DeviceState, rx: nat, n: nat)
    requires 0 < n <= rx && FifoBytes(d, rx, n).result.Ok?
    ensures var f := FifoBytes(d, rx, n).result.value;
      && |Replies(d, FIFODataReg)| >= n
      && |Replies(d, ControlReg)| > 0
      && f.buffer[..n] == Replies(d, FIFODataReg)[..n]
      && f.buffer[n..] == Zeros(rx - n)
      && f.validBits == LastBits(Replies(d, ControlReg)[0])
  {
    var bytes := ReadMany(d, FIFODataReg, n).result.value;
    var buffer := bytes + Zeros(rx - n);
    assert buffer[..n] == bytes && buffer[n..] == Zeros(rx - n);
  }

  /** What `fifo_data` returns when the FIFO held bytes: FIFOLevelReg's count of them, read
      in one burst, zero-padded to the buffer size, and the valid bits of the last one
      from ControlReg. */
  lemma ReadFifoDataContents(d: DeviceState, rx: nat)
    requires ReadFifoData(d, rx).result.Ok? && ReadFifoData(d, rx).result.value.validBytes > 0
    ensures var f := ReadFifoData(d, rx).result.value;
      && |Replies(d, FIFOLevelReg)| > 0
      && |Replies(d, FIFODataReg)| >= f.validBytes
      && |Replies(d, ControlReg)| > 0
      && f.validBytes == LevelCount(Replies(d, FIFOLevelReg)[0])
      && f.buffer[..f.validBytes] == Replies(d, FIFODataReg)[..f.validBytes]
      && f.buffer[f.validBytes..] == Zeros(rx - f.validBytes)
      && f.validBits == LastBits(Replies(d, ControlReg)[0])
  {
    var level := Read(d, FIFOLevelReg);
    FifoBytesContents(level.state, rx, LevelCount(level.result.value));
  }

  // ---------------------------------------------------------------- CRC wait

  /** DivIrqReg reads without the CRC interrupt can be skipped, each using up one round. */
  lemma {:induction false} CrcPollSkip(d: DeviceState, n: nat, j: nat, e: DeviceState)
    requires j <= n && j <= |Replies(d, DivIrqReg)|
    requires forall i :: 0 <= i < j ==> Replies(d, DivIrqReg)[i] & CRC_IRQ == 0
    requires e == AfterReads(d, DivIrqReg, j)
    ensures CrcPoll(d, n) == CrcPoll(e, n - j)
    decreases j
  {
    if j > 0 {
      var e' := AfterReads(d, DivIrqReg, j - 1);
      CrcPollSkip(d, n, j - 1, e');
      assert Replies(e', DivIrqReg)[0] == Replies(d, DivIrqReg)[j - 1];
      ReadIsAfterReads(e', DivIrqReg);
      AfterReadsAdd(d, DivIrqReg, j - 1, 1);
    }
  }

  /** `calculate_crc` writes its setup, then waits. */
  lemma CalculateCrcStarts(d: DeviceState, data: seq<byte>)
    requires |data| <= BURST_CAPACITY
    ensures CalculateCrc(d, data) == CrcPoll(DeviceState(d.replies, d.log + CrcSetup(data)), CRC_POLLS)
  {
    var w := WriteMany(FlushFifo(Write(Command(d, Idle), DivIrqReg, CRC_IRQ)), FIFODataReg, data);
    assert Command(w.state, CalcCRC) == DeviceState(d.replies, d.log + CrcSetup(data));
  }

  /** A DivIrqReg read with the CRC interrupt ends the wait with the two result registers. */
  lemma CrcPollHit(e: DeviceState, n: nat)
    requires n > 0 && |Replies(e, DivIrqReg)| > 0 && Replies(e, DivIrqReg)[0] & CRC_IRQ != 0
    ensures CrcPoll(e, n) == CrcResult(AfterReads(e, DivIrqReg, 1))
  {
    ReadIsAfterReads(e, DivIrqReg);
  }

  /** `calculate_crc` returns the two result registers, low byte first, once the IC raises
      the CRC interrupt within 5000 reads. */
  lemma CalculateCrcResult(d: DeviceState, data: seq<byte>, j: nat)
    requires |data| <= BURST_CAPACITY
    requires j < CRC_POLLS && j < |Replies(d, DivIrqReg)|
    requires forall i :: 0 <= i < j ==> Replies(d, DivIrqReg)[i] & CRC_IRQ == 0
    requires Replies(d, DivIrqReg)[j] & CRC_IRQ != 0
    ensures CalculateCrc(d, data)
         == CrcResult(AfterReads(DeviceState(d.replies, d.log + CrcSetup(data)), DivIrqReg, j + 1))
  {
    var s0 := DeviceState(d.replies, d.log + CrcSetup(data));
    CalculateCrcStarts(d, data);
    assert Replies(s0, DivIrqReg) == Replies(d, DivIrqReg);
    var e := AfterReads(s0, DivIrqReg, j);
    CrcPollSkip(s0, CRC_POLLS, j, e);
    assert Replies(e, DivIrqReg)[0] == Replies(d, DivIrqReg)[j];
    CrcPollHit(e, CRC_POLLS - j);
    AfterReadsAdd(s0, DivIrqReg, j, 1);
  }

  /** Without the CRC interrupt in the first 5000 reads, `calculate_crc` times out after
      exactly 5000 reads. */
  lemma CalculateCrcTimesOut(d: DeviceState, data: seq<byte>)
    requires |data| <= BURST_CAPACITY
    requires |Replies(d, DivIrqReg)| >= CRC_POLLS
    requires forall i :: 0 <= i < CRC_POLLS ==> Replies(d, DivIrqReg)[i] & CRC_IRQ == 0
    ensures CalculateCrc(d, data)
         == Step(Err(Timeout), AfterReads(DeviceState(d.replies, d.log + CrcSetup(data)), DivIrqReg, CRC_POLLS))
  {
    var s0 := DeviceState(d.replies, d.log + CrcSetup(data));
    CalculateCrcStarts(d, data);
    assert Replies(s0, DivIrqReg) == Replies(d, DivIrqReg);
    CrcPollSkip(s0, CRC_POLLS, CRC_POLLS, AfterReads(s0, DivIrqReg, CRC_POLLS));
  }

  // ---------------------------------------------------------------- reset and init

  /** `reset` reads CommandReg until the PowerDown bit is clear. */
  lemma {:induction false} ResetWaitsForPowerUp(d: DeviceState, j: nat)
    requires j < |Replies(d, CommandReg)|
    requires forall i :: 0 <= i < j ==> Replies(d, CommandReg)[i] & POWER_DOWN != 0
    requires Replies(d, CommandReg)[j] & POWER_DOWN == 0
    ensures PowerDownPoll(d) == Step(Ok(()), AfterReads(d, CommandReg, j + 1))
    decreases j
  {
    ReadIsAfterReads(d, CommandReg);
    if j > 0 {
      var e := AfterReads(d, CommandReg, 1);
      assert Replies(e, CommandReg) == Replies(d, CommandReg)[1..];
      ResetWaitsForPowerUp(e, j - 1);
      AfterReadsAdd(d, CommandReg, 1, j);
    }
  }

  /** The ModeReg value `init` writes selects the CRC preset 0x6363 that ISO/IEC 14443-3
      section 6.2.4 prescribes for CRC_A, with MSBFirst clear (the CRC is computed least
      significant bit first), and keeps the other bits of 0x3F. */
  lemma ModePreset()
    ensures CrcPresetOf(MODE_CRC_PRESET) == 0x6363
    ensures MODE_CRC_PRESET & 0x80 == 0
    ensures MODE_CRC_PRESET & 0xFC == 0x3F & 0xFC
  {
  }

  /** After the reset, `init` writes its configuration in this order and then switches the
      antenna on by a read-modify-write of TxControlReg. */
  lemma InitWrites(d: DeviceState)
    requires Reset(d).result.Ok?
    ensures var r := Reset(d).state;
      && Configure(r) == DeviceState(r.replies, r.log + WriteOps(INIT_CONFIGURATION))
      && Init(d) == ReadModifyWrite(Configure(r), TxControlReg, AntennaOn)
  {
    var r := Reset(d).state;
    var ops := WriteOps(INIT_CONFIGURATION);
    assert Configure(r).log == r.log + ops;
  }

  // ---------------------------------------------------------------- authentication wait

  /** `mf_authenticate` polls again after a read with neither a done nor a timer interrupt. */
  predicate AuthQuiet(irq: byte)
  {
    irq & AUTH_DONE == 0 && irq & TIMER_IRQ == 0
  }

  /** Quiet reads can be skipped, each counting one poll: the wait from `d` is the wait from
      `e`, the device after `j` quiet reads. */
  lemma {:induction false} AuthPollSkip(d: DeviceState, t: nat, j: nat, e: DeviceState)
    requires j <= |Replies(d, ComIrqReg)| && t + j <= MAX_AUTH_POLLS + 1
    requires forall i :: 0 <= i < j ==> AuthQuiet(Replies(d, ComIrqReg)[i])
    requires e == AfterReads(d, ComIrqReg, j)
    ensures AuthPoll(d, t) == AuthPoll(e, t + j)
    decreases j
  {
    if j > 0 {
      var e' := AfterReads(d, ComIrqReg, j - 1);
      AuthPollSkip(d, t, j - 1, e');
      assert Replies(e', ComIrqReg)[0] == Replies(d, ComIrqReg)[j - 1];
      ReadIsAfterReads(e', ComIrqReg);
      AfterReadsAdd(d, ComIrqReg, j - 1, 1);
    }
  }

  /** 72 quiet reads and `mf_authenticate` gives up with a timeout; it never reads more. */
  lemma AuthenticationTimesOut(d: DeviceState)
    requires |Replies(d, ComIrqReg)| >= MAX_AUTH_POLLS + 2
    requires forall i :: 0 <= i < MAX_AUTH_POLLS + 2 ==> AuthQuiet(Replies(d, ComIrqReg)[i])
    ensures AuthPoll(d, 0) == Step(Err(Timeout), AfterReads(d, ComIrqReg, MAX_AUTH_POLLS + 2))
  {
    AuthPollSkip(d, 0, MAX_AUTH_POLLS + 1, AfterReads(d, ComIrqReg, MAX_AUTH_POLLS + 1));
    ReadIsAfterReads(AfterReads(d, ComIrqReg, MAX_AUTH_POLLS + 1), ComIrqReg);
    AfterReadsAdd(d, ComIrqReg, MAX_AUTH_POLLS + 1, 1);
  }

  /** A done interrupt within 72 reads ends the wait well, even with the timer bit set. */
  lemma AuthenticationDone(d: DeviceState, j: nat)
    requires j <= MAX_AUTH_POLLS + 1 && j < |Replies(d, ComIrqReg)|
    requires forall i :: 0 <= i < j ==> AuthQuiet(Replies(d, ComIrqReg)[i])
    requires Replies(d, ComIrqReg)[j] & AUTH_DONE != 0
    ensures AuthPoll(d, 0) == Step(Ok(()), AfterReads(d, ComIrqReg, j + 1))
  {
    AuthPollSkip(d, 0, j, AfterReads(d, ComIrqReg, j));
    ReadIsAfterReads(AfterReads(d, ComIrqReg, j), ComIrqReg);
    AfterReadsAdd(d, ComIrqReg, j, 1);
  }

  /** `mf_authenticate` writes its setup (Idle, the interrupt clear, the flush, BitFramingReg
      cleared, the frame, MFAuthent) in that order, then waits, and only after a good wait
      checks the error register. */
  lemma AuthenticateStarts(d: DeviceState, frame: seq<byte>)
    requires |frame| <= BURST_CAPACITY
    ensures var e := DeviceState(d.replies, d.log + AuthSetup(frame));
      var p := AuthPoll(e, 0);
      Authenticate(d, frame) == if p.result.Err? then p else CheckErrorRegister(p.state)
  {
    var d1 := Write(FlushFifo(Write(Command(d, Idle), ComIrqReg, 0x7F)), BitFramingReg, 0x00);
    var w := WriteMany(d1, FIFODataReg, frame);
    assert w.result.Ok?;
    assert Command(w.state, MFAuthent) == DeviceState(d.replies, d.log + AuthSetup(frame));
  }

  // ---------------------------------------------------------------- error register

  /** `check_error_register` makes exactly one read of ErrorReg and reports the most
      important flag set in it. */
  lemma CheckErrorRegisterDecodes(d: DeviceState)
    requires |Replies(d, ErrorReg)| > 0
    ensures CheckErrorRegister(d)
         == Step(FirstFlagged(Replies(d, ErrorReg)[0], ERROR_PRIORITY), AfterReads(d, ErrorReg, 1))
  {
    ReadIsAfterReads(d, ErrorReg);
    ErrorBitsByPriority(Replies(d, ErrorReg)[0]);
  }

  /** A set error flag ends `transceive` before the FIFO is touched. */
  lemma ErrorFlagSkipsFifo(d: DeviceState, rx: nat)
    requires |Replies(d, ErrorReg)| > 0 && ErrorBits(Replies(d, ErrorReg)[0]).Err?
    ensures TransceiveReply(d, rx)
         == Step(Err(ErrorBits(Replies(d, ErrorReg)[0]).error), AfterReads(d, ErrorReg, 1))
  {
    ReadIsAfterReads(d, ErrorReg);
  }

  /** With no error flag set, `transceive` drains the FIFO right after the ErrorReg read. */
  lemma CleanErrorRegisterDrainsFifo(d: DeviceState, rx: nat)
    requires |Replies(d, ErrorReg)| > 0 && ErrorBits(Replies(d, ErrorReg)[0]).Ok?
    ensures TransceiveReply(d, rx) == ReadFifoData(AfterReads(d, ErrorReg, 1), rx)
  {
    ReadIsAfterReads(d, ErrorReg);
  }

  // ---------------------------------------------------------------- transceive as a whole

  /** A frame longer than the burst allows is refused with NoRoom after the first three
      setup writes, before anything is read. */
  lemma TransceiveNoRoom(d: DeviceState, tx: seq<byte>, txLastBits: byte, rxAlignBits: byte, rx: nat)
    requires |tx| > BURST_CAPACITY
    ensures Pcd.Transceive(d, tx, txLastBits, rxAlignBits, rx)
         == Step(Err(NoRoom), DeviceState(d.replies, d.log + TransceiveSetup(tx, txLastBits, rxAlignBits)[..3]))
  {
    assert TransceiveSetup(tx, txLastBits, rxAlignBits)[..3]
        == [RegWrite(CommandReg, CommandCode(Idle)), RegWrite(ComIrqReg, 0x7F), RegWrite(FIFOLevelReg, FLUSH_BUFFER)];
  }

  /** Otherwise `transceive` writes its whole setup, BitFramingReg last, and after that only
      reads: the interrupt, error, FIFO level, FIFO data and control registers. */
  lemma TransceiveWritesSetupFirst(d: DeviceState, tx: seq<byte>, txLastBits: byte, rxAlignBits: byte, rx: nat)
    requires |tx| <= BURST_CAPACITY
    ensures var s := Pcd.Transceive(d, tx, txLastBits, rxAlignBits, rx);
      && d.log + TransceiveSetup(tx, txLastBits, rxAlignBits) <= s.state.log
      && OnlyReads(d, s.state, {ComIrqReg, ErrorReg, FIFOLevelReg, FIFODataReg, ControlReg})
  {
    var started := TransceiveStarted(d, tx, txLastBits, rxAlignBits);
    var p := TransceivePoll(started, 0);
    assert OnlyReads(d, started, {});
    OnlyReadsChain(d, started, p.state, {}, {ComIrqReg}, {ComIrqReg});
    if p.result.Ok? {
      var c := CheckErrorRegister(p.state);
      OnlyReadsChain(d, p.state, c.state, {ComIrqReg}, {ErrorReg}, {ComIrqReg, ErrorReg});
      if c.result.Ok? {
        var f := ReadFifoData(c.state, rx);
        OnlyReadsChain(d, c.state, f.state, {ComIrqReg, ErrorReg}, {FIFOLevelReg, FIFODataReg, ControlReg},
          {ComIrqReg, ErrorReg, FIFOLevelReg, FIFODataReg, ControlReg});
      }
    }
  }

  // ---------------------------------------------------------------- FIFO cases

  /** `fifo_data` for a zero-byte buffer reads nothing. */
  lemma ReadFifoDataIntoNothing(d: DeviceState)
    ensures ReadFifoData(d, 0) == Step(Ok(FifoData([], 0, 0)), d)
  {
  }

  /** More bytes in the FIFO than the buffer holds is NoRoom, after the FIFOLevelReg read. */
  lemma ReadFifoDataOverflow(d: DeviceState, rx: nat)
    requires rx > 0 && |Replies(d, FIFOLevelReg)| > 0 && LevelCount(Replies(d, FIFOLevelReg)[0]) > rx
    ensures ReadFifoData(d, rx) == Step(Err(NoRoom), AfterReads(d, FIFOLevelReg, 1))
  {
    ReadIsAfterReads(d, FIFOLevelReg);
  }

  /** An empty FIFO gives a zero buffer with no valid bytes, and ControlReg is not read. */
  lemma ReadFifoDataEmpty(d: DeviceState, rx: nat)
    requires rx > 0 && |Replies(d, FIFOLevelReg)| > 0 && Replies(d, FIFOLevelReg)[0] == 0
    ensures ReadFifoData(d, rx) == Step(Ok(FifoData(Zeros(rx), 0, 0)), AfterReads(d, FIFOLevelReg, 1))
  {
    ReadIsAfterReads(d, FIFOLevelReg);
  }
}
