/**
 * The reader IC (PCD) side of the driver: the register sequences behind its private
 * operations, as functions of the device state. The driver's methods are proved to do
 * exactly what these functions say.
 */
module Pcd {
  import opened Bits
  import opened Registers
  import opened Errors
  import opened Device
  import opened Fifo

  /** `command`: ask the IC to run `c`. */
  function Command(d: DeviceState, c: PcdCommand): DeviceState
  {
    Write(d, CommandReg, CommandCode(c))
  }

  /** `fifo_flush`. */
  function FlushFifo(d: DeviceState): DeviceState
  {
    Write(d, FIFOLevelReg, FLUSH_BUFFER)
  }

  // ---------------------------------------------------------------- error register

  /** The error flags `check_error_register` tests, most important first. */
  const ERROR_PRIORITY: seq<(byte, Error)> := [
    (PROTOCOL_ERR, Protocol), (PARITY_ERR, Parity), (CRC_ERR, Crc), (COLL_ERR, Collision),
    (BUFFER_OVFL, BufferOverflow), (TEMP_ERR, Overheating), (WR_ERR, Wr)]

  /** The first entry of `table` whose flag is set in `err`, if any. */
  function FirstFlagged(err: byte, table: seq<(byte, Error)>): Result<()>
  {
    if |table| == 0 then Ok(())
    else if err & table[0].0 != 0 then Err(table[0].1)
    else FirstFlagged(err, table[1..])
  }

  /** The verdict `check_error_register` draws from an ErrorReg value. */
  function ErrorBits(err: byte): (r: Result<()>)
    ensures r.Ok? <==> err & !0x20 == 0
    ensures r.Err? ==> r.error in {Protocol, Parity, Crc, Collision, BufferOverflow, Overheating, Wr}
  {
    if err & PROTOCOL_ERR != 0 then Err(Protocol)
    else if err & PARITY_ERR != 0 then Err(Parity)
    else if err & CRC_ERR != 0 then Err(Crc)
    else if err & COLL_ERR != 0 then Err(Collision)
    else if err & BUFFER_OVFL != 0 then Err(BufferOverflow)
    else if err & TEMP_ERR != 0 then Err(Overheating)
    else if err & WR_ERR != 0 then Err(Wr)
    else Ok(())
  }

  /** The if-chain reports the most important flag that is set. */
  lemma {:induction false} ErrorBitsByPriority(err: byte)
    ensures ErrorBits(err) == FirstFlagged(err, ERROR_PRIORITY)
  {
    var t := ERROR_PRIORITY;
    assert FirstFlagged(err, t[7..]) == Ok(());
    assert FirstFlagged(err, t[6..]) == if err & WR_ERR != 0 then Err(Wr) else Ok(());
    assert FirstFlagged(err, t[5..]) == if err & TEMP_ERR != 0 then Err(Overheating) else FirstFlagged(err, t[6..]);
    assert FirstFlagged(err, t[4..]) == if err & BUFFER_OVFL != 0 then Err(BufferOverflow) else FirstFlagged(err, t[5..]);
    assert FirstFlagged(err, t[3..]) == if err & COLL_ERR != 0 then Err(Collision) else FirstFlagged(err, t[4..]);
    assert FirstFlagged(err, t[2..]) == if err & CRC_ERR != 0 then Err(Crc) else FirstFlagged(err, t[3..]);
    assert FirstFlagged(err, t[1..]) == if err & PARITY_ERR != 0 then Err(Parity) else FirstFlagged(err, t[2..]);
    assert t[0..] == t;
  }

  /** `check_error_register`. */
  function CheckErrorRegister(d: DeviceState): (s: Step<()>)
    ensures s.result.Err? ==> s.result.error != Proprietary
  {
    var err := Read(d, ErrorReg);
    if err.result.Err? then Step(Err(err.result.error), err.state)
    else Step(ErrorBits(err.result.value), err.state)
  }

  // ---------------------------------------------------------------- FIFO

  /** `fifo_data::<rx>`: drain what the FIFO received into a buffer of `rx` bytes. */
  /** The byte count FIFOLevelReg reports (`read(FIFOLevelReg) as usize`). */
  function LevelCount(level: byte): (n: nat)
    ensures n < 256
  {
    level as nat
  }

  /** The valid bits of the last received byte, bits 2..0 of ControlReg. */
  function LastBits(control: byte): (n: nat)
    ensures n < 8
  {
    (control & 0x07) as nat
  }

  function ReadFifoData(d: DeviceState, rx: nat): (s: Step<FifoData>)
    ensures s.result.Ok? ==> Wf(s.result.value, rx)
    ensures s.result.Err? ==> s.result.error != Proprietary
    ensures OnlyReads(d, s.state, {FIFOLevelReg, FIFODataReg, ControlReg})
  {
    if rx == 0 then Step(Ok(FifoData([], 0, 0)), d)
    else
      var level := Read(d, FIFOLevelReg);
      if level.result.Err? then Step(Err(level.result.error), level.state)
      else
        var n := LevelCount(level.result.value);
        if n > rx then Step(Err(NoRoom), level.state)
        else if n == 0 then Step(Ok(FifoData(Zeros(rx), 0, 0)), level.state)
        else FifoBytes(level.state, rx, n)
  }

  /** The rest of `fifo_data` once FIFOLevelReg reported `n` bytes, `0 < n <= rx`: the bytes
      in one burst, then the valid bits of the last one from ControlReg. */
  function FifoBytes(d: DeviceState, rx: nat, n: nat): (s: Step<FifoData>)
    requires 0 < n <= rx
    ensures s.result.Ok? ==> Wf(s.result.value, rx) && s.result.value.validBytes == n
    ensures s.result.Err? ==> s.result.error != Proprietary
    ensures OnlyReads(d, s.state, {FIFODataReg, ControlReg})
  {
    var bytes := ReadMany(d, FIFODataReg, n);
    if bytes.result.Err? then Step(Err(bytes.result.error), bytes.state)
    else
      var control := Read(bytes.state, ControlReg);
      if control.result.Err? then Step(Err(control.result.error), control.state)
      else
        var buffer := bytes.result.value + Zeros(rx - n);
        assert |buffer| == rx;
        Step(Ok(FifoData(buffer, n, LastBits(control.result.value))), control.state)
  }

  // ---------------------------------------------------------------- transceive

  /** The interrupts that end the wait of `transceive`: received, error, idle. */
  const TRANSCEIVE_DONE: byte := RX_IRQ | ERR_IRQ | IDLE_IRQ

  /** How many all-quiet ComIrqReg reads `transceive` tolerates before it gives up. */
  const MAX_IDLE_POLLS: nat := 10

  /** The BitFramingReg value that starts a transmission: StartSend, the receive alignment
      and the number of bits of the last byte to send. */
  function BitFraming(txLastBits: byte, rxAlignBits: byte): (b: byte)
    ensures b & 0x80 == 0x80
    ensures (b >> 4) & 0x07 == rxAlignBits & 0x07
    ensures b & 0x07 == txLastBits & 0x07
    ensures b & 0x08 == 0
  {
    0x80 | ((rxAlignBits & 0x07) << 4) | (txLastBits & 0x07)
  }

  /** The wait loop of `transceive`, entered with `timeout` all-quiet reads counted. */
  function TransceivePoll(d: DeviceState, timeout: nat): (s: Step<()>)
    ensures OnlyReads(d, s.state, {ComIrqReg})
    ensures s.result.Ok? ==> |Replies(s.state, ComIrqReg)| < |Replies(d, ComIrqReg)|
    ensures s.result.Err? ==> s.result.error in {Spi(NoReply(ComIrqReg)), Timeout, LostCommunication}
    decreases |Replies(d, ComIrqReg)|
  {
    var irq := Read(d, ComIrqReg);
    if irq.result.Err? then Step(Err(irq.result.error), irq.state)
    else if irq.result.value & TRANSCEIVE_DONE != 0 then Step(Ok(()), irq.state)
    else if irq.result.value & TIMER_IRQ != 0 then Step(Err(Timeout), irq.state)
    else if timeout > MAX_IDLE_POLLS then Step(Err(LostCommunication), irq.state)
    else TransceivePoll(irq.state, if irq.result.value == 0 then timeout + 1 else timeout)
  }

  /** What `transceive` writes before it waits. */
  function TransceiveSetup(tx: seq<byte>, txLastBits: byte, rxAlignBits: byte): seq<Op>
  {
    [RegWrite(CommandReg, CommandCode(Idle)), RegWrite(ComIrqReg, 0x7F),
     RegWrite(FIFOLevelReg, FLUSH_BUFFER), BurstWrite(FIFODataReg, tx),
     RegWrite(CommandReg, CommandCode(PcdCommand.Transceive)),
     RegWrite(BitFramingReg, BitFraming(txLastBits, rxAlignBits))]
  }

  /** The device once `transceive` has started the transmission (`tx` fits the burst). */
  function TransceiveStarted(d: DeviceState, tx: seq<byte>, txLastBits: byte, rxAlignBits: byte): (e: DeviceState)
    requires |tx| <= BURST_CAPACITY
    ensures e == DeviceState(d.replies, d.log + TransceiveSetup(tx, txLastBits, rxAlignBits))
  {
    var w := WriteMany(FlushFifo(Write(Command(d, Idle), ComIrqReg, 0x7F)), FIFODataReg, tx);
    Write(Command(w.state, PcdCommand.Transceive), BitFramingReg, BitFraming(txLastBits, rxAlignBits))
  }

  /** The second half of `transceive`, once the wait has ended well: check the error
      register, then drain the FIFO. */
  function TransceiveReply(d: DeviceState, rx: nat): (s: Step<FifoData>)
    ensures s.result.Ok? ==> Wf(s.result.value, rx)
    ensures s.result.Err? ==> s.result.error != Proprietary
    ensures Replies(s.state, ComIrqReg) == Replies(d, ComIrqReg)
  {
    var c := CheckErrorRegister(d);
    if c.result.Err? then Step(Err(c.result.error), c.state)
    else
      assert Replies(c.state, ComIrqReg) == Replies(d, ComIrqReg);
      ReadFifoData(c.state, rx)
  }

  /** `transceive::<rx>`: send `tx`, wait for the card's answer, check the error register
      and drain the FIFO. */
  function Transceive(d: DeviceState, tx: seq<byte>, txLastBits: byte, rxAlignBits: byte, rx: nat): (s: Step<FifoData>)
    ensures s.result.Ok? ==> Wf(s.result.value, rx)
    ensures s.result.Err? ==> s.result.error != Proprietary
    ensures s.result.Ok? || s.result == Err(Collision) ==>
      |Replies(s.state, ComIrqReg)| < |Replies(d, ComIrqReg)|
  {
    if |tx| > BURST_CAPACITY then Step(Err(NoRoom), FlushFifo(Write(Command(d, Idle), ComIrqReg, 0x7F)))
    else
      var started := TransceiveStarted(d, tx, txLastBits, rxAlignBits);
      var p := TransceivePoll(started, 0);
      if p.result.Err? then Step(Err(p.result.error), p.state)
      else
        TransceiveReply(p.state, rx)
  }

  // ---------------------------------------------------------------- CRC coprocessor

  /** How many DivIrqReg reads `calculate_crc` makes before it reports a timeout. */
  const CRC_POLLS: nat := 5000

  /** Stop the coprocessor and read the result, low byte first. */
  function CrcResult(d: DeviceState): (s: Step<seq<byte>>)
    ensures s.result.Ok? ==> |s.result.value| == 2
    ensures s.result.Err? ==> s.result.error in {Spi(NoReply(CRCResultRegLow)), Spi(NoReply(CRCResultRegHigh))}
    ensures s.result.Ok? <==> |Replies(d, CRCResultRegLow)| > 0 && |Replies(d, CRCResultRegHigh)| > 0
    ensures s.result.Ok? ==> s.result.value == [Replies(d, CRCResultRegLow)[0], Replies(d, CRCResultRegHigh)[0]]
  {
    var e := Command(d, Idle);
    var lo := Read(e, CRCResultRegLow);
    if lo.result.Err? then Step(Err(lo.result.error), lo.state)
    else
      var hi := Read(lo.state, CRCResultRegHigh);
      if hi.result.Err? then Step(Err(hi.result.error), hi.state)
      else Step(Ok([lo.result.value, hi.result.value]), hi.state)
  }

  /** The wait loop of `calculate_crc` with `remaining` reads left. */
  function CrcPoll(d: DeviceState, remaining: nat): (s: Step<seq<byte>>)
    ensures s.result.Ok? ==> |s.result.value| == 2
    ensures OnlyReads(d, s.state, {DivIrqReg, CRCResultRegLow, CRCResultRegHigh})
    ensures s.result.Err? ==>
      s.result.error in {Timeout, Spi(NoReply(DivIrqReg)), Spi(NoReply(CRCResultRegLow)), Spi(NoReply(CRCResultRegHigh))}
    decreases remaining
  {
    if remaining == 0 then Step(Err(Timeout), d)
    else
      var irq := Read(d, DivIrqReg);
      if irq.result.Err? then Step(Err(irq.result.error), irq.state)
      else if irq.result.value & CRC_IRQ != 0 then CrcResult(irq.state)
      else CrcPoll(irq.state, remaining - 1)
  }

  /** What `calculate_crc` writes before it waits. */
  function CrcSetup(data: seq<byte>): seq<Op>
  {
    [RegWrite(CommandReg, CommandCode(Idle)), RegWrite(DivIrqReg, CRC_IRQ),
     RegWrite(FIFOLevelReg, FLUSH_BUFFER), BurstWrite(FIFODataReg, data),
     RegWrite(CommandReg, CommandCode(CalcCRC))]
  }

  /** `calculate_crc`: let the coprocessor compute the CRC_A of `data`. */
  function CalculateCrc(d: DeviceState, data: seq<byte>): (s: Step<seq<byte>>)
    ensures s.result.Ok? ==> |s.result.value| == 2
    ensures s.result.Err? ==> s.result.error != Proprietary
  {
    var w := WriteMany(FlushFifo(Write(Command(d, Idle), DivIrqReg, CRC_IRQ)), FIFODataReg, data);
    if w.result.Err? then Step(Err(w.result.error), w.state)
    else CrcPoll(Command(w.state, CalcCRC), CRC_POLLS)
  }

  // ---------------------------------------------------------------- reset and init

  /** The wait loop of `reset`: read CommandReg until PowerDown is clear. */
  function PowerDownPoll(d: DeviceState): (s: Step<()>)
    ensures OnlyReads(d, s.state, {CommandReg})
    ensures s.result.Err? ==> s.result.error == Spi(NoReply(CommandReg))
    decreases |Replies(d, CommandReg)|
  {
    var r := Read(d, CommandReg);
    if r.result.Err? then Step(Err(r.result.error), r.state)
    else if r.result.value & POWER_DOWN != 0 then PowerDownPoll(r.state)
    else Step(Ok(()), r.state)
  }

  /** `reset`: a soft reset, then wait for the IC to power up. */
  function Reset(d: DeviceState): (s: Step<()>)
    ensures OnlyReads(d, s.state, {CommandReg})
    ensures s.result.Err? ==> s.result.error == Spi(NoReply(CommandReg))
  {
    PowerDownPoll(Command(d, SoftReset))
  }

  /** The ModeReg value `init` writes: CRC preset 0x6363 and the upper bits of 0x3F. */
  const MODE_CRC_PRESET: byte := (0x3F & !0x03) | 0x01

  /** The preset of the CRC coprocessor that ModeReg's CRCPreset field (bits 0-1) selects,
      as the MFRC522 data sheet tabulates it. */
  function CrcPresetOf(mode: byte): nat
  {
    match mode & 0x03
    case 0 => 0x0000
    case 1 => 0x6363
    case 2 => 0xA671
    case _ => 0xFFFF
  }

  /** The register writes of `init` after the reset, in order. */
  const INIT_CONFIGURATION: seq<(Register, byte)> := [
    (TxModeReg, 0x00), (RxModeReg, 0x00), (ModWidthReg, 0x26), (TModeReg, 0x80),
    (TPrescalerReg, 0xA9), (TReloadRegHigh, 0x03), (TReloadRegLow, 0xE8),
    (TxASKReg, FORCE_100_ASK), (ModeReg, MODE_CRC_PRESET)]

  /** The log entries of writing `writes` in order. */
  function WriteOps(writes: seq<(Register, byte)>): (ops: seq<Op>)
    ensures |ops| == |writes|
    ensures forall i :: 0 <= i < |writes| ==> ops[i] == RegWrite(writes[i].0, writes[i].1)
  {
    seq(|writes|, i requires 0 <= i < |writes| => RegWrite(writes[i].0, writes[i].1))
  }

  /** The fixed configuration `init` writes after the reset (timer, modulation, CRC preset). */
  function Configure(d: DeviceState): DeviceState
  {
    var d1 := Write(Write(Write(d, TxModeReg, 0x00), RxModeReg, 0x00), ModWidthReg, 0x26);
    var d2 := Write(Write(Write(Write(d1, TModeReg, 0x80), TPrescalerReg, 0xA9), TReloadRegHigh, 0x03), TReloadRegLow, 0xE8);
    Write(Write(d2, TxASKReg, FORCE_100_ASK), ModeReg, MODE_CRC_PRESET)
  }

  /** `init`'s read-modify-write of TxControlReg: switch both antenna drivers on. */
  function AntennaOn(b: byte): (r: byte)
    ensures r & 0x03 == 0x03
    ensures r & !0x03 == b & !0x03
  {
    b | 0x03
  }

  /** `init`. */
  function Init(d: DeviceState): (s: Step<()>)
    ensures s.result.Err? ==> s.result.error in {Spi(NoReply(CommandReg)), Spi(NoReply(TxControlReg))}
  {
    var r := Reset(d);
    if r.result.Err? then r
    else ReadModifyWrite(Configure(r.state), TxControlReg, AntennaOn)
  }

  // ---------------------------------------------------------------- MIFARE authentication

  /** The interrupts that end the wait of `mf_authenticate`: error, idle. */
  const AUTH_DONE: byte := ERR_IRQ | IDLE_IRQ

  /** The last value of `timeout` at which `mf_authenticate` still polls again. */
  const MAX_AUTH_POLLS: nat := 70

  /** The wait loop of `mf_authenticate`, entered with `timeout` reads counted. */
  function AuthPoll(d: DeviceState, timeout: nat): (s: Step<()>)
    ensures OnlyReads(d, s.state, {ComIrqReg})
    ensures s.result.Err? ==> s.result.error in {Spi(NoReply(ComIrqReg)), Timeout}
    ensures timeout <= MAX_AUTH_POLLS + 1 ==>
      |Replies(d, ComIrqReg)| <= |Replies(s.state, ComIrqReg)| + (MAX_AUTH_POLLS + 2 - timeout)
    decreases |Replies(d, ComIrqReg)|
  {
    var irq := Read(d, ComIrqReg);
    if irq.result.Err? then Step(Err(irq.result.error), irq.state)
    else if irq.result.value & AUTH_DONE != 0 then Step(Ok(()), irq.state)
    else if irq.result.value & TIMER_IRQ != 0 || timeout > MAX_AUTH_POLLS then Step(Err(Timeout), irq.state)
    else AuthPoll(irq.state, timeout + 1)
  }

  /** What `mf_authenticate` writes before it waits. */
  function AuthSetup(frame: seq<byte>): seq<Op>
  {
    [RegWrite(CommandReg, CommandCode(Idle)), RegWrite(ComIrqReg, 0x7F),
     RegWrite(FIFOLevelReg, FLUSH_BUFFER), RegWrite(BitFramingReg, 0x00),
     BurstWrite(FIFODataReg, frame), RegWrite(CommandReg, CommandCode(MFAuthent))]
  }

  /** The reader IC's part of `mf_authenticate`: run MFAuthent on `frame`, wait, check errors. */
  function Authenticate(d: DeviceState, frame: seq<byte>): (s: Step<()>)
    ensures s.result.Err? ==> s.result.error != Proprietary
  {
    var d1 := Write(FlushFifo(Write(Command(d, Idle), ComIrqReg, 0x7F)), BitFramingReg, 0x00);
    var w := WriteMany(d1, FIFODataReg, frame);
    if w.result.Err? then Step(Err(w.result.error), w.state)
    else
      var p := AuthPoll(Command(w.state, MFAuthent), 0);
      if p.result.Err? then p
      else CheckErrorRegister(p.state)
  }
}
