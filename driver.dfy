/**
 * The driver object `Mfrc522`: its private bus helpers, the reader IC operations and the
 * public card commands, each proved to leave the device exactly as the reference functions
 * of `Device`, `Pcd`, `Picc` and `Anticollision` say.
 */
module Driver {
  import opened Bits
  import opened Registers
  import opened Errors
  import opened Device
  import opened Fifo
  import Pcd
  import opened Picc
  import Anticollision

  /** How one pass of the anticollision loop ends: leave the loop with `outcome`, or go
      round again with `knownBits` bits known. */
  datatype RoundEnd = Done(outcome: Outcome<seq<byte>>) | Again(knownBits: nat)

  /** A round's end, with the device and the frame buffer it leaves, in the terms of
      `Anticollision.Round`. */
  function Embed(e: RoundEnd, d: DeviceState, tx: seq<byte>): Anticollision.Round
  {
    match e
    case Done(o) => Anticollision.Finished(Run(o, d))
    case Again(k) => Anticollision.Retry(d, tx, k)
  }

  /** How one pass of `select`'s `'cascade` loop ends: go on to the next level, or leave
      `select` with `outcome`. */
  datatype LevelEnd = Next | Finish(outcome: Outcome<Uid>)

  /** A pass's end, with the device and the UID bytes it leaves, in the terms of
      `Anticollision.CascadeEnd`. */
  function EmbedLevel(e: LevelEnd, d: DeviceState, uid: seq<byte>): Anticollision.CascadeEnd
  {
    match e
    case Next => Anticollision.Descend(d, uid)
    case Finish(o) => Anticollision.Settled(Run(o, d))
  }

  /** The UID bookkeeping of one cascade level: an incomplete SAK appends the three bytes
      after the cascade tag to `uidBytes[..3 * level]`; a complete one appends the four UID
      bytes and builds the `Uid` of the bytes so far. */
  method StoreLevel(uidBytes: array<byte>, level: nat, found: Anticollision.Level) returns (complete: bool, uid: Uid)
    requires level < 3 && uidBytes.Length == 10 && |found.frame| == 9
    modifies uidBytes
    ensures complete == IsComplete(found.sak)
    ensures !complete ==> uidBytes[..3 * level + 3] == old(uidBytes[..3 * level]) + found.frame[3..6]
    ensures complete ==> uid == UidOf(old(uidBytes[..3 * level]) + found.frame[2..6], found.sak.value)
  {
    var uidIdx := 3 * level;
    complete := IsComplete(found.sak);
    if !complete {
      CopyFromSlice(uidBytes, uidIdx, found.frame[3..6]);
      return complete, Single([0, 0, 0, 0], found.sak);
    }
    ghost var known := uidBytes[..uidIdx];
    CopyFromSlice(uidBytes, uidIdx, found.frame[2..6]);
    assert uidBytes[..uidIdx + 4] == known + found.frame[2..6];
    if level == 0 {
      uid := Single(uidBytes[..4], found.sak);
    } else if level == 1 {
      uid := Double(uidBytes[..7], found.sak);
    } else {
      assert uidBytes[..uidIdx + 4] == uidBytes[..];
      uid := Triple(uidBytes[..], found.sak);
    }
  }

  /** `fifo_data.copy_bits_to(&mut tx[2..=6], known_bits)`: the received bits go into the
      UID bytes of the frame buffer. */
  method CopyUidBits(f: FifoData, tx: array<byte>, knownBits: nat)
    requires tx.Length == 9 && knownBits <= 32 && CopyFits(f, 5, knownBits)
    modifies tx
    ensures tx[..] == Anticollision.Spliced(old(tx[..]), f, knownBits)
  {
    var _ := CopyBitsTo(f, tx, 2, 7, knownBits);
    Anticollision.SplicedFromWindow(old(tx[..]), tx[..], f, knownBits);
  }

  /** Set the bit at collision position `knownBits` of the frame buffer: the driver follows
      the 1 branch. */
  method SetCollisionBit(tx: array<byte>, knownBits: nat)
    requires tx.Length == 9 && 1 <= knownBits <= 32
    modifies tx
    ensures tx[..] == Anticollision.MarkCollision(old(tx[..]), knownBits)
  {
    var count := knownBits % 8;
    var checkBit := (knownBits - 1) % 8;
    var index := 1 + knownBits / 8 + if count != 0 then 1 else 0;
    assert index == Anticollision.CollisionIndex(knownBits) && checkBit < 8;
    tx[index] := tx[index] | (1 << checkBit);
  }

  class Mfrc522 {
    /** The replies the IC still has scripted, per register. */
    var replies: map<Register, seq<byte>>
    /** The bus transactions performed so far. */
    var log: seq<Op>
    /** The `Initialized` type state: set by a successful `init`. */
    ghost var initialized: bool

    function State(): DeviceState
      reads this
    {
      DeviceState(replies, log)
    }

    /** `Mfrc522::new`: a driver on a bus whose IC will answer with `script`. */
    constructor (script: map<Register, seq<byte>>)
      ensures State() == DeviceState(script, [])
      ensures !initialized
    {
      replies := script;
      log := [];
      initialized := false;
    }

    // ------------------------------------------------------------ bus helpers

    method Read(reg: Register) returns (r: Result<byte>)
      modifies this
      ensures Step(r, State()) == Device.Read(old(State()), reg)
      ensures initialized == old(initialized)
    {
      var rs := if reg in replies then replies[reg] else [];
      if |rs| == 0 {
        return Err(Spi(NoReply(reg)));
      }
      replies := replies[reg := rs[1..]];
      log := log + [RegRead(reg, rs[0])];
      return Ok(rs[0]);
    }

    method Write(reg: Register, value: byte)
      modifies this
      ensures State() == Device.Write(old(State()), reg, value)
      ensures initialized == old(initialized)
    {
      log := log + [RegWrite(reg, value)];
    }

    method ReadMany(reg: Register, n: nat) returns (r: Result<seq<byte>>)
      modifies this
      ensures Step(r, State()) == Device.ReadMany(old(State()), reg, n)
      ensures initialized == old(initialized)
    {
      if n > BURST_CAPACITY {
        return Err(NoRoom);
      }
      var rs := if reg in replies then replies[reg] else [];
      if |rs| < n {
        return Err(Spi(NoReply(reg)));
      }
      if n > 0 {
        replies := replies[reg := rs[n..]];
      }
      log := log + [BurstRead(reg, rs[..n])];
      return Ok(rs[..n]);
    }

    method WriteMany(reg: Register, bytes: seq<byte>) returns (r: Result<()>)
      modifies this
      ensures Step(r, State()) == Device.WriteMany(old(State()), reg, bytes)
      ensures initialized == old(initialized)
    {
      if |bytes| > BURST_CAPACITY {
        return Err(NoRoom);
      }
      log := log + [BurstWrite(reg, bytes)];
      return Ok(());
    }

    method Rmw(reg: Register, f: byte -> byte) returns (r: Result<()>)
      modifies this
      ensures Step(r, State()) == Device.ReadModifyWrite(old(State()), reg, f)
      ensures initialized == old(initialized)
    {
      var b := Read(reg);
      if b.Err? {
        return Err(b.error);
      }
      Write(reg, f(b.value));
      return Ok(());
    }

    method Command(c: PcdCommand)
      modifies this
      ensures State() == Pcd.Command(old(State()), c)
      ensures initialized == old(initialized)
    {
      Write(CommandReg, CommandCode(c));
    }

    method FifoFlush()
      modifies this
      ensures State() == Pcd.FlushFifo(old(State()))
      ensures initialized == old(initialized)
    {
      Write(FIFOLevelReg, FLUSH_BUFFER);
    }

    // ------------------------------------------------------------ reader IC operations

    method Reset() returns (r: Result<()>)
      modifies this
      ensures Step(r, State()) == Pcd.Reset(old(State()))
      ensures initialized == old(initialized)
    {
      Command(SoftReset);
      ghost var start := State();
      while true
        invariant Pcd.PowerDownPoll(start) == Pcd.PowerDownPoll(State())
        invariant initialized == old(initialized)
        decreases |Replies(State(), CommandReg)|
      {
        var b := Read(CommandReg);
        if b.Err? {
          return Err(b.error);
        }
        if b.value & POWER_DOWN == 0 {
          return Ok(());
        }
      }
    }

    method CalculateCrc(data: seq<byte>) returns (r: Result<seq<byte>>)
      modifies this
      ensures Step(r, State()) == Pcd.CalculateCrc(old(State()), data)
      ensures initialized == old(initialized)
    {
      Command(Idle);
      Write(DivIrqReg, CRC_IRQ);
      FifoFlush();
      var w := WriteMany(FIFODataReg, data);
      if w.Err? {
        return Err(w.error);
      }
      Command(CalcCRC);
      ghost var start := State();
      for i := 0 to Pcd.CRC_POLLS
        invariant Pcd.CrcPoll(start, Pcd.CRC_POLLS) == Pcd.CrcPoll(State(), Pcd.CRC_POLLS - i)
        invariant initialized == old(initialized)
      {
        var irq := Read(DivIrqReg);
        if irq.Err? {
          return Err(irq.error);
        }
        if irq.value & CRC_IRQ != 0 {
          Command(Idle);
          var lo := Read(CRCResultRegLow);
          if lo.Err? {
            return Err(lo.error);
          }
          var hi := Read(CRCResultRegHigh);
          if hi.Err? {
            return Err(hi.error);
          }
          return Ok([lo.value, hi.value]);
        }
      }
      return Err(Timeout);
    }

    method CheckErrorRegister() returns (r: Result<()>)
      modifies this
      ensures Step(r, State()) == Pcd.CheckErrorRegister(old(State()))
      ensures initialized == old(initialized)
    {
      var err := Read(ErrorReg);
      if err.Err? {
        return Err(err.error);
      }
      return Pcd.ErrorBits(err.value);
    }

    method ReadFifoData(rx: nat) returns (r: Result<FifoData>)
      modifies this
      ensures Step(r, State()) == Pcd.ReadFifoData(old(State()), rx)
      ensures initialized == old(initialized)
    {
      if rx == 0 {
        return Ok(FifoData([], 0, 0));
      }
      var level := Read(FIFOLevelReg);
      if level.Err? {
        return Err(level.error);
      }
      var validBytes := Pcd.LevelCount(level.value);
      if validBytes > rx {
        return Err(NoRoom);
      }
      if validBytes == 0 {
        return Ok(FifoData(Zeros(rx), 0, 0));
      }
      r := ReadFifoBytes(rx, validBytes);
    }

    /** The burst read of the `n` bytes in the FIFO and the ControlReg read of `fifo_data`. */
    method ReadFifoBytes(rx: nat, n: nat) returns (r: Result<FifoData>)
      requires 0 < n <= rx
      modifies this
      ensures Step(r, State()) == Pcd.FifoBytes(old(State()), rx, n)
      ensures initialized == old(initialized)
    {
      var bytes := ReadMany(FIFODataReg, n);
      if bytes.Err? {
        return Err(bytes.error);
      }
      var control := Read(ControlReg);
      if control.Err? {
        return Err(control.error);
      }
      return Ok(FifoData(bytes.value + Zeros(rx - n), n, Pcd.LastBits(control.value)));
    }

    /** The wait inside `transceive`: poll ComIrqReg until the exchange ends. */
    method AwaitTransceive() returns (r: Result<()>)
      modifies this
      ensures Step(r, State()) == Pcd.TransceivePoll(old(State()), 0)
      ensures initialized == old(initialized)
    {
      var timeout: nat := 0;
      while true
        invariant Pcd.TransceivePoll(old(State()), 0) == Pcd.TransceivePoll(State(), timeout)
        invariant initialized == old(initialized)
        decreases |Replies(State(), ComIrqReg)|
      {
        var irq := Read(ComIrqReg);
        if irq.Err? {
          return Err(irq.error);
        }
        if irq.value & Pcd.TRANSCEIVE_DONE != 0 {
          return Ok(());
        } else if irq.value & TIMER_IRQ != 0 {
          return Err(Timeout);
        } else if timeout > Pcd.MAX_IDLE_POLLS {
          return Err(LostCommunication);
        }
        if irq.value == 0 {
          timeout := timeout + 1;
        }
      }
    }

    method Transceive(tx: seq<byte>, txLastBits: byte, rxAlignBits: byte, rx: nat) returns (r: Result<FifoData>)
      modifies this
      ensures Step(r, State()) == Pcd.Transceive(old(State()), tx, txLastBits, rxAlignBits, rx)
      ensures initialized == old(initialized)
    {
      Command(Idle);
      Write(ComIrqReg, 0x7F);
      FifoFlush();
      var w := WriteMany(FIFODataReg, tx);
      if w.Err? {
        return Err(w.error);
      }
      Command(PcdCommand.Transceive);
      Write(BitFramingReg, 0x80 | ((rxAlignBits & 0x07) << 4) | (txLastBits & 0x07));
      assert State() == Pcd.TransceiveStarted(old(State()), tx, txLastBits, rxAlignBits);
      var p := AwaitTransceive();
      if p.Err? {
        return Err(p.error);
      }
      ghost var waited := State();
      var c := CheckErrorRegister();
      if c.Err? {
        return Err(c.error);
      }
      r := ReadFifoData(rx);
      assert Step(r, State()) == Pcd.TransceiveReply(waited, rx);
    }

    // ------------------------------------------------------------ type-state transition

    /** `init`: only an uninitialized driver can be initialized, and only a successful
        `init` yields an initialized one. */
    method Init() returns (r: Result<()>)
      requires !initialized
      modifies this
      ensures Step(r, State()) == Pcd.Init(old(State()))
      ensures initialized <==> r.Ok?
    {
      var reset := Reset();
      if reset.Err? {
        return Err(reset.error);
      }
      Write(TxModeReg, 0x00);
      Write(RxModeReg, 0x00);
      Write(ModWidthReg, 0x26);
      Write(TModeReg, 0x80);
      Write(TPrescalerReg, 0xA9);
      Write(TReloadRegHigh, 0x03);
      Write(TReloadRegLow, 0xE8);
      Write(TxASKReg, FORCE_100_ASK);
      Write(ModeReg, (0x3F & !0x03) | 0x01);
      r := Rmw(TxControlReg, Pcd.AntennaOn);
      if r.Ok? {
        initialized := true;
      }
    }

    // ------------------------------------------------------------ card commands

    method Reqa() returns (r: Result<AtqA>)
      requires initialized
      modifies this
      ensures Step(r, State()) == Picc.Reqa(old(State()))
      ensures initialized
    {
      var f := Transceive([PICC_REQA], 7, 0, 2);
      if f.Err? {
        return Err(f.error);
      }
      if f.value.validBytes != 2 || f.value.validBits != 0 {
        return Err(IncompleteFrame);
      }
      return Ok(AtqA(f.value.buffer));
    }

    method Wupa() returns (r: Result<AtqA>)
      requires initialized
      modifies this
      ensures Step(r, State()) == Picc.Wupa(old(State()))
      ensures initialized
    {
      var f := Transceive([PICC_WUPA], 7, 0, 2);
      if f.Err? {
        return Err(f.error);
      }
      if f.value.validBytes != 2 || f.value.validBits != 0 {
        return Err(IncompleteFrame);
      }
      return Ok(AtqA(f.value.buffer));
    }

    method Hlta() returns (r: Result<()>)
      requires initialized
      modifies this
      ensures Step(r, State()) == Picc.Hlta(old(State()))
      ensures initialized
    {
      var crc := CalculateCrc([PICC_HLTA, 0x00]);
      if crc.Err? {
        return Err(crc.error);
      }
      var t := Transceive([PICC_HLTA, 0x00] + crc.value, 0, 0, 0);
      match t
      case Err(Timeout) => return Ok(());
      case Ok(_) => return Err(Nak);
      case Err(e) => return Err(e);
    }

    /** One pass of the `'anticollision` loop with `knownBits` UID bits known in `tx`. */
    method AnticollisionRound(tx: array<byte>, knownBits: nat) returns (e: RoundEnd)
      requires tx.Length == 9 && knownBits <= 32
      modifies this, tx
      ensures Embed(e, State(), tx[..]) == Anticollision.AnticollisionRound(old(State()), old(tx[..]), knownBits)
      ensures e.Done? && e.outcome.Returned? && e.outcome.result.Ok? ==> tx[..] == e.outcome.result.value
      ensures initialized == old(initialized)
    {
      ghost var d0, tx0 := State(), tx[..];
      var txLastBits := knownBits % 8;
      var txBytes := 2 + knownBits / 8;
      var end := txBytes + if txLastBits > 0 then 1 else 0;
      tx[1] := Anticollision.Nvb(knownBits);
      ghost var frame := tx[..];
      assert frame == tx0[1 := Anticollision.Nvb(knownBits)];
      assert tx[..end] == frame[..Anticollision.FrameEnd(knownBits)];
      var last := Anticollision.TxLastBits(knownBits);
      var t := Transceive(tx[..end], last, last, 5);
      ghost var round := Anticollision.AnticollisionRound(d0, tx0, knownBits);
      assert Step(t, State()) == Pcd.Transceive(d0, frame[..Anticollision.FrameEnd(knownBits)], last, last, 5);
      if t.Ok? {
        if !CopyFits(t.value, 5, knownBits) {
          e := Done(Panicked(SliceOutOfRange));
          assert round == Embed(e, State(), tx[..]);
        } else {
          CopyUidBits(t.value, tx, knownBits);
          e := Done(Returned(Ok(tx[..])));
          assert round == Embed(e, State(), tx[..]);
        }
      } else if t.error != Collision {
        e := Done(Returned(Err(t.error)));
        assert round == Embed(e, State(), tx[..]);
      } else {
        assert round == Anticollision.FollowCollision(State(), frame, knownBits);
        e := FollowCollision(tx, knownBits);
      }
    }

    /** The collision arm of the `'anticollision` loop: read CollReg and give up unless the
        collision position is valid and not behind the known bits. */
    method FollowCollision(tx: array<byte>, knownBits: nat) returns (e: RoundEnd)
      requires tx.Length == 9 && knownBits <= 32
      modifies this, tx
      ensures Embed(e, State(), tx[..]) == Anticollision.FollowCollision(old(State()), old(tx[..]), knownBits)
      ensures e.Done? ==> e.outcome.Panicked? || e.outcome.result.Err?
      ensures initialized == old(initialized)
    {
      var collReg := Read(CollReg);
      if collReg.Err? {
        return Done(Returned(Err(collReg.error)));
      }
      if collReg.value & 0x20 != 0 {
        return Done(Returned(Err(Collision)));
      }
      var collPos := (collReg.value & 0x1F) as nat;
      if collPos == 0 {
        collPos := 32;
      }
      if collPos < knownBits {
        return Done(Returned(Err(Collision)));
      }
      assert Anticollision.CollisionDecision(collReg.value, knownBits) == Anticollision.Advance(collPos);
      e := TakePartial(tx, knownBits, collPos);
    }

    /** Take the bits received before the collision and set the bit at the collision
        position: the driver follows the 1 branch. */
    method TakePartial(tx: array<byte>, knownBits: nat, collPos: nat) returns (e: RoundEnd)
      requires tx.Length == 9 && knownBits <= 32 && 1 <= collPos <= 32
      modifies this, tx
      ensures Embed(e, State(), tx[..]) == Anticollision.TakePartial(old(State()), old(tx[..]), knownBits, collPos)
      ensures e.Done? ==> e.outcome.Panicked? || e.outcome.result.Err?
      ensures initialized == old(initialized)
    {
      var fifo := ReadFifoData(5);
      if fifo.Err? {
        return Done(Returned(Err(fifo.error)));
      }
      if !CopyFits(fifo.value, 5, knownBits) {
        return Done(Panicked(SliceOutOfRange));
      }
      CopyUidBits(fifo.value, tx, knownBits);
      SetCollisionBit(tx, collPos);
      return Again(collPos);
    }

    /** The `'anticollision` loop of `select`, filling in the UID bits of the frame buffer `tx`
        of the current cascade level. */
    method AnticollisionLoop(tx: array<byte>) returns (o: Outcome<seq<byte>>)
      requires tx.Length == 9
      modifies this, tx
      ensures Run(o, State()) == Anticollision.AnticollisionLoop(old(State()), old(tx[..]), 0)
      ensures o.Returned? && o.result.Ok? ==> tx[..] == o.result.value
      ensures initialized == old(initialized)
    {
      var knownBits: nat := 0;
      while true
        invariant knownBits <= 32
        invariant Anticollision.AnticollisionLoop(old(State()), old(tx[..]), 0)
          == Anticollision.AnticollisionLoop(State(), tx[..], knownBits)
        invariant initialized == old(initialized)
        decreases |Replies(State(), ComIrqReg)|
      {
        var e := AnticollisionRound(tx, knownBits);
        if e.Done? {
          return e.outcome;
        }
        knownBits := e.knownBits;
      }
    }

    /** The SELECT part of a `'cascade` pass, on the anticollision result in `tx`. */
    method SendSelect(tx: array<byte>) returns (o: Outcome<Anticollision.Level>)
      requires tx.Length == 9
      modifies this, tx
      ensures Run(o, State()) == Anticollision.SendSelect(old(State()), old(tx[..]))
      ensures initialized == old(initialized)
    {
      tx[1] := 0x70;
      tx[6] := Anticollision.Bcc(tx[2..6]);
      var head := tx[..7];
      assert head == Anticollision.SelectHead(old(tx[..]));
      var crc := CalculateCrc(head);
      if crc.Err? {
        return Returned(Err(crc.error));
      }
      CopyFromSlice(tx, 7, crc.value);
      assert tx[..] == head + crc.value;
      var rx := Transceive(tx[..9], 0, 0, 3);
      if rx.Err? {
        return Returned(Err(rx.error));
      }
      if rx.value.validBytes != 3 || rx.value.validBits != 0 {
        return Returned(Err(IncompleteFrame));
      }
      var sak := Sak(rx.value.buffer[0]);
      var crcA := rx.value.buffer[1..];
      var crcVerify := CalculateCrc(rx.value.buffer[..1]);
      if crcVerify.Err? {
        return Returned(Err(crcVerify.error));
      }
      if crcA != crcVerify.value {
        return Returned(Err(Crc));
      }
      return Returned(Ok(Anticollision.Level(tx[..], sak)));
    }

    /** One pass of `select`'s `'cascade` loop. */
    method SelectLevel(level: nat) returns (o: Outcome<Anticollision.Level>)
      requires level < 3
      modifies this
      ensures Run(o, State()) == Anticollision.SelectLevel(old(State()), level)
      ensures initialized == old(initialized)
    {
      var tx := new byte[9](_ => 0);
      tx[0] := Anticollision.SelectCommand(level);
      assert tx[..] == [Anticollision.SelectCommand(level)] + Zeros(8);
      var a := AnticollisionLoop(tx);
      if a.Panicked? {
        return Panicked(a.site);
      }
      if a.result.Err? {
        return Returned(Err(a.result.error));
      }
      o := SendSelect(tx);
    }

    /** One pass of `select`'s `'cascade` loop: select at `level`, then store the UID bytes
        the level contributes in `uidBytes` after the `3 * level` bytes already there. */
    method CascadeLevel(uidBytes: array<byte>, level: nat) returns (e: LevelEnd)
      requires level < 3 && uidBytes.Length == 10
      modifies this, uidBytes
      ensures e.Next? ==>
        Anticollision.Cascade(old(State()), level, old(uidBytes[..3 * level]))
          == Anticollision.Cascade(State(), level + 1, uidBytes[..3 * level + 3])
      ensures e.Finish? ==>
        Anticollision.Cascade(old(State()), level, old(uidBytes[..3 * level])) == Run(e.outcome, State())
      ensures initialized == old(initialized)
    {
      ghost var before := State();
      ghost var known := uidBytes[..3 * level];
      var e1 := CascadePass(uidBytes, level);
      Anticollision.CascadeContinues(before, level, known, EmbedLevel(e1, State(), uidBytes[..3 * level + 3]));
      e := e1;
    }

    /** The pass itself, stated against `Anticollision.CascadeStep`. */
    method CascadePass(uidBytes: array<byte>, level: nat) returns (e: LevelEnd)
      requires level < 3 && uidBytes.Length == 10
      modifies this, uidBytes
      ensures Anticollision.CascadeStep(Anticollision.SelectLevel(old(State()), level), level,
          old(uidBytes[..3 * level]))
        == EmbedLevel(e, State(), uidBytes[..3 * level + 3])
      ensures initialized == old(initialized)
    {
      var s := SelectLevel(level);
      if s.Panicked? {
        return Finish(Panicked(s.site));
      }
      if s.result.Err? {
        return Finish(Returned(Err(s.result.error)));
      }
      var complete, uid := StoreLevel(uidBytes, level, s.result.value);
      if complete {
        return Finish(Returned(Ok(uid)));
      }
      return Next;
    }

    method Select(atqa: AtqA) returns (o: Outcome<Uid>)
      requires initialized && ValidAtqA(atqa)
      modifies this
      ensures Run(o, State()) == Anticollision.Select(old(State()), atqa)
      ensures initialized
    {
      if PopCount(atqa.bytes[0] & FRAME_SIZE_BITS) != 1 {
        return Returned(Err(Proprietary));
      }
      var c := Rmw(CollReg, Anticollision.ClearValuesAfterColl);
      if c.Err? {
        return Returned(Err(c.error));
      }
      o := CascadeLoop();
    }

    /** `select`'s `'cascade` loop, assembling the UID in a ten-byte buffer. */
    method CascadeLoop() returns (o: Outcome<Uid>)
      modifies this
      ensures Run(o, State()) == Anticollision.Cascade(old(State()), 0, [])
      ensures initialized == old(initialized)
    {
      var cascadeLevel: nat := 0;
      var uidBytes := new byte[10](_ => 0);
      ghost var start := State();
      ghost var known: seq<byte> := [];
      while true
        invariant cascadeLevel <= 3 && |known| == 3 * cascadeLevel
        invariant uidBytes[..3 * cascadeLevel] == known
        invariant Anticollision.Cascade(start, 0, [])
          == Anticollision.Cascade(State(), cascadeLevel, known)
        invariant initialized == old(initialized)
        decreases 3 - cascadeLevel
      {
        if cascadeLevel == 3 {
          return Panicked(UnreachableCascadeLevel);
        }
        var e := CascadeLevel(uidBytes, cascadeLevel);
        if e.Finish? {
          return e.outcome;
        }
        known := uidBytes[..3 * cascadeLevel + 3];
        cascadeLevel := cascadeLevel + 1;
      }
    }

    method StopCrypto1() returns (r: Result<()>)
      requires initialized
      modifies this
      ensures Step(r, State()) == Picc.StopCrypto1(old(State()))
      ensures initialized
    {
      r := Rmw(Status2Reg, Picc.ClearCrypto1);
    }

    /** The wait inside `mf_authenticate`: poll ComIrqReg until MFAuthent ends. */
    method AwaitAuthentication() returns (r: Result<()>)
      modifies this
      ensures Step(r, State()) == Pcd.AuthPoll(old(State()), 0)
      ensures initialized == old(initialized)
    {
      var timeout: nat := 0;
      while true
        invariant Pcd.AuthPoll(old(State()), 0) == Pcd.AuthPoll(State(), timeout)
        invariant initialized == old(initialized)
        decreases |Replies(State(), ComIrqReg)|
      {
        var irq := Read(ComIrqReg);
        if irq.Err? {
          return Err(irq.error);
        }
        if irq.value & Pcd.AUTH_DONE != 0 {
          return Ok(());
        } else if irq.value & TIMER_IRQ != 0 || timeout > Pcd.MAX_AUTH_POLLS {
          return Err(Timeout);
        }
        timeout := timeout + 1;
      }
    }

    method MfAuthenticate(uid: Uid, block: byte, key: MifareKey) returns (r: Result<()>)
      requires initialized
      modifies this
      ensures Step(r, State()) == Picc.MfAuthenticate(old(State()), uid, block, key)
      ensures initialized
    {
      Command(Idle);
      Write(ComIrqReg, 0x7F);
      FifoFlush();
      Write(BitFramingReg, 0x00);
      var frame := [PICC_MF_AUTH_KEY_A, block] + key + AsBytes(uid)[..4];
      var w := WriteMany(FIFODataReg, frame);
      if w.Err? {
        return Err(w.error);
      }
      Command(MFAuthent);
      var p := AwaitAuthentication();
      if p.Err? {
        return Err(p.error);
      }
      r := CheckErrorRegister();
    }

    method MfRead(block: byte) returns (r: Result<seq<byte>>)
      requires initialized
      modifies this
      ensures Step(r, State()) == Picc.MfRead(old(State()), block)
      ensures initialized
    {
      var crc := CalculateCrc([PICC_MF_READ, block]);
      if crc.Err? {
        return Err(crc.error);
      }
      var t := Transceive([PICC_MF_READ, block] + crc.value, 0, 0, 18);
      if t.Err? {
        return Err(t.error);
      }
      var rx := t.value.buffer;
      var check := CalculateCrc(rx[..16]);
      if check.Err? {
        return Err(check.error);
      }
      if check.value != rx[16..] {
        return Err(Crc);
      }
      return Ok(rx[..16]);
    }

    /** One half of `mf_write`: send `frame` with its CRC and expect a 4-bit acknowledgement. */
    method AckedExchange(frame: seq<byte>) returns (r: Result<()>)
      modifies this
      ensures Step(r, State()) == Picc.AckedExchange(old(State()), frame)
      ensures initialized == old(initialized)
    {
      var crc := CalculateCrc(frame);
      if crc.Err? {
        return Err(crc.error);
      }
      var ack := Transceive(frame + crc.value, 0, 0, 1);
      if ack.Err? {
        return Err(ack.error);
      }
      if ack.value.validBytes != 1 || ack.value.validBits != 4 {
        return Err(Nak);
      }
      return Ok(());
    }

    method MfWrite(block: byte, data: seq<byte>) returns (r: Result<()>)
      requires initialized && |data| == 16
      modifies this
      ensures Step(r, State()) == Picc.MfWrite(old(State()), block, data)
      ensures initialized
    {
      r := AckedExchange([PICC_MF_WRITE, block]);
      if r.Err? {
        return;
      }
      r := AckedExchange(data);
    }

    method Version() returns (r: Result<byte>)
      requires initialized
      modifies this
      ensures Step(r, State()) == Picc.Version(old(State()))
      ensures initialized
    {
      r := Read(VersionReg);
    }

    method NewCardPresent() returns (r: Result<AtqA>)
      requires initialized
      modifies this
      ensures Step(r, State()) == Picc.NewCardPresent(old(State()))
      ensures initialized
    {
      Write(TxModeReg, 0x00);
      Write(RxModeReg, 0x00);
      Write(ModWidthReg, 0x26);
      r := Reqa();
    }
  }
}
