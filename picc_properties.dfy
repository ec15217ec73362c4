/**
 * What the public card commands promise about the frames they send and the answers they
 * accept: REQA/WUPA as short frames, HLTA's silence rule, the CRC check of a MIFARE read
 * and the two acknowledges of a MIFARE write.
 */
module PiccProperties {
  import opened Bits
  import opened Registers
  import opened Errors
  import opened Device
  import opened Fifo
  import opened Pcd
  import opened PcdProperties
  import opened Picc

  /** REQA and WUPA are short frames: the command byte alone, of which seven bits are sent,
      with the answer received unaligned. */
  lemma RequestIsShortFrame(d: DeviceState, command: byte)
    ensures d.log + TransceiveSetup([command], 7, 0) <= Request(d, command).state.log
    ensures BitFraming(7, 0) == 0x87
  {
    TransceiveWritesSetupFirst(d, [command], 7, 0, 2);
  }

  /** `new_card_present` first restores the default transmit and receive modes and the
      modulation width, then sends REQA. */
  lemma NewCardPresentRestoresModes(d: DeviceState)
    ensures d.log + [RegWrite(TxModeReg, 0x00), RegWrite(RxModeReg, 0x00), RegWrite(ModWidthReg, 0x26)]
         <= NewCardPresent(d).state.log
    ensures NewCardPresent(d).result.Ok? ==> ValidAtqA(NewCardPresent(d).result.value)
  {
    var e := Write(Write(Write(d, TxModeReg, 0x00), RxModeReg, 0x00), ModWidthReg, 0x26);
    assert e.log == d.log + [RegWrite(TxModeReg, 0x00), RegWrite(RxModeReg, 0x00), RegWrite(ModWidthReg, 0x26)];
    RequestIsShortFrame(e, PICC_REQA);
  }

  /** `hlta` sends HLTA and its CRC_A, and succeeds exactly when the card then stays silent
      until the timer expires; an answer of any shape is Nak, and every other failure is
      passed on unchanged. */
  lemma HltaSucceedsOnSilence(d: DeviceState)
    ensures var c := CalculateCrc(d, [PICC_HLTA, 0x00]);
      c.result.Err? ==> Hlta(d) == Step(Err(c.result.error), c.state)
    ensures var c := CalculateCrc(d, [PICC_HLTA, 0x00]);
      c.result.Ok? ==>
        var frame := [PICC_HLTA, 0x00] + c.result.value;
        var t := Pcd.Transceive(c.state, frame, 0, 0, 0);
        var h := Hlta(d);
        && c.state.log + TransceiveSetup(frame, 0, 0) <= h.state.log
        && (h.result.Ok? <==> t.result == Err(Timeout))
        && (t.result.Ok? ==> h.result == Err(Nak))
        && (t.result.Err? && t.result.error != Timeout ==> h.result == Err(t.result.error))
  {
    var c := CalculateCrc(d, [PICC_HLTA, 0x00]);
    if c.result.Ok? {
      TransceiveWritesSetupFirst(c.state, [PICC_HLTA, 0x00] + c.result.value, 0, 0, 0);
    }
  }

  /** `mf_authenticate` hands MFAuthent the key-A command, the block, the key and the first
      four bytes of the UID, whatever the UID's size, then waits for the IC and checks the
      error register. */
  lemma MfAuthenticateSendsFrame(d: DeviceState, uid: Uid, block: byte, key: MifareKey)
    ensures var frame := AuthFrame(uid, block, key);
      var e := DeviceState(d.replies, d.log + AuthSetup(frame));
      var p := AuthPoll(e, 0);
      && e.log[|d.log| + 4] == BurstWrite(FIFODataReg, [PICC_MF_AUTH_KEY_A, block] + key + AsBytes(uid)[..4])
      && MfAuthenticate(d, uid, block, key) == if p.result.Err? then p else CheckErrorRegister(p.state)
  {
    var frame := AuthFrame(uid, block, key);
    AuthenticateStarts(d, frame);
    assert frame == [PICC_MF_AUTH_KEY_A, block] + key + AsBytes(uid)[..4];
  }

  /** `mf_read` returns a block only after it recomputed the CRC_A of the 16 data bytes it
      received and found it equal to the two bytes that followed them. */
  lemma MfReadChecksCrc(d: DeviceState, block: byte)
    requires MfRead(d, block).result.Ok?
    ensures var c := CalculateCrc(d, [PICC_MF_READ, block]);
      c.result.Ok? &&
      var t := Pcd.Transceive(c.state, [PICC_MF_READ, block] + c.result.value, 0, 0, 18);
      t.result.Ok? &&
      var rx := t.result.value.buffer;
      var check := CalculateCrc(t.state, rx[..16]);
      && check.result.Ok?
      && check.result.value == rx[16..]
      && MfRead(d, block).result.value == rx[..16]
  {
  }

  /** A received block whose CRC_A does not match is refused with Crc. */
  lemma MfReadRejectsBadCrc(d: DeviceState, block: byte)
    ensures var c := CalculateCrc(d, [PICC_MF_READ, block]);
      c.result.Ok? ==>
      var t := Pcd.Transceive(c.state, [PICC_MF_READ, block] + c.result.value, 0, 0, 18);
      t.result.Ok? ==>
      var rx := t.result.value.buffer;
      var check := CalculateCrc(t.state, rx[..16]);
      check.result.Ok? && check.result.value != rx[16..] ==> MfRead(d, block).result == Err(Crc)
  {
  }

  /** One half of `mf_write` is acknowledged exactly when the CRC and the exchange succeeded
      and the answer was a single frame of four bits; any other answer is Nak. */
  lemma AckedExchangeAcknowledged(d: DeviceState, frame: seq<byte>)
    ensures var c := CalculateCrc(d, frame);
      AckedExchange(d, frame).result.Ok? <==>
        c.result.Ok? &&
        var t := Pcd.Transceive(c.state, frame + c.result.value, 0, 0, 1);
        t.result.Ok? && IsAckShape(t.result.value)
    ensures var c := CalculateCrc(d, frame);
      c.result.Ok? ==>
        var t := Pcd.Transceive(c.state, frame + c.result.value, 0, 0, 1);
        t.result.Ok? && !IsAckShape(t.result.value) ==> AckedExchange(d, frame).result == Err(Nak)
    ensures AckedExchange(d, frame).result.Err? ==> AckedExchange(d, frame).result.error != Proprietary
  {
  }

  /** `mf_write` succeeds exactly when the WRITE command and then the data were both
      acknowledged; when the command is refused, the data is never sent. */
  lemma MfWriteNeedsTwoAcks(d: DeviceState, block: byte, data: seq<byte>)
    requires |data| == 16
    ensures var cmd := AckedExchange(d, [PICC_MF_WRITE, block]);
      MfWrite(d, block, data).result.Ok? <==> cmd.result.Ok? && AckedExchange(cmd.state, data).result.Ok?
    ensures var cmd := AckedExchange(d, [PICC_MF_WRITE, block]);
      cmd.result.Err? ==> MfWrite(d, block, data) == cmd
  {
  }
}
