/**
 * The card (PICC) side: the answers a card gives, the UID the driver assembles, and the
 * public card commands other than anticollision/select, as functions of the device state.
 */
module Picc {
  import opened Bits
  import opened Registers
  import opened Errors
  import opened Device
  import opened Fifo
  import opened Pcd
  import opened PcdProperties

  /** Select AcKnowledge: the byte a card answers a complete SELECT with. */
  datatype Sak = Sak(value: byte)

  /** The cascade bit is clear: the UID is complete (ISO/IEC 14443-3). */
  predicate IsComplete(sak: Sak)
  {
    sak.value & 0x04 == 0
  }

  /** The card declares ISO/IEC 14443-4 compliance. */
  predicate IsCompliant(sak: Sak)
  {
    sak.value & 0x20 != 0
  }

  /** Answer To reQuest type A: two bytes. */
  datatype AtqA = AtqA(bytes: seq<byte>)

  predicate ValidAtqA(a: AtqA)
  {
    |a.bytes| == 2
  }

  type Uid4 = s: seq<byte> | |s| == 4 witness [0, 0, 0, 0]
  type Uid7 = s: seq<byte> | |s| == 7 witness [0, 0, 0, 0, 0, 0, 0]
  type Uid10 = s: seq<byte> | |s| == 10 witness [0, 0, 0, 0, 0, 0, 0, 0, 0, 0]

  /** A UID of one, two or three cascade levels, with the SAK of the last level. */
  datatype Uid =
    | Single(single: Uid4, sak: Sak)
    | Double(double: Uid7, sak: Sak)
    | Triple(triple: Uid10, sak: Sak)

  /** `Uid::as_bytes`. */
  function AsBytes(uid: Uid): (b: seq<byte>)
    ensures uid.Single? <==> |b| == 4
    ensures uid.Double? <==> |b| == 7
    ensures uid.Triple? <==> |b| == 10
  {
    match uid
    case Single(u, _) => u
    case Double(u, _) => u
    case Triple(u, _) => u
  }

  /** `GenericUid::new`, choosing the variant by the number of bytes. */
  function UidOf(bytes: seq<byte>, sakByte: byte): (u: Uid)
    requires |bytes| == 4 || |bytes| == 7 || |bytes| == 10
    ensures AsBytes(u) == bytes && u.sak == Sak(sakByte)
  {
    if |bytes| == 4 then Single(bytes, Sak(sakByte))
    else if |bytes| == 7 then Double(bytes, Sak(sakByte))
    else Triple(bytes, Sak(sakByte))
  }

  /** A UID is determined by its bytes and its SAK. */
  lemma UidOfAsBytes(u: Uid)
    ensures UidOf(AsBytes(u), u.sak.value) == u
  {
  }

  /** `GenericUid::is_compliant`. */
  predicate UidIsCompliant(u: Uid)
  {
    IsCompliant(u.sak)
  }

  // ---------------------------------------------------------------- REQA / WUPA

  /** `reqa` and `wupa`: a 7-bit short frame carrying `command`, answered by an ATQA. */
  function Request(d: DeviceState, command: byte): (s: Step<AtqA>)
    ensures var t := Pcd.Transceive(d, [command], 7, 0, 2);
      && s.state == t.state
      && (s.result.Ok? <==> t.result.Ok? && t.result.value.validBytes == 2 && t.result.value.validBits == 0)
      && (s.result.Ok? ==> s.result.value.bytes == t.result.value.buffer && ValidAtqA(s.result.value))
      && (t.result.Err? ==> s.result == Err(t.result.error))
      && (t.result.Ok? && s.result.Err? ==> s.result.error == IncompleteFrame)
  {
    var t := Pcd.Transceive(d, [command], 7, 0, 2);
    if t.result.Err? then Step(Err(t.result.error), t.state)
    else if t.result.value.validBytes != 2 || t.result.value.validBits != 0 then Step(Err(IncompleteFrame), t.state)
    else Step(Ok(AtqA(t.result.value.buffer)), t.state)
  }

  /** `reqa`: REQA goes out first as a 7-bit short frame; an answer is a two-byte ATQA. */
  function Reqa(d: DeviceState): (s: Step<AtqA>)
    ensures d.log + TransceiveSetup([PICC_REQA], 7, 0) <= s.state.log
    ensures s.result.Ok? ==> ValidAtqA(s.result.value)
    ensures s.result.Err? ==> s.result.error != Proprietary
  {
    TransceiveWritesSetupFirst(d, [PICC_REQA], 7, 0, 2);
    Request(d, PICC_REQA)
  }

  /** `wupa`: WUPA goes out first as a 7-bit short frame; an answer is a two-byte ATQA. */
  function Wupa(d: DeviceState): (s: Step<AtqA>)
    ensures d.log + TransceiveSetup([PICC_WUPA], 7, 0) <= s.state.log
    ensures s.result.Ok? ==> ValidAtqA(s.result.value)
    ensures s.result.Err? ==> s.result.error != Proprietary
  {
    TransceiveWritesSetupFirst(d, [PICC_WUPA], 7, 0, 2);
    Request(d, PICC_WUPA)
  }

  /** `new_card_present`: restore the default modes, then REQA. */
  function NewCardPresent(d: DeviceState): (s: Step<AtqA>)
    ensures s.result.Ok? ==> ValidAtqA(s.result.value)
    ensures s.result.Err? ==> s.result.error != Proprietary
  {
    Reqa(Write(Write(Write(d, TxModeReg, 0x00), RxModeReg, 0x00), ModWidthReg, 0x26))
  }

  /** `version`. */
  function Version(d: DeviceState): (s: Step<byte>)
    ensures s.result.Ok? <==> |Replies(d, VersionReg)| > 0
    ensures s.result.Ok? ==> s.result.value == Replies(d, VersionReg)[0]
  {
    Read(d, VersionReg)
  }

  // ---------------------------------------------------------------- HLTA

  /** The verdict of `hlta`: any answer within the timeout is a refusal, silence is success. */
  function HaltVerdict(t: Result<FifoData>): (r: Result<()>)
    ensures r.Ok? <==> t == Err(Timeout)
    ensures t.Ok? ==> r == Err(Nak)
    ensures t.Err? && t.error != Timeout ==> r == Err(t.error)
  {
    match t
    case Err(Timeout) => Ok(())
    case Ok(_) => Err(Nak)
    case Err(e) => Err(e)
  }

  /** `hlta`: send HLTA with its CRC and expect no answer. */
  function Hlta(d: DeviceState): (s: Step<()>)
    ensures s.result.Err? ==> s.result.error != Proprietary
  {
    var c := CalculateCrc(d, [PICC_HLTA, 0x00]);
    if c.result.Err? then Step(Err(c.result.error), c.state)
    else
      var t := Pcd.Transceive(c.state, [PICC_HLTA, 0x00] + c.result.value, 0, 0, 0);
      Step(HaltVerdict(t.result), t.state)
  }

  // ---------------------------------------------------------------- MIFARE Classic

  /** `stop_crypto1`'s read-modify-write of Status2Reg: clear MFCrypto1On. */
  function ClearCrypto1(b: byte): (r: byte)
    ensures r & 0x08 == 0
    ensures r & !0x08 == b & !0x08
  {
    b & !0x08
  }

  /** `stop_crypto1`. */
  function StopCrypto1(d: DeviceState): (s: Step<()>)
    ensures s.result.Ok? <==> |Replies(d, Status2Reg)| > 0
    ensures s.result.Ok? ==> var v := Replies(d, Status2Reg)[0];
      s.state.log == d.log + [RegRead(Status2Reg, v), RegWrite(Status2Reg, ClearCrypto1(v))]
  {
    ReadModifyWrite(d, Status2Reg, ClearCrypto1)
  }

  /** A MIFARE key (6 bytes). */
  type MifareKey = s: seq<byte> | |s| == 6 witness [0, 0, 0, 0, 0, 0]

  /** The 12 bytes `mf_authenticate` hands to MFAuthent: command, block, key, and the first
      four bytes of the UID, whatever its size. */
  function AuthFrame(uid: Uid, block: byte, key: MifareKey): (f: seq<byte>)
    ensures |f| == 12
    ensures f[0] == PICC_MF_AUTH_KEY_A && f[1] == block
    ensures f[2..8] == key
    ensures f[8..] == AsBytes(uid)[..4]
  {
    [PICC_MF_AUTH_KEY_A, block] + key + AsBytes(uid)[..4]
  }

  /** `mf_authenticate` with key A. */
  function MfAuthenticate(d: DeviceState, uid: Uid, block: byte, key: MifareKey): (s: Step<()>)
    ensures s.result.Err? ==> s.result.error != Proprietary
  {
    Authenticate(d, AuthFrame(uid, block, key))
  }

  /** What `mf_read` makes of the 18 received bytes and the CRC it computed over the first 16. */
  function BlockVerdict(rx: seq<byte>, crc: seq<byte>): (r: Result<seq<byte>>)
    requires |rx| == 18
    ensures r.Ok? <==> crc == rx[16..]
    ensures r.Ok? ==> r.value == rx[..16]
    ensures r.Err? ==> r.error == Crc
  {
    if crc != rx[16..] then Err(Crc) else Ok(rx[..16])
  }

  /** `mf_read`: READ with its CRC, answered by 16 data bytes and their CRC. */
  function MfRead(d: DeviceState, block: byte): (s: Step<seq<byte>>)
    ensures s.result.Ok? ==> |s.result.value| == 16
  {
    var c := CalculateCrc(d, [PICC_MF_READ, block]);
    if c.result.Err? then Step(Err(c.result.error), c.state)
    else
      var t := Pcd.Transceive(c.state, [PICC_MF_READ, block] + c.result.value, 0, 0, 18);
      if t.result.Err? then Step(Err(t.result.error), t.state)
      else
        var rx := t.result.value.buffer;
        var check := CalculateCrc(t.state, rx[..16]);
        if check.result.Err? then Step(Err(check.result.error), check.state)
        else Step(BlockVerdict(rx, check.result.value), check.state)
  }

  /** The shape of a MIFARE acknowledge: a single 4-bit answer (its value is not compared). */
  predicate IsAckShape(f: FifoData)
  {
    f.validBytes == 1 && f.validBits == 4
  }

  /** One half of `mf_write`: send `frame` with its CRC and expect an acknowledge. */
  function AckedExchange(d: DeviceState, frame: seq<byte>): (s: Step<()>)
    ensures s.result.Err? ==> s.result.error != Proprietary
  {
    var c := CalculateCrc(d, frame);
    if c.result.Err? then Step(Err(c.result.error), c.state)
    else
      var t := Pcd.Transceive(c.state, frame + c.result.value, 0, 0, 1);
      if t.result.Err? then Step(Err(t.result.error), t.state)
      else if !IsAckShape(t.result.value) then Step(Err(Nak), t.state)
      else Step(Ok(()), t.state)
  }

  /** `mf_write`: WRITE with its CRC; only once that is acknowledged, the 16 data bytes
      with theirs, which must be acknowledged too. */
  function MfWrite(d: DeviceState, block: byte, data: seq<byte>): (s: Step<()>)
    requires |data| == 16
    ensures s.result.Err? ==> s.result.error != Proprietary
  {
    var cmd := AckedExchange(d, [PICC_MF_WRITE, block]);
    if cmd.result.Err? then cmd
    else AckedExchange(cmd.state, data)
  }
}
