/**
 * Anticollision and selection of one card (ISO/IEC 14443-3 section 6.5.3), cascade level by
 * cascade level, as the driver's `select` performs it.
 */
module Anticollision {
  import opened Bits
  import opened Registers
  import opened Errors
  import opened Device
  import opened Fifo
  import opened Pcd
  import opened Picc

  /** The SEL code of cascade level `level` (0-based). */
  function SelectCommand(level: nat): (cmd: byte)
    requires level < 3
    ensures cmd as nat == 0x93 + 2 * level
  {
    if level == 0 then PICC_SEL_CL1 else if level == 1 then PICC_SEL_CL2 else PICC_SEL_CL3
  }

  /** The number of bytes of an ANTICOLLISION frame that hold `knownBits` UID bits, after
      the SEL and NVB bytes; a byte of which only some bits are known counts. */
  function FrameEnd(knownBits: nat): (n: nat)
    requires knownBits <= 32
    ensures 2 <= n <= 6
    ensures (n - 2) * 8 >= knownBits > (n - 3) * 8
  {
    2 + knownBits / 8 + (if knownBits % 8 > 0 then 1 else 0)
  }

  /** NVB, "number of valid bits": the whole bytes sent in the high nibble, the extra bits
      in the low nibble. */
  function Nvb(knownBits: nat): (nvb: byte)
    requires knownBits <= 32
  {
    ((2 + knownBits / 8) as byte << 4) + (knownBits % 8) as byte
  }

  /** `known_bits % 8`: the valid bits of the last byte sent, which are also where the first
      received bit goes. */
  function TxLastBits(knownBits: nat): (b: byte)
    requires knownBits <= 32
    ensures b as nat == knownBits % 8
  {
    (knownBits % 8) as byte
  }

  lemma NibblePack(q: byte, r: byte)
    requires q < 16 && r < 16
    ensures ((q << 4) + r) >> 4 == q && ((q << 4) + r) & 0x0F == r
  {
  }

  /** The NVB of an ANTICOLLISION frame codes exactly the 16 bits of SEL and NVB plus the
      known UID bits. */
  lemma NvbCountsFrameBits(knownBits: nat)
    requires knownBits <= 32
    ensures (Nvb(knownBits) >> 4) as nat == 2 + knownBits / 8
    ensures (Nvb(knownBits) & 0x0F) as nat == knownBits % 8
    ensures 8 * (Nvb(knownBits) >> 4) as nat + (Nvb(knownBits) & 0x0F) as nat == 16 + knownBits
  {
    var q, r := (2 + knownBits / 8) as byte, (knownBits % 8) as byte;
    NibblePack(q, r);
  }

  /** The verdict on the CollReg value read after a collision with `knownBits` known. */
  datatype CollisionStep = PositionNotValid | NoProgress | Advance(position: nat)

  /** CollPos, with 0 meaning bit 32. */
  function CollisionPosition(collReg: byte): (p: nat)
    ensures 1 <= p <= 32
    ensures p % 32 == (collReg & 0x1F) as nat
  {
    var p := (collReg & 0x1F) as nat;
    if p == 0 then 32 else p
  }

  function CollisionDecision(collReg: byte, knownBits: nat): (c: CollisionStep)
    ensures c == PositionNotValid <==> collReg & 0x20 != 0
    ensures c == NoProgress <==> collReg & 0x20 == 0 && CollisionPosition(collReg) < knownBits
    ensures c.Advance? ==> c.position == CollisionPosition(collReg) && knownBits <= c.position <= 32
  {
    if collReg & 0x20 != 0 then PositionNotValid
    else if CollisionPosition(collReg) < knownBits then NoProgress
    else Advance(CollisionPosition(collReg))
  }

  /** A collision reported at the position already known is not treated as lack of progress:
      the round is repeated with the same number of known bits. */
  lemma CollisionAtKnownPositionRepeats(collReg: byte, knownBits: nat)
    requires collReg & 0x20 == 0 && CollisionPosition(collReg) == knownBits
    ensures CollisionDecision(collReg, knownBits) == Advance(knownBits)
  {
  }

  /** Bit `i` of the UID bits carried in `uid`, least significant bit of each byte first. */
  function UidBit(uid: seq<byte>, i: nat): nat
    requires i < 8 * |uid|
  {
    Bit(uid[i / 8], i % 8)
  }

  /** The byte of the 9-byte frame that holds UID bit `knownBits - 1`. */
  function CollisionIndex(knownBits: nat): (idx: nat)
    requires 1 <= knownBits <= 32
    ensures idx == 2 + (knownBits - 1) / 8
  {
    1 + knownBits / 8 + (if knownBits % 8 != 0 then 1 else 0)
  }

  /** Setting the bit at the collision position: the driver follows the 1 branch. */
  function MarkCollision(tx: seq<byte>, knownBits: nat): (r: seq<byte>)
    requires |tx| == 9 && 1 <= knownBits <= 32
    ensures |r| == 9 && r[0] == tx[0]
  {
    var idx := CollisionIndex(knownBits);
    tx[idx := tx[idx] | (1 as byte << ((knownBits - 1) % 8))]
  }

  lemma SetBitSets(b: byte, j: nat)
    requires j < 8
    ensures Bit(b | (1 as byte << j), j) == 1
    ensures forall i :: 0 <= i < 8 && i != j ==> Bit(b | (1 as byte << j), i) == Bit(b, i)
  {
    assert j == 0 || j == 1 || j == 2 || j == 3 || j == 4 || j == 5 || j == 6 || j == 7;
  }

  /** Marking sets UID bit `knownBits - 1` and changes no other byte or bit of the frame. */
  lemma MarkCollisionSetsBit(tx: seq<byte>, knownBits: nat)
    requires |tx| == 9 && 1 <= knownBits <= 32
    ensures var r := MarkCollision(tx, knownBits);
      && UidBit(r[2..7], knownBits - 1) == 1
      && (forall i :: 0 <= i < 40 && i != knownBits - 1 ==> UidBit(r[2..7], i) == UidBit(tx[2..7], i))
      && r[..2] == tx[..2] && r[7..] == tx[7..]
  {
    var k := knownBits - 1;
    var r := MarkCollision(tx, knownBits);
    SetBitSets(tx[2 + k / 8], k % 8);
    forall i | 0 <= i < 40 && i != k ensures UidBit(r[2..7], i) == UidBit(tx[2..7], i) {
      if i / 8 != k / 8 {
        assert r[2 + i / 8] == tx[2 + i / 8];
      }
    }
  }

  /** `copy_bits_to(&mut tx[2..=6], knownBits)` on the whole frame. */
  function Spliced(tx: seq<byte>, f: FifoData, knownBits: nat): (r: seq<byte>)
    requires |tx| == 9 && CopyFits(f, 5, knownBits)
    ensures |r| == 9 && r[0] == tx[0]
  {
    tx[..2] + SpliceBits(tx[2..7], f, knownBits) + tx[7..]
  }

  /** A frame changed only inside bytes 2..7, there exactly as `copy_bits_to` writes them, is
      the spliced frame. */
  lemma SplicedFromWindow(before: seq<byte>, after: seq<byte>, f: FifoData, knownBits: nat)
    requires |before| == 9 && |after| == 9 && CopyFits(f, 5, knownBits)
    requires after[2..7] == SpliceBits(before[2..7], f, knownBits)
    requires after[..2] == before[..2] && after[7..] == before[7..]
    ensures after == Spliced(before, f, knownBits)
  {
    assert after == after[..2] + after[2..7] + after[7..];
  }

  /** BCC: the exclusive or of the four UID bytes of a cascade level. */
  function Bcc(uid: seq<byte>): (bcc: byte)
    requires |uid| == 4
    ensures uid[0] ^ uid[1] ^ uid[2] ^ uid[3] ^ bcc == 0
  {
    uid[0] ^ uid[1] ^ uid[2] ^ uid[3]
  }

  /** The first seven bytes of the SELECT frame: SEL, NVB 0x70 (seven whole bytes), the four
      UID bytes found and their BCC. */
  function SelectHead(tx: seq<byte>): (h: seq<byte>)
    requires |tx| == 9
    ensures |h| == 7 && h[0] == tx[0] && h[1] == 0x70 && h[2..6] == tx[2..6] && h[6] == Bcc(tx[2..6])
  {
    tx[1 := 0x70][6 := Bcc(tx[2..6])][..7]
  }

  /** How one round of the anticollision loop ends: the loop is left with a result, or
      repeated from `state` with the frame `tx` and `knownBits` known bits. */
  datatype Round =
    | Finished(run: Run<seq<byte>>)
    | Retry(state: DeviceState, tx: seq<byte>, knownBits: nat)

  /** A usable collision at `position`: take the bits received before it, set the bit at
      the collision position and go round again with `position` bits known. */
  function TakePartial(d: DeviceState, frame: seq<byte>, knownBits: nat, position: nat): (r: Round)
    requires |frame| == 9 && knownBits <= 32 && 1 <= position <= 32
    ensures r.Retry? ==>
      && |r.tx| == 9 && r.tx[0] == frame[0] && r.knownBits == position
      && Replies(r.state, ComIrqReg) == Replies(d, ComIrqReg)
    ensures r.Finished? && r.run.outcome.Returned? ==>
      r.run.outcome.result.Err? && r.run.outcome.result.error != Proprietary
    ensures r.Finished? && r.run.outcome.Panicked? ==> r.run.outcome.site == SliceOutOfRange
  {
    var f := ReadFifoData(d, 5);
    assert ComIrqReg !in {FIFOLevelReg, FIFODataReg, ControlReg};
    Received(f, frame, knownBits, position)
  }

  /** What `TakePartial` makes of the `fifo_data` step `f`. */
  function Received(f: Step<FifoData>, frame: seq<byte>, knownBits: nat, position: nat): (r: Round)
    requires |frame| == 9 && knownBits <= 32 && 1 <= position <= 32
    requires f.result.Err? ==> f.result.error != Proprietary
    ensures r.Retry? ==> |r.tx| == 9 && r.tx[0] == frame[0] && r.knownBits == position && r.state == f.state
    ensures r.Finished? ==> r.run.state == f.state
    ensures r.Finished? && r.run.outcome.Returned? ==>
      r.run.outcome.result.Err? && r.run.outcome.result.error != Proprietary
    ensures r.Finished? && r.run.outcome.Panicked? ==> r.run.outcome.site == SliceOutOfRange
  {
    if f.result.Err? then Finished(Run(Returned(Err(f.result.error)), f.state))
    else if !CopyFits(f.result.value, 5, knownBits) then Finished(Run(Panicked(SliceOutOfRange), f.state))
    else Retry(f.state, MarkCollision(Spliced(frame, f.result.value, knownBits), position), position)
  }

  /** After a collision: read CollReg and follow the collision if its position is usable. */
  function FollowCollision(d: DeviceState, frame: seq<byte>, knownBits: nat): (r: Round)
    requires |frame| == 9 && knownBits <= 32
    ensures r.Retry? ==>
      && |r.tx| == 9 && r.tx[0] == frame[0] && knownBits <= r.knownBits <= 32
      && Replies(r.state, ComIrqReg) == Replies(d, ComIrqReg)
    ensures r.Finished? && r.run.outcome.Returned? ==>
      r.run.outcome.result.Err? && r.run.outcome.result.error != Proprietary
    ensures r.Finished? && r.run.outcome.Panicked? ==> r.run.outcome.site == SliceOutOfRange
  {
    var coll := Read(d, CollReg);
    if coll.result.Err? then Finished(Run(Returned(Err(coll.result.error)), coll.state))
    else
      match CollisionDecision(coll.result.value, knownBits)
      case Advance(pos) => TakePartial(coll.state, frame, knownBits, pos)
      case _ => Finished(Run(Returned(Err(Collision)), coll.state))
  }

  /** One round: send the known bits, then either take the complete answer, or follow the
      collision reported in CollReg. */
  function AnticollisionRound(d: DeviceState, tx: seq<byte>, knownBits: nat): (r: Round)
    requires |tx| == 9 && knownBits <= 32
    ensures r.Retry? ==>
      && |r.tx| == 9 && r.tx[0] == tx[0] && knownBits <= r.knownBits <= 32
      && |Replies(r.state, ComIrqReg)| < |Replies(d, ComIrqReg)|
    ensures r.Finished? && r.run.outcome.Returned? && r.run.outcome.result.Ok? ==>
      |r.run.outcome.result.value| == 9 && r.run.outcome.result.value[0] == tx[0]
    ensures r.Finished? && r.run.outcome.Returned? && r.run.outcome.result.Err? ==>
      r.run.outcome.result.error != Proprietary
    ensures r.Finished? && r.run.outcome.Panicked? ==> r.run.outcome.site == SliceOutOfRange
  {
    var last := TxLastBits(knownBits);
    var frame := tx[1 := Nvb(knownBits)];
    var t := Pcd.Transceive(d, frame[..FrameEnd(knownBits)], last, last, 5);
    if t.result.Ok? then
      if !CopyFits(t.result.value, 5, knownBits) then Finished(Run(Panicked(SliceOutOfRange), t.state))
      else Finished(Run(Returned(Ok(Spliced(frame, t.result.value, knownBits))), t.state))
    else if t.result.error != Collision then Finished(Run(Returned(Err(t.result.error)), t.state))
    else FollowCollision(t.state, frame, knownBits)
  }

  /** The anticollision loop of a cascade level, entered with the 9-byte frame `tx` whose
      first `knownBits` UID bits are known. Returns the 9-byte frame, SEL byte kept, as the
      last complete answer left it. */
  function AnticollisionLoop(d: DeviceState, tx: seq<byte>, knownBits: nat): (r: Run<seq<byte>>)
    requires |tx| == 9 && knownBits <= 32
    ensures r.outcome.Returned? && r.outcome.result.Ok? ==>
      |r.outcome.result.value| == 9 && r.outcome.result.value[0] == tx[0]
    ensures r.outcome.Returned? && r.outcome.result.Err? ==> r.outcome.result.error != Proprietary
    ensures r.outcome.Panicked? ==> r.outcome.site == SliceOutOfRange
    decreases |Replies(d, ComIrqReg)|
  {
    match AnticollisionRound(d, tx, knownBits)
    case Finished(run) => run
    case Retry(e, next, known) => AnticollisionLoop(e, next, known)
  }

  /** What a completed cascade level yields: the SELECT frame sent and the card's SAK. */
  datatype Level = Level(frame: seq<byte>, sak: Sak)

  /** Send the SELECT `frame` and check the card's answer: three whole bytes, the SAK and
      the CRC_A of the SAK. */
  function SelectReply(d: DeviceState, frame: seq<byte>): (r: Run<Level>)
    ensures r.outcome.Returned?
    ensures r.outcome.result.Ok? ==> r.outcome.result.value.frame == frame
    ensures r.outcome.result.Err? ==> r.outcome.result.error != Proprietary
  {
    var rx := Pcd.Transceive(d, frame, 0, 0, 3);
    if rx.result.Err? then Run(Returned(Err(rx.result.error)), rx.state)
    else if rx.result.value.validBytes != 3 || rx.result.value.validBits != 0 then
      Run(Returned(Err(IncompleteFrame)), rx.state)
    else
      var answer := rx.result.value.buffer;
      var check := CalculateCrc(rx.state, answer[..1]);
      if check.result.Err? then Run(Returned(Err(check.result.error)), check.state)
      else if answer[1..] != check.result.value then Run(Returned(Err(Crc)), check.state)
      else Run(Returned(Ok(Level(frame, Sak(answer[0])))), check.state)
  }

  /** The SELECT of a cascade level, once anticollision has filled in the frame `tx`: send it
      with BCC and CRC, and check the SAK's CRC. */
  function SendSelect(d: DeviceState, tx: seq<byte>): (r: Run<Level>)
    requires |tx| == 9
    ensures r.outcome.Returned? && r.outcome.result.Ok? ==> |r.outcome.result.value.frame| == 9
    ensures r.outcome.Returned?
    ensures r.outcome.result.Err? ==> r.outcome.result.error != Proprietary
  {
    var head := SelectHead(tx);
    var crc := CalculateCrc(d, head);
    if crc.result.Err? then Run(Returned(Err(crc.result.error)), crc.state)
    else SelectReply(crc.state, head + crc.result.value)
  }

  /** One cascade level: anticollision from no known bits, then SELECT. */
  function SelectLevel(d: DeviceState, level: nat): (r: Run<Level>)
    requires level < 3
    ensures r.outcome.Returned? && r.outcome.result.Ok? ==> |r.outcome.result.value.frame| == 9
    ensures r.outcome.Returned? && r.outcome.result.Err? ==> r.outcome.result.error != Proprietary
    ensures r.outcome.Panicked? ==> r.outcome.site == SliceOutOfRange
  {
    var a := AnticollisionLoop(d, [SelectCommand(level)] + Zeros(8), 0);
    if a.outcome.Panicked? then Run(Panicked(a.outcome.site), a.state)
    else if a.outcome.result.Err? then Run(Returned(Err(a.outcome.result.error)), a.state)
    else SendSelect(a.state, a.outcome.result.value)
  }

  /** How one cascade level ends: it either needs the next level, with the UID bytes known
      so far, or settles `select`'s result. */
  datatype CascadeEnd = Descend(state: DeviceState, uid: seq<byte>) | Settled(run: Run<Uid>)

  /** How a pass of `select`'s `'cascade` loop at `level` ends once `SelectLevel` returned `s`,
      given the `uid` bytes taken from the levels before it: an incomplete SAK contributes
      three UID bytes (the cascade tag is dropped), a complete SAK the last four. */
  function CascadeStep(s: Run<Level>, level: nat, uid: seq<byte>): (r: CascadeEnd)
    requires level < 3 && |uid| == 3 * level
    requires s.outcome.Returned? && s.outcome.result.Ok? ==> |s.outcome.result.value.frame| == 9
    ensures r.Descend? ==> |r.uid| == 3 * level + 3 && r.uid[..3 * level] == uid
    ensures r.Settled? && r.run.outcome.Returned? && r.run.outcome.result.Ok? ==>
      |AsBytes(r.run.outcome.result.value)| == 3 * level + 4
      && AsBytes(r.run.outcome.result.value)[..3 * level] == uid
  {
    if s.outcome.Panicked? then Settled(Run(Panicked(s.outcome.site), s.state))
    else if s.outcome.result.Err? then Settled(Run(Returned(Err(s.outcome.result.error)), s.state))
    else
      var found := s.outcome.result.value;
      if !IsComplete(found.sak) then Descend(s.state, uid + found.frame[3..6])
      else Settled(Run(Returned(Ok(UidOf(uid + found.frame[2..6], found.sak.value))), s.state))
  }

  /** The `'cascade` loop from `level` on; a fourth level is the `unreachable!` panic. */
  function Cascade(d: DeviceState, level: nat, uid: seq<byte>): (r: Run<Uid>)
    requires level <= 3 && |uid| == 3 * level
    ensures r.outcome.Returned? && r.outcome.result.Err? ==> r.outcome.result.error != Proprietary
    decreases 3 - level
  {
    if level == 3 then Run(Panicked(UnreachableCascadeLevel), d)
    else
      match CascadeStep(SelectLevel(d, level), level, uid)
      case Descend(e, known) => Cascade(e, level + 1, known)
      case Settled(run) => run
  }

  /** How the cascade from `level` goes on once the pass at `level` has ended as `c`. */
  lemma CascadeContinues(d: DeviceState, level: nat, uid: seq<byte>, c: CascadeEnd)
    requires level < 3 && |uid| == 3 * level
    requires c == CascadeStep(SelectLevel(d, level), level, uid)
    ensures c.Descend? ==> Cascade(d, level, uid) == Cascade(c.state, level + 1, c.uid)
    ensures c.Settled? ==> Cascade(d, level, uid) == c.run
  {
  }

  /** `select`'s read-modify-write of CollReg: clear ValuesAfterColl. */
  function ClearValuesAfterColl(b: byte): (r: byte)
    ensures r & 0x80 == 0
    ensures r & 0x7F == b & 0x7F
  {
    b & !0x80
  }

  /** The ATQA announces bit frame anticollision: exactly one of its five frame-size bits is set. */
  predicate BitFrameAnticollision(atqa: AtqA)
    requires ValidAtqA(atqa)
  {
    PopCount(atqa.bytes[0] & FRAME_SIZE_BITS) == 1
  }

  /** `select`. */
  function Select(d: DeviceState, atqa: AtqA): (r: Run<Uid>)
    requires ValidAtqA(atqa)
    ensures r.outcome == Returned(Err(Proprietary)) <==> !BitFrameAnticollision(atqa)
    ensures !BitFrameAnticollision(atqa) ==> r.state == d
  {
    if !BitFrameAnticollision(atqa) then Run(Returned(Err(Proprietary)), d)
    else
      var c := ReadModifyWrite(d, CollReg, ClearValuesAfterColl);
      if c.result.Err? then Run(Returned(Err(c.result.error)), c.state)
      else Cascade(c.state, 0, [])
  }
}
