/**
 * What `select` promises: when it refuses without touching the bus, what each anticollision
 * round transmits, how a collision is followed, how the SELECT frame is built and checked,
 * and how the cascade levels assemble a 4-, 7- or 10-byte UID.
 */
module AnticollisionProperties {
  import opened Bits
  import opened Registers
  import opened Errors
  import opened Device
  import opened Fifo
  import opened Pcd
  import opened Picc
  import opened PcdProperties
  import opened Anticollision

  // ---------------------------------------------------------------- the ATQA check

  /** `select` answers Proprietary, with no bus transaction at all, exactly when the ATQA
      does not have one single bit among its five frame-size bits. */
  lemma SelectNeedsBitFrameAnticollision(d: DeviceState, atqa: AtqA)
    requires ValidAtqA(atqa)
    ensures Select(d, atqa) == Run(Returned(Err(Proprietary)), d)
        <==> !IsSingleLowBit(atqa.bytes[0] & FRAME_SIZE_BITS)
  {
    OneLowBitSet(atqa.bytes[0]);
  }

  // ---------------------------------------------------------------- one round

  /** The device a round leaves behind. */
  function RoundState(r: Round): DeviceState
  {
    match r
    case Finished(run) => run.state
    case Retry(e, _, _) => e
  }

  /** The ANTICOLLISION frame a round with `knownBits` known bits sends. */
  function RoundFrame(tx: seq<byte>, knownBits: nat): (sent: seq<byte>)
    requires |tx| == 9 && knownBits <= 32
    ensures |sent| == 2 + knownBits / 8 + (if knownBits % 8 > 0 then 1 else 0)
    ensures sent[0] == tx[0] && sent[1] == Nvb(knownBits)
    ensures sent[2..] == tx[2..|sent|]
  {
    tx[1 := Nvb(knownBits)][..FrameEnd(knownBits)]
  }

  /** Taking a partial answer only reads. */
  lemma TakePartialOnlyReads(d: DeviceState, frame: seq<byte>, knownBits: nat, position: nat)
    requires |frame| == 9 && knownBits <= 32 && 1 <= position <= 32
    ensures d.log <= RoundState(TakePartial(d, frame, knownBits, position)).log
  {
    var f := ReadFifoData(d, 5);
    assert d.log <= f.state.log;
  }

  /** Following a collision only reads. */
  lemma FollowCollisionOnlyReads(d: DeviceState, frame: seq<byte>, knownBits: nat)
    requires |frame| == 9 && knownBits <= 32
    ensures d.log <= RoundState(FollowCollision(d, frame, knownBits)).log
  {
    var coll := Read(d, CollReg);
    if coll.result.Ok? {
      match CollisionDecision(coll.result.value, knownBits)
      case Advance(pos) =>
        TakePartialOnlyReads(coll.state, frame, knownBits, pos);
      case _ =>
    }
  }

  /** A round sends the SEL byte, the NVB of `knownBits` and the frame bytes holding the known
      bits, with the last byte's bit count as both the transmit and the receive alignment:
      its first bus operations are `transceive`'s setup for exactly that. */
  lemma RoundSendsKnownBits(d: DeviceState, tx: seq<byte>, knownBits: nat)
    requires |tx| == 9 && knownBits <= 32
    ensures var last := TxLastBits(knownBits);
      d.log + TransceiveSetup(RoundFrame(tx, knownBits), last, last)
        <= RoundState(AnticollisionRound(d, tx, knownBits)).log
    ensures var last := TxLastBits(knownBits);
      && last as nat == knownBits % 8
      && BitFraming(last, last) & 0x07 == last
      && (BitFraming(last, last) >> 4) & 0x07 == last
  {
    var last := TxLastBits(knownBits);
    var frame := tx[1 := Nvb(knownBits)];
    var sent := RoundFrame(tx, knownBits);
    TransceiveWritesSetupFirst(d, sent, last, last, 5);
    var t := Pcd.Transceive(d, sent, last, last, 5);
    if t.result.Err? && t.result.error == Collision {
      FollowCollisionOnlyReads(t.state, frame, knownBits);
    }
  }

  /** A round whose `transceive` returns an answer without collision ends the loop: when the
      answer fits behind the known bits, the result is the round's frame with the answer's
      bits copied in after them (`copy_bits_to`, then `break 'anticollision`). */
  lemma CompleteAnswerEndsLoop(d: DeviceState, tx: seq<byte>, knownBits: nat)
    requires |tx| == 9 && knownBits <= 32
    requires var last := TxLastBits(knownBits);
      var t := Pcd.Transceive(d, RoundFrame(tx, knownBits), last, last, 5);
      t.result.Ok? && CopyFits(t.result.value, 5, knownBits)
    ensures var last := TxLastBits(knownBits);
      var t := Pcd.Transceive(d, RoundFrame(tx, knownBits), last, last, 5);
      var r := Run(Returned(Ok(Spliced(tx[1 := Nvb(knownBits)], t.result.value, knownBits))), t.state);
      AnticollisionRound(d, tx, knownBits) == Finished(r) && AnticollisionLoop(d, tx, knownBits) == r
  {
  }

  /** An answer without collision that does not fit behind the known bits is the slice panic
      of `copy_bits_to`. */
  lemma OversizedAnswerPanics(d: DeviceState, tx: seq<byte>, knownBits: nat)
    requires |tx| == 9 && knownBits <= 32
    requires var last := TxLastBits(knownBits);
      var t := Pcd.Transceive(d, RoundFrame(tx, knownBits), last, last, 5);
      t.result.Ok? && !CopyFits(t.result.value, 5, knownBits)
    ensures var last := TxLastBits(knownBits);
      var t := Pcd.Transceive(d, RoundFrame(tx, knownBits), last, last, 5);
      AnticollisionLoop(d, tx, knownBits) == Run(Panicked(SliceOutOfRange), t.state)
  {
  }

  /** With no bit known, a whole five-byte answer becomes frame bytes 2 to 6. */
  lemma SplicedWholeAnswer(frame: seq<byte>, f: FifoData)
    requires |frame| == 9 && Wf(f, 5) && f.validBytes == 5
    ensures Spliced(frame, f, 0) == frame[..2] + f.buffer + frame[7..]
  {
    var w := SpliceBits(frame[2..7], f, 0);
    MergeAtByteStart(frame[2], f.buffer[0]);
    assert w == f.buffer;
  }

  /** With no bit known, the round's frame is SEL and NVB 0x20, with no extra bits. */
  lemma FirstRoundFrame(tx: seq<byte>)
    requires |tx| == 9
    ensures RoundFrame(tx, 0) == [tx[0], 0x20] && TxLastBits(0) == 0 && Nvb(0) == 0x20
  {
    assert Nvb(0) == 0x20;
  }

  /** With no bit known yet, the round sends SEL and NVB 0x20 alone, and an answer of five whole
      bytes (four UID bytes and their BCC) ends the loop with those bytes as frame bytes 2 to 6. */
  lemma FirstRoundTakesWholeAnswer(d: DeviceState, tx: seq<byte>)
    requires |tx| == 9
    requires var t := Pcd.Transceive(d, [tx[0], 0x20], 0, 0, 5);
      t.result.Ok? && t.result.value.validBytes == 5
    ensures var t := Pcd.Transceive(d, [tx[0], 0x20], 0, 0, 5);
      AnticollisionLoop(d, tx, 0) == Run(Returned(Ok([tx[0], 0x20] + t.result.value.buffer + tx[7..])), t.state)
  {
    FirstRoundFrame(tx);
    CompleteAnswerEndsLoop(d, tx, 0);
    var t := Pcd.Transceive(d, [tx[0], 0x20], 0, 0, 5);
    var frame := tx[1 := 0x20];
    SplicedWholeAnswer(frame, t.result.value);
    assert frame[..2] == [tx[0], 0x20] && frame[7..] == tx[7..];
  }

  // ---------------------------------------------------------------- a collision

  /** A collision whose CollReg shows an invalid position, or a position before the bits
      already known, ends the level with Collision. */
  lemma UnusableCollisionFails(d: DeviceState, frame: seq<byte>, knownBits: nat)
    requires |frame| == 9 && knownBits <= 32 && |Replies(d, CollReg)| > 0
    requires !CollisionDecision(Replies(d, CollReg)[0], knownBits).Advance?
    ensures FollowCollision(d, frame, knownBits)
         == Finished(Run(Returned(Err(Collision)), AfterReads(d, CollReg, 1)))
  {
    ReadIsAfterReads(d, CollReg);
  }

  /** A usable collision at `position` adds the received bits to the frame, sets the bit at
      the collision position, and repeats the round with `position` bits known. */
  lemma UsableCollisionAdvances(d: DeviceState, frame: seq<byte>, knownBits: nat)
    requires |frame| == 9 && knownBits <= 32 && |Replies(d, CollReg)| > 0
    requires CollisionDecision(Replies(d, CollReg)[0], knownBits).Advance?
    requires var f := ReadFifoData(AfterReads(d, CollReg, 1), 5);
      f.result.Ok? && CopyFits(f.result.value, 5, knownBits)
    ensures var position := CollisionPosition(Replies(d, CollReg)[0]);
      var f := ReadFifoData(AfterReads(d, CollReg, 1), 5);
      FollowCollision(d, frame, knownBits)
        == Retry(f.state, MarkCollision(Spliced(frame, f.result.value, knownBits), position), position)
  {
    ReadIsAfterReads(d, CollReg);
  }

  // ---------------------------------------------------------------- SELECT

  /** The layout of a SELECT frame: SEL, NVB 0x70 (seven whole bytes), the four UID bytes,
      their BCC, and the two CRC bytes. */
  lemma SelectFrameLayout(tx: seq<byte>, crc: seq<byte>)
    requires |tx| == 9 && |crc| == 2
    ensures var frame := SelectHead(tx) + crc;
      && |frame| == 9 && frame[0] == tx[0] && frame[1] == 0x70 && frame[2..6] == tx[2..6]
      && frame[2] ^ frame[3] ^ frame[4] ^ frame[5] ^ frame[6] == 0
      && frame[..7] == SelectHead(tx) && frame[7..] == crc
  {
    var head := SelectHead(tx);
    var frame := head + crc;
    assert frame[..7] == head && frame[7..] == crc;
    assert frame[2..6] == head[2..6] == tx[2..6];
    assert frame[2] == tx[2] && frame[3] == tx[3] && frame[4] == tx[4] && frame[5] == tx[5];
  }

  /** The SELECT frame sent is the head followed by the CRC_A the IC computed over it. */
  lemma SelectFrameShape(d: DeviceState, tx: seq<byte>)
    requires |tx| == 9
    requires SendSelect(d, tx).outcome.result.Ok?
    ensures var c := CalculateCrc(d, SelectHead(tx));
      && c.result.Ok?
      && SendSelect(d, tx).outcome.result.value.frame == SelectHead(tx) + c.result.value
  {
  }

  /** The card's answer to SELECT must be three whole bytes whose last two are the CRC_A of
      the first, the SAK; anything else is IncompleteFrame or Crc. */
  lemma SelectAnswerChecked(d: DeviceState, frame: seq<byte>)
    requires Pcd.Transceive(d, frame, 0, 0, 3).result.Ok?
    ensures var t := Pcd.Transceive(d, frame, 0, 0, 3);
      var answer := t.result.value;
      var r := SelectReply(d, frame).outcome.result;
      && (answer.validBytes != 3 || answer.validBits != 0 ==> r == Err(IncompleteFrame))
      && (answer.validBytes == 3 && answer.validBits == 0 ==>
            var check := CalculateCrc(t.state, answer.buffer[..1]);
            && (check.result.Ok? && check.result.value != answer.buffer[1..] ==> r == Err(Crc))
            && (check.result.Ok? && check.result.value == answer.buffer[1..] ==>
                  r == Ok(Level(frame, Sak(answer.buffer[0])))))
  {
  }

  // ---------------------------------------------------------------- the cascade

  /** A complete SAK at `level` ends `select` with the UID of the bytes gathered so far and
      the four of this level: one level gives a single, two a double, three a triple UID. */
  lemma CompleteSakEndsCascade(d: DeviceState, level: nat, uid: seq<byte>)
    requires level < 3 && |uid| == 3 * level
    requires var s := SelectLevel(d, level);
      s.outcome.Returned? && s.outcome.result.Ok? && IsComplete(s.outcome.result.value.sak)
    ensures var s := SelectLevel(d, level);
      var found := s.outcome.result.value;
      var r := Cascade(d, level, uid);
      && r == Run(Returned(Ok(UidOf(uid + found.frame[2..6], found.sak.value))), s.state)
      && AsBytes(r.outcome.result.value) == uid + found.frame[2..6]
      && (level == 0 ==> r.outcome.result.value.Single?)
      && (level == 1 ==> r.outcome.result.value.Double?)
      && (level == 2 ==> r.outcome.result.value.Triple?)
  {
  }

  /** Four bytes make a single UID. */
  lemma UidOfFour(bytes: seq<byte>, sak: byte)
    requires |bytes| == 4
    ensures UidOf(bytes, sak) == Single(bytes, Sak(sak))
  {
  }

  /** At the first cascade level, a five-byte answer to the first ANTICOLLISION frame is
      followed straight by the SELECT of the frame it filled in. */
  lemma FirstLevelInOneRound(d: DeviceState)
    requires var t := Pcd.Transceive(d, [PICC_SEL_CL1, 0x20], 0, 0, 5);
      t.result.Ok? && t.result.value.validBytes == 5
    ensures var t := Pcd.Transceive(d, [PICC_SEL_CL1, 0x20], 0, 0, 5);
      SelectLevel(d, 0) == SendSelect(t.state, [PICC_SEL_CL1, 0x20] + t.result.value.buffer + [0, 0])
  {
    var tx := [SelectCommand(0)] + Zeros(8);
    assert tx[0] == PICC_SEL_CL1 && tx[7..] == [0, 0];
    FirstRoundTakesWholeAnswer(d, tx);
  }

  /** A first cascade level that ends with a complete SAK gives the single UID of the four
      UID bytes of its SELECT frame. */
  lemma CompleteFirstLevelIsSingle(d: DeviceState, s: Run<Level>, sak: byte)
    requires SelectLevel(d, 0) == s && IsComplete(Sak(sak))
    requires s.outcome.Returned? && s.outcome.result.Ok? && s.outcome.result.value.sak == Sak(sak)
    ensures |s.outcome.result.value.frame| == 9
    ensures Cascade(d, 0, []) == Run(Returned(Ok(Single(s.outcome.result.value.frame[2..6], Sak(sak)))), s.state)
  {
    var uid := s.outcome.result.value.frame[2..6];
    CompleteSakEndsCascade(d, 0, []);
    assert [] + uid == uid;
    UidOfFour(uid, sak);
  }

  /** A successful SELECT keeps the four UID bytes of the frame it was given. */
  lemma SelectKeepsUidBytes(d: DeviceState, tx: seq<byte>)
    requires |tx| == 9 && SendSelect(d, tx).outcome.result.Ok?
    ensures SendSelect(d, tx).outcome.result.value.frame[2..6] == tx[2..6]
  {
    SelectFrameShape(d, tx);
    SelectFrameLayout(tx, CalculateCrc(d, SelectHead(tx)).result.value);
  }

  /** The UID bytes of a SELECT frame built around a five-byte answer are its first four. */
  lemma SingleOfSelectedFrame(r: Run<Uid>, s: Run<Level>, answer: seq<byte>, sak: byte)
    requires |answer| == 5 && s.outcome.Returned? && s.outcome.result.Ok?
    requires |s.outcome.result.value.frame| == 9
    requires s.outcome.result.value.frame[2..6] == ([PICC_SEL_CL1, 0x20] + answer + [0, 0])[2..6]
    requires r == Run(Returned(Ok(Single(s.outcome.result.value.frame[2..6], Sak(sak)))), s.state)
    ensures r == Run(Returned(Ok(Single(answer[..4], Sak(sak)))), s.state)
  {
    assert ([PICC_SEL_CL1, 0x20] + answer + [0, 0])[2..6] == answer[..4];
  }

  /** The cascade from the first level, for a card that answers the first ANTICOLLISION frame
      (`tx[..2]`, SEL and NVB 0x20) with the five whole bytes `answer`, and the SELECT of the
      frame `tx` they fill in with a complete SAK: the single UID of the first four bytes it sent. */
  lemma SingleCardCascade(d: DeviceState, answer: seq<byte>, bits: nat, t: DeviceState,
                          tx: seq<byte>, frame: seq<byte>, sak: byte, f: DeviceState)
    requires |answer| == 5 && IsComplete(Sak(sak)) && tx == [PICC_SEL_CL1, 0x20] + answer + [0, 0]
    requires Pcd.Transceive(d, tx[..2], 0, 0, 5) == Step(Ok(FifoData(answer, 5, bits)), t)
    requires SendSelect(t, tx) == Run(Returned(Ok(Level(frame, Sak(sak)))), f)
    ensures Cascade(d, 0, []) == Run(Returned(Ok(Single(answer[..4], Sak(sak)))), f)
  {
    assert tx[..2] == [PICC_SEL_CL1, 0x20];
    var s := SendSelect(t, tx);
    FirstLevelInOneRound(d);
    SelectKeepsUidBytes(t, tx);
    CompleteFirstLevelIsSingle(d, s, sak);
    SingleOfSelectedFrame(Cascade(d, 0, []), s, answer, sak);
  }

  /** Once the ATQA asks for bit-frame anticollision and the CollReg update succeeded, `select`
      is the cascade from the first level. */
  lemma SelectRunsCascade(d: DeviceState, atqa: AtqA, e: DeviceState)
    requires ValidAtqA(atqa) && BitFrameAnticollision(atqa)
    requires ReadModifyWrite(d, CollReg, ClearValuesAfterColl) == Step(Ok(()), e)
    ensures Select(d, atqa) == Cascade(e, 0, [])
  {
  }

  /** The usual MIFARE Classic card: its ATQA 04 00 asks for bit-frame anticollision, so
      `select` runs the cascade (`SelectRunsCascade`), and its SAK 08 is complete, so when the
      card answers the first ANTICOLLISION frame with five whole bytes the cascade yields the
      single UID of the first four in one round. */
  lemma MifareClassicSelectedInOneRound(e: DeviceState, answer: seq<byte>, bits: nat, t: DeviceState,
                                        tx: seq<byte>, frame: seq<byte>, f: DeviceState)
    requires |answer| == 5 && tx == [PICC_SEL_CL1, 0x20] + answer + [0, 0]
    requires Pcd.Transceive(e, tx[..2], 0, 0, 5) == Step(Ok(FifoData(answer, 5, bits)), t)
    requires SendSelect(t, tx) == Run(Returned(Ok(Level(frame, Sak(0x08)))), f)
    ensures ValidAtqA(AtqA([0x04, 0x00])) && BitFrameAnticollision(AtqA([0x04, 0x00]))
    ensures Cascade(e, 0, []) == Run(Returned(Ok(Single(answer[..4], Sak(0x08)))), f)
  {
    assert PopCount(0x04 & FRAME_SIZE_BITS) == 1;
    SingleCardCascade(e, answer, bits, t, tx, frame, 0x08, f);
  }

  /** An incomplete SAK below the third level keeps the three UID bytes after the cascade tag
      and goes on to the next level. */
  lemma IncompleteSakDescends(d: DeviceState, level: nat, uid: seq<byte>)
    requires level < 3 && |uid| == 3 * level
    requires var s := SelectLevel(d, level);
      s.outcome.Returned? && s.outcome.result.Ok? && !IsComplete(s.outcome.result.value.sak)
    ensures var s := SelectLevel(d, level);
      Cascade(d, level, uid) == Cascade(s.state, level + 1, uid + s.outcome.result.value.frame[3..6])
  {
  }

  /** An incomplete SAK at the third level reaches `unreachable!`. */
  lemma IncompleteSakAtLastLevelPanics(d: DeviceState, uid: seq<byte>)
    requires |uid| == 6
    requires var s := SelectLevel(d, 2);
      s.outcome.Returned? && s.outcome.result.Ok? && !IsComplete(s.outcome.result.value.sak)
    ensures Cascade(d, 2, uid) == Run(Panicked(UnreachableCascadeLevel), SelectLevel(d, 2).state)
  {
    IncompleteSakDescends(d, 2, uid);
  }

  /** A sequence that starts with `v`, which starts with `w`, starts with `w`. */
  lemma PrefixOfPrefix(u: seq<byte>, v: seq<byte>, w: seq<byte>)
    requires |w| <= |v| <= |u| && u[..|v|] == v && v[..|w|] == w
    ensures u[..|w|] == w
  {
    assert u[..|w|] == u[..|v|][..|w|];
  }

  /** Whatever UID the cascade from `level` returns starts with the bytes of the levels
      before it and has at least the four bytes of one more level. */
  lemma {:induction false} CascadeKeepsEarlierBytes(d: DeviceState, level: nat, uid: seq<byte>)
    requires level <= 3 && |uid| == 3 * level
    requires Cascade(d, level, uid).outcome.Returned? && Cascade(d, level, uid).outcome.result.Ok?
    ensures var u := AsBytes(Cascade(d, level, uid).outcome.result.value);
      |u| >= 3 * level + 4 && u[..3 * level] == uid
    decreases 3 - level
  {
    if level < 3 {
      var c := CascadeStep(SelectLevel(d, level), level, uid);
      CascadeContinues(d, level, uid, c);
      if c.Descend? {
        CascadeKeepsEarlierBytes(c.state, level + 1, c.uid);
        PrefixOfPrefix(AsBytes(Cascade(c.state, level + 1, c.uid).outcome.result.value), c.uid, uid);
      }
    }
  }
}
