# MFRC522 reader driver: a verified model

This project models the `rfid-rs` driver for the NXP MFRC522 contactless reader IC, and the
key the media player derives from a card's UID. The driver implements the reader side of
ISO/IEC 14443-3 Type A:

- the REQA and WUPA short frames;
- the bit-oriented anticollision and SELECT over cascade levels 1 to 3 (section 6.5 of
  ISO/IEC 14443-3);
- HLTA;
- CRC_A computed by the IC's coprocessor;
- MIFARE Classic authenticate, read and write of 16-byte blocks.

Every driver operation is a sequence of register reads and writes over SPI. The bus is
modelled as an abstract register device (`Device.DeviceState`):

- Each register has a finite script of the bytes its successive reads return.
- A read past the end of a script is a transport error (`Spi(NoReply(reg))`).
- Every completed transaction is appended to a log: single reads with their value, single
  writes, and burst reads and writes.

The model has three layers.

- **Reference functions.** Each driver operation is a pure function of the device state in
  `Device`, `Pcd` (the reader IC: `transceive`, `calculate_crc`, `fifo_data`,
  `check_error_register`, `reset`, `init`, the MFAuthent wait), `Anticollision`
  (`select`) and `Picc` (the card commands).
- **The driver class.** `Driver.Mfrc522` holds the device state as fields. Its methods run
  the driver's loops: the interrupt polling loops, the `'anticollision` and `'cascade` loops
  over the 9-byte frame and the 10-byte UID buffer (both `array`s), and `copy_bits_to` in
  place. Each method is proved to leave the device, and return, exactly what its reference
  function says.
- **Properties.** `PcdProperties`, `AnticollisionProperties` and `PiccProperties` prove
  what the driver promises about the reference functions. `CardKey` models
  `slice_to_uuid` and the pairing table keyed by it.

Other design decisions:

- The typestate `Mfrc522<_, _, _, Initialized>` becomes the field `initialized`. `Init`
  requires it false and sets it on success. Every public command requires it.
- A Rust panic inside `select` is an outcome of its own (`Errors.Outcome.Panicked`). The two
  panics are a `copy_bits_to` slice out of range and `unreachable!()` after a third
  incomplete SAK.

The model follows the code in these places, where a reader of the protocol might expect
otherwise:

- The anticollision no-progress test is `coll_pos < known_bits`, so a collision reported at
  the position already known repeats the round (`Anticollision.CollisionAtKnownPositionRepeats`).
- The anticollision loop has no 32-round bound. The model's loop ends because each retried
  round consumes a scripted ComIrqReg reply.
- `mf_authenticate` sends the first four UID bytes, whatever the UID's size
  (`Picc.AuthFrame`).
- `mf_read` never checks how many bytes were received. It recomputes the CRC over the first
  16 bytes of the 18-byte buffer and compares it with bytes 16 and 17, whatever arrived (the
  buffer is zero beyond the received bytes).

## Model

| member | source | states |
|---|---|---|
| Picc.AsBytes | libs/rfid-rs/src/lib.rs:58-75 | a single, double or triple UID has exactly 4, 7 or 10 bytes, and each size goes with one variant |
| Picc.UidOf | libs/rfid-rs/src/lib.rs:87-93 | the UID built from 4, 7 or 10 bytes and a SAK byte has exactly those bytes and that SAK |
| Picc.UidOfAsBytes | libs/rfid-rs/src/lib.rs:87-97 | a UID is recovered from its bytes and its SAK: `new` and `as_bytes` are inverse |
| Device.Read | libs/rfid-rs/src/lib.rs:680-688 | a read succeeds exactly when the register has a reply left, and returns it. A failed read changes nothing; any read consumes only that register's script |
| Device.Write | libs/rfid-rs/src/lib.rs:721-723 | a write appends exactly its transaction to the log and consumes no reply |
| Device.ReadMany | libs/rfid-rs/src/lib.rs:690-710 | more than 64 bytes gives NoRoom with no transaction. Otherwise the burst returns the next `n` replies and logs one burst read, or is a transport error when fewer are scripted |
| Device.WriteMany | libs/rfid-rs/src/lib.rs:725-734 | the burst write succeeds exactly for at most 64 bytes and then logs one burst write; otherwise NoRoom and nothing changes |
| Device.ReadModifyWrite | libs/rfid-rs/src/lib.rs:712-719 | reads the register and writes back `f` of the value read, or fails on the read with nothing written |
| Driver.Mfrc522.Write | libs/rfid-rs/src/lib.rs:721-723 | the driver's write does exactly what `Device.Write` says |
| Driver.Mfrc522.Command | libs/rfid-rs/src/lib.rs:667-669 | the command write does exactly what `Pcd.Command` says |
| Driver.Mfrc522.FifoFlush | libs/rfid-rs/src/lib.rs:662-664 | the flush does exactly what `Pcd.FlushFifo` says |
| Driver.Mfrc522.Read | libs/rfid-rs/src/lib.rs:680-688 | the driver's read does exactly what `Device.Read` says |
| Driver.Mfrc522.ReadMany | libs/rfid-rs/src/lib.rs:690-710 | the burst read does exactly what `Device.ReadMany` says |
| Driver.Mfrc522.WriteMany | libs/rfid-rs/src/lib.rs:725-734 | the burst write does exactly what `Device.WriteMany` says |
| Driver.Mfrc522.Rmw | libs/rfid-rs/src/lib.rs:712-719 | the read-modify-write does exactly what `Device.ReadModifyWrite` says |
| Pcd.ErrorBits | libs/rfid-rs/src/lib.rs:560-576 | the decode succeeds exactly when no error flag other than bit 5 is set, and otherwise names one of the seven flag errors |
| Pcd.ErrorBitsByPriority | libs/rfid-rs/src/lib.rs:560-576 | the decode reports the first set flag in the order Protocol, Parity, Crc, Collision, BufferOverflow, Overheating, Wr |
| Pcd.CheckErrorRegister | libs/rfid-rs/src/lib.rs:557-577 | the error check never reports Proprietary |
| PcdProperties.CheckErrorRegisterDecodes | libs/rfid-rs/src/lib.rs:557-577 | `check_error_register` makes exactly one ErrorReg read and returns the priority decode of it |
| Driver.Mfrc522.CheckErrorRegister | libs/rfid-rs/src/lib.rs:557-577 | the method does exactly what `Pcd.CheckErrorRegister` says |
| Pcd.ReadFifoData | libs/rfid-rs/src/lib.rs:638-659 | the buffer has capacity `rx`, at most `rx` valid bytes and fewer than 8 valid bits. Only FIFOLevelReg, FIFODataReg and ControlReg are read, and no error is Proprietary |
| Pcd.FifoBytes | libs/rfid-rs/src/lib.rs:648-651 | after FIFOLevelReg reported `n` bytes: a well-formed buffer with `n` valid bytes, only FIFODataReg and ControlReg read, and no Proprietary error |
| PcdProperties.ReadFifoDataContents | libs/rfid-rs/src/lib.rs:643-658 | with bytes in the FIFO: the count is FIFOLevelReg's value, the bytes are the next FIFODataReg replies, the rest of the buffer is zero, and the valid bits are `ControlReg & 7` |
| PcdProperties.FifoBytesContents | libs/rfid-rs/src/lib.rs:648-658 | after a non-zero FIFOLevelReg count `n`, the buffer holds the next `n` FIFODataReg replies, then zeros, and the valid bits are ControlReg's |
| PcdProperties.ReadFifoDataIntoNothing | libs/rfid-rs/src/lib.rs:643 | a zero-capacity buffer makes no read at all |
| PcdProperties.ReadFifoDataOverflow | libs/rfid-rs/src/lib.rs:644-647 | more bytes in the FIFO than the buffer holds is NoRoom, right after the FIFOLevelReg read |
| PcdProperties.ReadFifoDataEmpty | libs/rfid-rs/src/lib.rs:648-651 | an empty FIFO gives zero valid bytes and bits, and ControlReg is not read |
| Driver.Mfrc522.ReadFifoData | libs/rfid-rs/src/lib.rs:638-659 | the method does exactly what `Pcd.ReadFifoData` says |
| Driver.Mfrc522.ReadFifoBytes | libs/rfid-rs/src/lib.rs:648-651 | the burst and ControlReg read do exactly what `Pcd.FifoBytes` says |
| Pcd.BitFraming | libs/rfid-rs/src/lib.rs:608-611 | the BitFramingReg value has StartSend set, the receive alignment in bits 4-6 and the last-byte bit count in bits 0-2 |
| Pcd.Transceive | libs/rfid-rs/src/lib.rs:580-635 | a received buffer has the requested capacity and shape, no error is Proprietary, and an answer or a collision consumes at least one ComIrqReg reply |
| Pcd.TransceivePoll | libs/rfid-rs/src/lib.rs:616-631 | the wait reads only ComIrqReg; success consumes at least one reply; the only failures are the read past the script, Timeout and LostCommunication |
| PcdProperties.TransceivePollSkip | libs/rfid-rs/src/lib.rs:616-631 | reads that keep the loop polling can be skipped, with the count of all-zero reads carried along |
| PcdProperties.TransceivePollEnds | libs/rfid-rs/src/lib.rs:617-626 | the wait ends at the first read that stops the loop. A receive, error or idle interrupt is success even with the timer bit set; then the timer bit gives Timeout; otherwise LostCommunication |
| PcdProperties.TransceivePollExhausted | libs/rfid-rs/src/lib.rs:617-618 | when every scripted reply keeps the loop going, the wait fails on the read past the script |
| PcdProperties.TwelveQuietPollsLoseCommunication | libs/rfid-rs/src/lib.rs:624-629 | the retry counter exceeds 10 after twelve all-zero reads, and the wait then reports LostCommunication |
| PcdProperties.BusyPollsNeverLoseCommunication | libs/rfid-rs/src/lib.rs:624-629 | non-zero reads without a done or timer bit never advance the counter, so they never cause LostCommunication |
| PcdProperties.ErrorFlagSkipsFifo | libs/rfid-rs/src/lib.rs:633-634 | a set error flag ends `transceive` with that error before the FIFO is read |
| PcdProperties.CleanErrorRegisterDrainsFifo | libs/rfid-rs/src/lib.rs:633-634 | with no error flag set, `transceive` drains the FIFO right after the ErrorReg read |
| PcdProperties.TransceiveNoRoom | libs/rfid-rs/src/lib.rs:592-602 | a frame over 64 bytes is NoRoom after the Idle command, the interrupt clear and the FIFO flush |
| PcdProperties.TransceiveWritesSetupFirst | libs/rfid-rs/src/lib.rs:592-634 | otherwise `transceive` logs Idle, the interrupt clear, the flush, the frame, Transceive and BitFramingReg in that order, and after that only reads |
| Driver.Mfrc522.AwaitTransceive | libs/rfid-rs/src/lib.rs:616-631 | the polling loop does exactly what `Pcd.TransceivePoll` says |
| Driver.Mfrc522.Transceive | libs/rfid-rs/src/lib.rs:580-635 | the method does exactly what `Pcd.Transceive` says |
| Pcd.CrcResult | libs/rfid-rs/src/lib.rs:545-551 | the CRC is the two result registers, low byte first |
| Pcd.CrcPoll | libs/rfid-rs/src/lib.rs:540-554 | the CRC wait reads only DivIrqReg and the result registers; success gives two bytes; the only failures are Timeout and a read past the script of one of those registers |
| Pcd.CalculateCrc | libs/rfid-rs/src/lib.rs:523-555 | `calculate_crc` returns two bytes or an error other than Proprietary |
| PcdProperties.CalculateCrcStarts | libs/rfid-rs/src/lib.rs:523-537 | `calculate_crc` writes Idle, clears the CRC interrupt, flushes the FIFO, writes the data and starts CalcCRC, in that order, before it polls |
| PcdProperties.CrcPollSkip | libs/rfid-rs/src/lib.rs:541-553 | DivIrqReg reads without the CRC interrupt can be skipped, each using up one of the remaining polls |
| PcdProperties.CalculateCrcResult | libs/rfid-rs/src/lib.rs:541-552 | a CRC interrupt within the first 5000 reads returns the result registers read right after it |
| PcdProperties.CrcPollHit | libs/rfid-rs/src/lib.rs:541-552 | a DivIrqReg read showing the CRC interrupt ends the wait with the two result registers read after it |
| PcdProperties.CalculateCrcTimesOut | libs/rfid-rs/src/lib.rs:541-554 | 5000 reads without the CRC interrupt give Timeout, and no more DivIrqReg reads are made |
| Driver.Mfrc522.CalculateCrc | libs/rfid-rs/src/lib.rs:523-555 | the `for` loop does exactly what `Pcd.CalculateCrc` says |
| Pcd.Reset | libs/rfid-rs/src/lib.rs:672-676 | the soft reset reads only CommandReg and fails only when CommandReg runs out of replies |
| Pcd.PowerDownPoll | libs/rfid-rs/src/lib.rs:674 | the busy-wait reads only CommandReg and fails only when CommandReg runs out of replies |
| PcdProperties.ResetWaitsForPowerUp | libs/rfid-rs/src/lib.rs:673-675 | the reset ends at the first CommandReg read with PowerDown clear |
| Driver.Mfrc522.Reset | libs/rfid-rs/src/lib.rs:672-676 | the busy-wait does exactly what `Pcd.Reset` says |
| Pcd.AntennaOn | libs/rfid-rs/src/lib.rs:233 | the TxControlReg update sets both antenna driver bits and keeps all others |
| PcdProperties.ModePreset | libs/rfid-rs/src/lib.rs:230-231 | the ModeReg value selects CRC preset 0x6363 (CRCPreset field 01), keeps MSBFirst clear, and has the other bits of the reset value 0x3F |
| PcdProperties.InitWrites | libs/rfid-rs/src/lib.rs:208-233 | after the reset, `init` writes the nine configuration registers in order, then does the TxControlReg read-modify-write |
| Pcd.Init | libs/rfid-rs/src/lib.rs:208-241 | `init` fails only when CommandReg or TxControlReg runs out of replies |
| Driver.Mfrc522.Init | libs/rfid-rs/src/lib.rs:208-241 | the method does exactly what `Pcd.Init` says, and the driver counts as initialized exactly when it succeeded |
| Pcd.AuthPoll | libs/rfid-rs/src/lib.rs:449-458 | the wait reads only ComIrqReg, fails only with Timeout or a transport error, and reads at most 72 times |
| Pcd.Authenticate | libs/rfid-rs/src/lib.rs:418-463 | the IC's part of authentication never reports Proprietary |
| PcdProperties.AuthenticateStarts | libs/rfid-rs/src/lib.rs:420-460 | the IC's part of authentication logs Idle, the interrupt clear, the flush, BitFramingReg cleared, the frame and MFAuthent in that order, then waits; the error register is checked only after a good wait, and its verdict is the result |
| PcdProperties.AuthPollSkip | libs/rfid-rs/src/lib.rs:449-458 | reads with neither a done nor a timer interrupt can be skipped, each counting one poll |
| PcdProperties.AuthenticationTimesOut | libs/rfid-rs/src/lib.rs:455-456 | 72 quiet reads time out, and no further read is made |
| PcdProperties.AuthenticationDone | libs/rfid-rs/src/lib.rs:452-453 | an error or idle interrupt within 72 reads ends the wait well |
| Picc.AuthFrame | libs/rfid-rs/src/lib.rs:433-441 | the 12 MFAuthent bytes are key-A command, block, the 6 key bytes and the first four UID bytes |
| Picc.MfAuthenticate | libs/rfid-rs/src/lib.rs:418-463 | authentication never reports Proprietary; `PiccProperties.MfAuthenticateSendsFrame` ties it to the setup, the wait and the error check |
| PiccProperties.MfAuthenticateSendsFrame | libs/rfid-rs/src/lib.rs:418-463 | `mf_authenticate` bursts key-A command, block, key and the first four UID bytes into the FIFO, then returns the wait's failure or, after a good wait, the error-register verdict |
| Driver.Mfrc522.MfAuthenticate | libs/rfid-rs/src/lib.rs:418-463 | the setup, the polling loop and the error check do exactly what `Picc.MfAuthenticate` says |
| Driver.Mfrc522.AwaitAuthentication | libs/rfid-rs/src/lib.rs:449-458 | the polling loop does exactly what `Pcd.AuthPoll` says |
| Picc.Request | libs/rfid-rs/src/lib.rs:251-275 | REQA/WUPA succeed exactly when `transceive` returned 2 bytes with 0 extra bits, and return those bytes. Another answer is IncompleteFrame; a failed `transceive` passes its error on |
| Picc.Reqa | libs/rfid-rs/src/lib.rs:251-262 | REQA goes out first as a 7-bit short frame; an answer is a two-byte ATQA; no error is Proprietary |
| Picc.Wupa | libs/rfid-rs/src/lib.rs:264-275 | WUPA goes out first as a 7-bit short frame; an answer is a two-byte ATQA; no error is Proprietary |
| PiccProperties.RequestIsShortFrame | libs/rfid-rs/src/lib.rs:252-253 | REQA and WUPA send only the command byte, with 7 valid bits and no receive alignment |
| Driver.Mfrc522.Reqa | libs/rfid-rs/src/lib.rs:251-262 | the method does exactly what `Picc.Reqa` says |
| Driver.Mfrc522.Wupa | libs/rfid-rs/src/lib.rs:264-275 | the method does exactly what `Picc.Wupa` says |
| Picc.HaltVerdict | libs/rfid-rs/src/lib.rs:287-291 | Timeout becomes success, any answer becomes Nak, and every other error is passed on |
| Picc.Hlta | libs/rfid-rs/src/lib.rs:277-293 | `hlta` never reports Proprietary; `PiccProperties.HltaSucceedsOnSilence` states its verdict |
| PiccProperties.HltaSucceedsOnSilence | libs/rfid-rs/src/lib.rs:277-293 | `hlta` sends HLTA and its CRC_A, and succeeds exactly when the card stays silent until the timer expires |
| Driver.Mfrc522.Hlta | libs/rfid-rs/src/lib.rs:277-293 | the method does exactly what `Picc.Hlta` says |
| Picc.ClearCrypto1 | libs/rfid-rs/src/lib.rs:413-416 | the Status2Reg update clears MFCrypto1On and keeps every other bit |
| Picc.StopCrypto1 | libs/rfid-rs/src/lib.rs:413-416 | `stop_crypto1` reads Status2Reg and writes it back with MFCrypto1On cleared, failing only when Status2Reg has no reply |
| Driver.Mfrc522.StopCrypto1 | libs/rfid-rs/src/lib.rs:413-416 | the method does exactly what `Picc.StopCrypto1` says |
| Picc.BlockVerdict | libs/rfid-rs/src/lib.rs:471-478 | the block is accepted exactly when the recomputed CRC equals the last two received bytes, and is then the first 16; otherwise Crc |
| Picc.MfRead | libs/rfid-rs/src/lib.rs:465-479 | a block returned by `mf_read` has 16 bytes; `PiccProperties.MfReadChecksCrc` states which |
| Picc.AckedExchange | libs/rfid-rs/src/lib.rs:483-498 | one half of `mf_write` never reports Proprietary; `PiccProperties.AckedExchangeAcknowledged` states when it succeeds |
| Picc.MfWrite | libs/rfid-rs/src/lib.rs:481-500 | `mf_write` never reports Proprietary; `PiccProperties.MfWriteNeedsTwoAcks` states when it succeeds |
| PiccProperties.MfReadChecksCrc | libs/rfid-rs/src/lib.rs:465-479 | `mf_read` returns only the first 16 received bytes, and only after recomputing their CRC_A and finding it equal to the two bytes that followed |
| PiccProperties.MfReadRejectsBadCrc | libs/rfid-rs/src/lib.rs:473-476 | a block whose CRC_A does not match is refused with Crc |
| Driver.Mfrc522.MfRead | libs/rfid-rs/src/lib.rs:465-479 | the method does exactly what `Picc.MfRead` says |
| PiccProperties.AckedExchangeAcknowledged | libs/rfid-rs/src/lib.rs:483-488 | one half of `mf_write` succeeds exactly when the CRC and the exchange succeed and the answer is one byte with 4 valid bits; another answer is Nak |
| Driver.Mfrc522.AckedExchange | libs/rfid-rs/src/lib.rs:483-498 | the method does exactly what `Picc.AckedExchange` says |
| PiccProperties.MfWriteNeedsTwoAcks | libs/rfid-rs/src/lib.rs:481-500 | `mf_write` succeeds exactly when the WRITE command and then the data are both acknowledged; when the command is refused, the data is never sent |
| Driver.Mfrc522.MfWrite | libs/rfid-rs/src/lib.rs:481-500 | the method does exactly what `Picc.MfWrite` says |
| Picc.Version | libs/rfid-rs/src/lib.rs:503-505 | `version` returns the next VersionReg reply |
| Driver.Mfrc522.Version | libs/rfid-rs/src/lib.rs:503-505 | the method does exactly what `Picc.Version` says |
| PiccProperties.NewCardPresentRestoresModes | libs/rfid-rs/src/lib.rs:507-515 | `new_card_present` writes the default TxModeReg, RxModeReg and ModWidthReg values before the REQA, and a returned ATQA has two bytes |
| Picc.NewCardPresent | libs/rfid-rs/src/lib.rs:507-515 | an ATQA returned by `new_card_present` has two bytes, and no error is Proprietary |
| Driver.Mfrc522.NewCardPresent | libs/rfid-rs/src/lib.rs:507-515 | the method does exactly what `Picc.NewCardPresent` says |
| Anticollision.SelectCommand | libs/rfid-rs/src/lib.rs:311-316 | the SEL code of cascade level `level` is `0x93 + 2 * level`: 0x93, 0x95 and 0x97 for levels 0, 1 and 2 |
| Anticollision.FrameEnd | libs/rfid-rs/src/lib.rs:323-325 | the frame sent holds just enough bytes for the known bits: at least 2, at most 6 |
| Anticollision.NvbCountsFrameBits | libs/rfid-rs/src/lib.rs:323-326 | NVB's high nibble is `2 + known_bits / 8` and its low nibble `known_bits % 8`: together they count exactly the 16 header bits plus the known bits |
| AnticollisionProperties.RoundFrame | libs/rfid-rs/src/lib.rs:323-331 | a round's frame is SEL, the NVB of `known_bits` and the frame bytes after them, `2 + known_bits / 8` bytes, plus one when `known_bits % 8 > 0` |
| AnticollisionProperties.RoundSendsKnownBits | libs/rfid-rs/src/lib.rs:322-331 | a round's first bus operations are `transceive`'s setup for that frame, with `known_bits % 8` as both last-byte bits and receive alignment |
| AnticollisionProperties.CompleteAnswerEndsLoop | libs/rfid-rs/src/lib.rs:331-334 | an answer without collision that fits behind the known bits ends the round and the loop with the round's frame, NVB set, and the answer's bits copied in after the known bits, in the state `transceive` left |
| AnticollisionProperties.OversizedAnswerPanics | libs/rfid-rs/src/lib.rs:331-334 | an answer without collision that does not fit behind the known bits ends the loop in the slice panic of `copy_bits_to` |
| Fifo.MergeAtByteStart | libs/rfid-rs/src/lib.rs:823-838 | with no bit of the boundary byte known, the received byte is taken whole |
| AnticollisionProperties.SplicedWholeAnswer | libs/rfid-rs/src/lib.rs:823-838 | with no bit known, a whole five-byte answer becomes frame bytes 2 to 6 and the rest of the frame is kept |
| AnticollisionProperties.FirstRoundTakesWholeAnswer | libs/rfid-rs/src/lib.rs:322-334 | with no bit known, the round sends SEL and NVB 0x20 only, and a five-byte answer ends the loop with SEL, 0x20, the answer and the frame's last two bytes |
| Anticollision.CollisionPosition | libs/rfid-rs/src/lib.rs:342-345 | the position is `CollReg & 0x1F`, with 0 read as 32 |
| Anticollision.CollisionDecision | libs/rfid-rs/src/lib.rs:338-349 | CollPosNotValid (bit 5) refuses and a position below `known_bits` refuses; otherwise the round continues at that position, which is at least `known_bits` |
| Anticollision.CollisionAtKnownPositionRepeats | libs/rfid-rs/src/lib.rs:346 | a collision at exactly `known_bits` is not treated as lack of progress |
| AnticollisionProperties.UnusableCollisionFails | libs/rfid-rs/src/lib.rs:337-349 | an invalid or back-stepping collision position ends the level with Collision, right after the CollReg read |
| AnticollisionProperties.UsableCollisionAdvances | libs/rfid-rs/src/lib.rs:350-359 | a usable collision splices the received bits into the frame, sets the bit at the collision position and repeats the round with that many known bits |
| Anticollision.CollisionIndex | libs/rfid-rs/src/lib.rs:355-358 | the collision bit `known_bits - 1` lives in frame byte `2 + (known_bits - 1) / 8` |
| Anticollision.MarkCollisionSetsBit | libs/rfid-rs/src/lib.rs:354-359 | marking sets UID bit `known_bits - 1` and changes no other bit of the frame |
| Anticollision.SplicedFromWindow | libs/rfid-rs/src/lib.rs:333-351 | splicing into `tx[2..=6]` changes only those five bytes of the frame |
| Driver.CopyUidBits | libs/rfid-rs/src/lib.rs:333-351 | the in-place copy into `tx[2..=6]` leaves the frame as `Anticollision.Spliced` says |
| Driver.SetCollisionBit | libs/rfid-rs/src/lib.rs:354-359 | the in-place update leaves the frame as `Anticollision.MarkCollision` says |
| Anticollision.Bcc | libs/rfid-rs/src/lib.rs:367 | the BCC makes the XOR of the four UID bytes and itself zero |
| Anticollision.SelectHead | libs/rfid-rs/src/lib.rs:366-367 | the SELECT head is SEL, NVB 0x70, the four UID bytes and their BCC |
| AnticollisionProperties.SelectFrameLayout | libs/rfid-rs/src/lib.rs:366-370 | the 9-byte SELECT frame is SEL, 0x70, the UID bytes, a BCC that XORs them to zero, and the two CRC bytes |
| AnticollisionProperties.SelectFrameShape | libs/rfid-rs/src/lib.rs:369-372 | the SELECT frame sent is the head followed by the CRC_A the IC computed over it |
| AnticollisionProperties.SelectAnswerChecked | libs/rfid-rs/src/lib.rs:372-382 | an answer other than 3 whole bytes is IncompleteFrame; a mismatching recomputed SAK CRC is Crc; otherwise the level yields the SAK |
| Anticollision.SendSelect | libs/rfid-rs/src/lib.rs:365-382 | the SELECT step never panics, yields a 9-byte frame on success, and never reports Proprietary |
| Anticollision.SelectLevel | libs/rfid-rs/src/lib.rs:310-382 | one cascade level yields a 9-byte frame, a non-Proprietary error, or the slice panic |
| AnticollisionProperties.TakePartialOnlyReads | libs/rfid-rs/src/lib.rs:350-351 | taking the partial answer after a collision only reads |
| AnticollisionProperties.FollowCollisionOnlyReads | libs/rfid-rs/src/lib.rs:336-359 | following a collision only reads |
| Anticollision.TakePartial | libs/rfid-rs/src/lib.rs:350-359 | a retry keeps the 9-byte frame and its SEL byte, continues with exactly `coll_pos` bits known and leaves ComIrqReg's script alone; otherwise a non-Proprietary error or the slice panic |
| Anticollision.FollowCollision | libs/rfid-rs/src/lib.rs:336-349 | a retry keeps the 9-byte frame and its SEL byte, never drops a known bit and leaves ComIrqReg's script alone; otherwise a non-Proprietary error or the slice panic |
| Anticollision.AnticollisionRound | libs/rfid-rs/src/lib.rs:323-362 | a retry keeps the frame and SEL byte, never drops a known bit and consumes a ComIrqReg reply; a complete answer is a 9-byte frame with the SEL byte kept (what it holds: `AnticollisionProperties.CompleteAnswerEndsLoop`); otherwise a non-Proprietary error or the slice panic |
| Anticollision.AnticollisionLoop | libs/rfid-rs/src/lib.rs:322-363 | the loop yields a 9-byte frame with the SEL byte kept, or a non-Proprietary error, or the slice panic; a collision-free answer ends it with the answer's bits copied in behind the known bits (`AnticollisionProperties.CompleteAnswerEndsLoop`, `AnticollisionProperties.FirstRoundTakesWholeAnswer`) |
| Driver.Mfrc522.AnticollisionRound | libs/rfid-rs/src/lib.rs:323-362 | one pass over the frame array does exactly what `Anticollision.AnticollisionRound` says |
| Driver.Mfrc522.FollowCollision | libs/rfid-rs/src/lib.rs:336-349 | the collision branch does exactly what `Anticollision.FollowCollision` says |
| Driver.Mfrc522.TakePartial | libs/rfid-rs/src/lib.rs:350-359 | the partial-answer branch does exactly what `Anticollision.TakePartial` says |
| Driver.Mfrc522.AnticollisionLoop | libs/rfid-rs/src/lib.rs:322-363 | the `'anticollision` loop does exactly what `Anticollision.AnticollisionLoop` says, and leaves the frame in the array |
| Driver.Mfrc522.SendSelect | libs/rfid-rs/src/lib.rs:365-382 | the SELECT step does exactly what `Anticollision.SendSelect` says |
| Driver.Mfrc522.SelectLevel | libs/rfid-rs/src/lib.rs:310-382 | one cascade level does exactly what `Anticollision.SelectLevel` says |
| Driver.StoreLevel | libs/rfid-rs/src/lib.rs:384-392 | an incomplete SAK appends `tx[3..6]` at `3 * level`; a complete SAK appends `tx[2..6]` and builds the UID |
| Anticollision.CascadeStep | libs/rfid-rs/src/lib.rs:384-392 | an incomplete SAK passes on `3 * level + 3` bytes that extend those known; a complete SAK settles a UID of `3 * level + 4` bytes that extends them |
| AnticollisionProperties.CompleteSakEndsCascade | libs/rfid-rs/src/lib.rs:389-408 | a complete SAK at level 0, 1 or 2 ends `select` with a single, double or triple UID of the gathered bytes |
| AnticollisionProperties.UidOfFour | libs/rfid-rs/src/lib.rs:394-398 | four gathered bytes make a single UID |
| AnticollisionProperties.FirstLevelInOneRound | libs/rfid-rs/src/lib.rs:310-382 | at cascade level 1, a five-byte answer to the first ANTICOLLISION frame is followed straight by the SELECT of SEL, 0x20, the answer and two zero bytes |
| AnticollisionProperties.CompleteFirstLevelIsSingle | libs/rfid-rs/src/lib.rs:389-402 | a first level ending with a complete SAK ends `select` with the single UID of the SELECT frame's bytes 2 to 5 |
| AnticollisionProperties.SelectKeepsUidBytes | libs/rfid-rs/src/lib.rs:364-368 | a successful SELECT keeps bytes 2 to 5 of the frame it was given |
| AnticollisionProperties.SingleCardCascade | libs/rfid-rs/src/lib.rs:306-402 | a card answering the first ANTICOLLISION frame with five whole bytes and its SELECT with a complete SAK is selected in one round as the single UID of the first four bytes it sent |
| AnticollisionProperties.SelectRunsCascade | libs/rfid-rs/src/lib.rs:296-306 | with an ATQA asking for bit-frame anticollision and a successful CollReg update, `select` is the cascade from level 1 |
| AnticollisionProperties.MifareClassicSelectedInOneRound | libs/rfid-rs/src/lib.rs:296-402 | ATQA 04 00 is valid and asks for bit-frame anticollision, and with SAK 08 a five-byte answer gives the single UID of its first four bytes in one round |
| AnticollisionProperties.IncompleteSakDescends | libs/rfid-rs/src/lib.rs:384-388 | an incomplete SAK below the third level keeps `tx[3..6]` and goes on to the next level |
| AnticollisionProperties.IncompleteSakAtLastLevelPanics | libs/rfid-rs/src/lib.rs:311-316 | an incomplete SAK at the third level reaches `unreachable!()` |
| AnticollisionProperties.CascadeKeepsEarlierBytes | libs/rfid-rs/src/lib.rs:306-408 | any UID the cascade returns from `level` starts with the bytes of the earlier levels (`uid_idx == 3 * cascade_level`) and has at least four more |
| Anticollision.Cascade | libs/rfid-rs/src/lib.rs:306-408 | the cascade never reports Proprietary |
| Driver.Mfrc522.CascadeLevel | libs/rfid-rs/src/lib.rs:310-392 | a pass that goes on to the next level has stored the level's bytes in the array, and the cascade from there returns what the cascade from this level returns; a pass that finishes returns that result |
| Driver.Mfrc522.CascadePass | libs/rfid-rs/src/lib.rs:310-392 | one pass leaves the UID array and the device as `Anticollision.CascadeStep` of `Anticollision.SelectLevel` says |
| Driver.Mfrc522.CascadeLoop | libs/rfid-rs/src/lib.rs:306-408 | the `'cascade` loop over the UID array does exactly what `Anticollision.Cascade` says |
| Anticollision.ClearValuesAfterColl | libs/rfid-rs/src/lib.rs:302-303 | the CollReg update clears ValuesAfterColl and keeps the other bits |
| Anticollision.Select | libs/rfid-rs/src/lib.rs:296-300 | `select` answers Proprietary exactly when the ATQA does not have exactly one frame-size bit, and then leaves the device untouched |
| AnticollisionProperties.SelectNeedsBitFrameAnticollision | libs/rfid-rs/src/lib.rs:298-300 | Proprietary with no bus transaction happens exactly when not exactly one of the low five ATQA bits is set |
| Driver.Mfrc522.Select | libs/rfid-rs/src/lib.rs:296-410 | the method does exactly what `Anticollision.Select` says |
| Fifo.MergeByte | libs/rfid-rs/src/lib.rs:829-833 | the boundary byte keeps its bits below `dst_valid_bits % 8` and takes the received byte's bits from there up |
| Fifo.SpliceBits | libs/rfid-rs/src/lib.rs:823-838 | with no valid bytes the destination is unchanged. Otherwise byte `dst_valid_bits / 8` is merged, the next `valid_bytes - 1` bytes are `buffer[1..valid_bytes]`, and every other byte is unchanged |
| Fifo.CopyFromSlice | libs/rfid-rs/src/lib.rs:837 | `copy_from_slice` puts `src` at `lo` and leaves everything else unchanged |
| Fifo.CopyBitsTo | libs/rfid-rs/src/lib.rs:823-840 | the in-place copy leaves `dst[lo..hi]` as `SpliceBits` says and the rest of the array alone, and returns `dst_valid_bits + 8 * (valid_bytes - 1) + valid_bits` as a `u8` |
| Fifo.WrappingSum | libs/rfid-rs/src/lib.rs:839 | truncating the operands of the `u8` sum to 8 bits does not change the wrapped sum |
| Fifo.CopiedBitCountWraps | libs/rfid-rs/src/lib.rs:839 | the `u8` sum `copy_bits_to` returns equals `CopiedBitCount`: `(dst_valid_bits + 8 * (valid_bytes - 1) + valid_bits) mod 256` |
| Fifo.MergeAt | libs/rfid-rs/src/lib.rs:830-833 | the boundary-byte write changes only `dst[idx]`, to the `MergeByte` of its old value and the received byte |
| CardKey.PadTake | src/rfid/rfid_manger.rs:214-219 | the chain with `repeat(0)` and `take(n)` yields exactly `n` items |
| CardKey.PadTakeItems | src/rfid/rfid_manger.rs:214-219 | item `i` is `data[i]` while `data` lasts and zero after |
| CardKey.FallbackUnreachable | src/rfid/rfid_manger.rs:218-224 | `take(16)` always yields 16 items, so `try_into` to `[u8; 16]` always succeeds and the `[0; 16]` fallback is never used |
| CardKey.SliceToUuid | src/rfid/rfid_manger.rs:213-227 | no contract of its own; `CardKey.SliceToUuidBytes` and `CardKey.SliceToUuidPrefix` state its bytes |
| CardKey.SliceToUuidBytes | src/rfid/rfid_manger.rs:213-227 | key byte `i` is `data[i]` for `i < |data|` and zero up to 16 |
| CardKey.SliceToUuidPrefix | src/rfid/rfid_manger.rs:214-218 | the first `min(|data|, 16)` key bytes are `data`, the rest zero |
| CardKey.SliceToUuidTruncates | src/rfid/rfid_manger.rs:218 | bytes past the sixteenth do not affect the key |
| CardKey.TrailingZerosShareKey | src/rfid/rfid_manger.rs:217-218 | appending zeros does not change the key |
| CardKey.SliceToUuidInjective | src/rfid/rfid_manger.rs:213-227 | inputs of the same length up to 16 share a key exactly when equal |
| CardKey.KeyOf | src/rfid/rfid_manger.rs:153-164 | a card's key starts with its UID bytes and is zero after them |
| CardKey.KeyOfSameSize | src/rfid/rfid_manger.rs:153-164 | UIDs of the same size share a key exactly when their bytes are equal |
| CardKey.ZeroExtendedUidsShareKey | src/rfid/rfid_manger.rs:153-164 | a 4-byte UID and the 7-byte UID of the same bytes plus three zeros share a key |
| CardKey.PairCard | src/rfid/rfid_manger.rs:153 | pairing stores the path under the card's key and leaves every other key as it was |
| CardKey.LookupCard | src/rfid/rfid_manger.rs:164 | the lookup finds something exactly when the card's key is paired |
| CardKey.LookupAfterPair | src/rfid/rfid_manger.rs:153-164 | after pairing, every card with that key finds the path and every other card's lookup is unchanged |

## Left out

- SPI transport and chip select: `with_nss_low`, the NSS pin and the delay hook are hardware I/O. The log records only completed transactions.
- Write failures: the model's transport never fails a write, so the write-error paths (`map_err(Error::Spi)?` after `write`/`command`) are not modelled. A read fails only by running out of script, and the transport error is then `Spi(NoReply(reg))`.
- Register addresses: `read_address`/`write_address` and the SPI frame layout are not modelled; registers are compared by name. `register.rs` and `picc.rs` are not part of this model; the bit masks and command bytes take their MFRC522 data sheet and ISO/IEC 14443-3 values.
- CRC_A arithmetic is done by the IC's coprocessor and is not modelled. The CRC is whatever the scripted result registers return.
- Timing: the 25 ms timer, the 1 ms HLTA window and every wall-clock wait are represented only by the scripted interrupt bits.
- `Picc.Sak` is modelled as a byte with the cascade bit 0x04 and the ISO/IEC 14443-4 bit 0x20. `Uid::is_compliant` is `Picc.UidIsCompliant`, with no contract of its own.
- Driver.Mfrc522.CascadeLoop: the `'cascade` loop is split into per-level methods; the model has no per-level 32-round anticollision bound because the source has none. Termination follows from the finite script.
- Picc.MfRead: the number of bytes received (`valid_bytes`) is not checked, as in the source. The CRC is recomputed over `buffer[..16]` and compared with `buffer[16..18]`, whatever number of bytes arrived; the buffer is zero beyond them.
- Picc.IsAckShape: the acknowledge value `MIFARE_ACK` (0x0A) is never compared, as in the source; only the shape of the answer is checked.
- Fifo.CopyBitsTo: the `u8` sum of the returned bit count is modelled with wrap-around, and the `as u8` casts truncate, which never panics. Inside `select`, `known_bits` is at most 32 and the answer buffer holds 5 bytes, so the sum is at most 32 + 32 + 7 and the debug-build overflow panic cannot arise; for other callers that panic is not modelled. The only panics modelled are the slice indexing of `copy_bits_to`, as the `SliceOutOfRange` outcome.
- The rest of `src/rfid/rfid_manger.rs` is not modelled: the reader thread, its retry loop, the sled database, the mp4 header parsing and the channel sends are threads and storage I/O. The database is a `map` keyed by the `Uuid` bytes; its string encoding of the key is not modelled.
- Driver.Mfrc522.Init: the source's `init(mut self)` takes the driver by value, so after a failed `init` the caller no longer holds it; the model keeps the object, marked not initialized, and lets `Init` be called on it again.
- `release`, `new`, `with_nss` and `with_delay` only move ownership of the bus and pins.
