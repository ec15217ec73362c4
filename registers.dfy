/**
 * Names of the reader IC's registers and commands, the bit masks the driver tests, and the
 * card (PICC) command bytes. The register map itself is not part of this model: registers
 * are compared by name only. Numeric values follow the MFRC522 data sheet, ISO/IEC 14443-3
 * and the MIFARE Classic command set.
 */
module Registers {
  import opened Bits

  datatype Register =
    | CommandReg | ComIrqReg | DivIrqReg | ErrorReg | Status2Reg
    | FIFODataReg | FIFOLevelReg | ControlReg | BitFramingReg | CollReg
    | ModeReg | TxModeReg | RxModeReg | TxControlReg | TxASKReg | ModWidthReg
    | TModeReg | TPrescalerReg | TReloadRegHigh | TReloadRegLow
    | CRCResultRegHigh | CRCResultRegLow | VersionReg

  /** Commands of the reader IC, written to CommandReg. */
  datatype PcdCommand = Idle | CalcCRC | Transceive | MFAuthent | SoftReset

  function CommandCode(c: PcdCommand): byte
  {
    match c
    case Idle => 0x00
    case CalcCRC => 0x03
    case Transceive => 0x0C
    case MFAuthent => 0x0E
    case SoftReset => 0x0F
  }

  // ComIrqReg bits
  const TIMER_IRQ: byte := 0x01
  const ERR_IRQ: byte := 0x02
  const IDLE_IRQ: byte := 0x10
  const RX_IRQ: byte := 0x20
  // DivIrqReg bit
  const CRC_IRQ: byte := 0x04
  // ErrorReg bits
  const PROTOCOL_ERR: byte := 0x01
  const PARITY_ERR: byte := 0x02
  const CRC_ERR: byte := 0x04
  const COLL_ERR: byte := 0x08
  const BUFFER_OVFL: byte := 0x10
  const TEMP_ERR: byte := 0x40
  const WR_ERR: byte := 0x80
  // CommandReg, FIFOLevelReg and TxASKReg bits
  const POWER_DOWN: byte := 0x10
  const FLUSH_BUFFER: byte := 0x80
  const FORCE_100_ASK: byte := 0x40

  // Card commands (ISO/IEC 14443-3 and MIFARE Classic)
  const PICC_REQA: byte := 0x26
  const PICC_WUPA: byte := 0x52
  const PICC_HLTA: byte := 0x50
  const PICC_SEL_CL1: byte := 0x93
  const PICC_SEL_CL2: byte := 0x95
  const PICC_SEL_CL3: byte := 0x97
  const PICC_MF_AUTH_KEY_A: byte := 0x60
  const PICC_MF_READ: byte := 0x30
  const PICC_MF_WRITE: byte := 0xA0

  /** The 4-bit acknowledge a MIFARE card answers with (declared by the driver, never compared). */
  const MIFARE_ACK: byte := 0x0A
}
