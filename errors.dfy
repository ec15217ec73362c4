/** The driver's error taxonomy and its result types. */
module Errors {
  import opened Registers

  /** What the transport reports; opaque to the driver, which only passes it on. */
  datatype BusFault = NoReply(reg: Register)

  datatype Error =
    | Bcc              // wrong block check character
    | BufferOverflow   // FIFO buffer overflow
    | Collision
    | Crc              // wrong CRC
    | IncompleteFrame  // incomplete receive frame
    | NoRoom           // provided buffer not large enough
    | Overheating      // internal temperature sensor
    | Parity
    | Protocol         // error during MFAuthent
    | Spi(fault: BusFault)
    | Timeout
    | Wr               // FIFO buffer written at an invalid time
    | Nak              // not acknowledge
    | Proprietary      // proprietary frames, commands or protocols
    | LostCommunication

  datatype Result<T> = Ok(value: T) | Err(error: Error)

  /** Where a Rust panic (an index out of range, `unreachable!()`) stops the driver. */
  datatype PanicSite = SliceOutOfRange | UnreachableCascadeLevel

  /** The outcome of an operation that can also panic. */
  datatype Outcome<T> = Returned(result: Result<T>) | Panicked(site: PanicSite)
}
