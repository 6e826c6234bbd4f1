/** Machine integers, failure types and constants shared by the whole model. */
module Basics {

  datatype Option<+T> = None | Some(value: T)

  datatype Result<+T> = Ok(value: T) | Err(error: Error)

  /** The reasons for a failure; wrapping and printing of errors is not modelled.
      `Panic` is no returned error: there the program panics. */
  datatype Error =
    | EndOfFile
    | UnexpectedEndOfFile
    | IncompleteStream
    | LengthOverflow
    | DataValueNotAccepted
    | DataTypeNotAccepted
    | DataKeyNotAccepted
    | DataKeyMissing
    | External
    | Panic

  const TWO_TO_THE_32 := 0x1_0000_0000
  const TWO_TO_THE_64 := 0x1_0000_0000_0000_0000
  const MAX_U32 := 0xFFFF_FFFF

  type byte = b: int | 0 <= b < 0x100
  type u32 = v: int | 0 <= v < 0x1_0000_0000
  type u64 = v: int | 0 <= v < 0x1_0000_0000_0000_0000
  type i64 = v: int | -0x8000_0000_0000_0000 <= v < 0x8000_0000_0000_0000

  /** `v<<8 + b` on 32-bit words. */
  function Shift(v: u32, b: byte): u32 {
    if v < 0x100_0000 then v * 0x100 + b else (v * 0x100 + b) % TWO_TO_THE_32
  }
}
