/** Machine integer widths and the result shapes shared by the TCP engine and
    the connection manager. */
module Common {

  type uint8 = x: int | 0 <= x < 0x100
  type uint16 = x: int | 0 <= x < 0x1_0000
  type uint32 = x: int | 0 <= x < 0x1_0000_0000

  datatype Option<+T> = None | Some(value: T)

  /** The `io::ErrorKind`s the stack reports to its callers. */
  datatype ErrorKind = AddrInUse | ConnectionAborted | WouldBlock

  /** Why a call panics instead of returning: `unimplemented!()`, a failed
      `expect`, a failed `assert!`, an integer overflow in a debug build, or
      `copy_from_slice` on slices of different lengths. */
  datatype Fault = Unimplemented | ExpectFailed | AssertFailed | Overflow | LengthMismatch

  /** What a call does: returns a value, returns an `io::Error`, or panics. */
  datatype Outcome<+T> = Ok(value: T) | Err(kind: ErrorKind) | Panic(fault: Fault)

  function Min(a: int, b: int): int
  {
    if a <= b then a else b
  }

  /** `a + b` on `u32` in a debug build: `None` stands for the overflow panic. */
  function CheckedAdd(a: uint32, b: uint32): Option<uint32>
  {
    if a + b < 0x1_0000_0000 then Some(a + b) else None
  }

  /** `a - b` on `u32` in a debug build: `None` stands for the overflow panic. */
  function CheckedSub(a: uint32, b: uint32): Option<uint32>
  {
    if b <= a then Some(a - b) else None
  }
}
