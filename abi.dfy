/** Vocabulary shared by every translator: bytes, optional values, how a
    wrapper ends, what a host system call produced, and C's integer
    conversions between the host's wide fields and the legacy ABI's narrow ones. */
module Abi {

  type byte = bv8

  datatype Option<T> = None | Some(value: T)

  /** How a wrapper call ends: the process exits through err()/errx()
      (EXIT_FAILURE), or the wrapper returns the given value. */
  datatype Outcome = Exit | Return(value: int)

  /** What a host system call produced: its result, or failure with the
      errno it left behind. */
  datatype HostResult<T> = Ok(value: T) | Err(errno: int)

  /** Unsigned fixed-width fields of the C structures. */
  type u16 = x: int | 0 <= x < 0x1_0000
  type u32 = x: int | 0 <= x < 0x1_0000_0000

  /** Signed fixed-width fields of the host structures. */
  type i16 = x: int | -0x8000 <= x < 0x8000
  type i32 = x: int | -0x8000_0000 <= x < 0x8000_0000

  /** C's conversion of an integer to an unsigned N-bit field keeps the
      value modulo 2^N (this is Dafny's Euclidean %, also for negatives). */
  function U16(x: int): u16 {
    x % 0x1_0000
  }

  function U32(x: int): u32 {
    x % 0x1_0000_0000
  }

  /** Reading an unsigned 16-bit value through a signed 16-bit field
      (two's complement, as gcc does). */
  function S16(x: u16): (r: i16)
    ensures U16(r) == x
  {
    if x < 0x8000 then x else x - 0x1_0000
  }

  /** Reading an unsigned 32-bit value through a signed 32-bit field. */
  function S32(x: u32): (r: i32)
    ensures U32(r) == x
  {
    if x < 0x8000_0000 then x else x - 0x1_0000_0000
  }

  /** A signed 16-bit value is fixed by its 16 bits: S16 is the only one. */
  lemma S16Unique(r: i16, x: u16)
    requires U16(r) == x
    ensures r == S16(x)
  {
  }

  /** A signed 32-bit value is fixed by its 32 bits: S32 is the only one. */
  lemma S32Unique(r: i32, x: u32)
    requires U32(r) == x
    ensures r == S32(x)
  {
  }
}
