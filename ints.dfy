/** Rust's fixed-width integers and the `as` casts between them (two's complement truncation). */
module Ints {
  type u8 = x: int | 0 <= x < 0x100
  type i16 = x: int | -0x8000 <= x < 0x8000
  type u16 = x: int | 0 <= x < 0x1_0000
  type u32 = x: int | 0 <= x < 0x1_0000_0000
  type i64 = x: int | -0x8000_0000_0000_0000 <= x < 0x8000_0000_0000_0000
  type u64 = x: int | 0 <= x < 0x1_0000_0000_0000_0000

  /** `x as u8` for any integer `x`: keeps the low 8 bits. */
  function WrapU8(x: int): (r: u8)
    ensures 0 <= x < 0x100 ==> r == x
  {
    x % 0x100
  }

  /** `x as u32` for any integer `x`: keeps the low 32 bits. */
  function WrapU32(x: int): (r: u32)
    ensures 0 <= x < 0x1_0000_0000 ==> r == x
  {
    x % 0x1_0000_0000
  }

  /** `x as i16`: keeps the low 16 bits, read as a signed value. */
  function WrapI16(x: int): (r: i16)
    ensures -0x8000 <= x < 0x8000 ==> r == x
  {
    var m := x % 0x1_0000;
    if m >= 0x8000 then m - 0x1_0000 else m
  }

  /** `x as i64` for any integer `x`: keeps the low 64 bits, read as a signed value. */
  function WrapI64(x: int): (r: i64)
    ensures -0x8000_0000_0000_0000 <= x < 0x8000_0000_0000_0000 ==> r == x
  {
    var m := x % 0x1_0000_0000_0000_0000;
    if m >= 0x8000_0000_0000_0000 then m - 0x1_0000_0000_0000_0000 else m
  }

  /** `x as u64` for any integer `x`: keeps the low 64 bits. */
  function WrapU64(x: int): (r: u64)
    ensures 0 <= x < 0x1_0000_0000_0000_0000 ==> r == x
  {
    x % 0x1_0000_0000_0000_0000
  }

  /** Casting a `u64` to `i64` and back is the identity. */
  lemma U64I64RoundTrip(x: u64)
    ensures WrapU64(WrapI64(x)) == x
  {
  }

  /** Casting a `u32` through `i64` and back is the identity. */
  lemma U32I64RoundTrip(x: u32)
    ensures WrapU32(WrapI64(x)) == x
  {
  }
}
