/** The fixed-width unsigned integers of the server and the three pieces of
    machine arithmetic it relies on: `wrapping_add`, `saturating_sub` and
    the truncating `as` cast. */
module MachineInts {

  newtype u8 = x: int | 0 <= x < 0x100
  newtype u16 = x: int | 0 <= x < 0x1_0000
  newtype u32 = x: int | 0 <= x < 0x1_0000_0000
  newtype u64 = x: int | 0 <= x < 0x1_0000_0000_0000_0000

  const U32_MODULUS: int := 0x1_0000_0000

  /** `u32::wrapping_add`: the sum taken modulo 2^32. */
  function WrappingAddU32(a: u32, b: u32): (r: u32)
    ensures r as int == (a as int + b as int) % U32_MODULUS
  {
    if a as int + b as int < U32_MODULUS then a + b
    else (a as int + b as int - U32_MODULUS) as u32
  }

  /** `u16::saturating_sub`: the difference, clamped at zero instead of
      wrapping below it. */
  function SaturatingSubU16(a: u16, b: u16): (r: u16)
    ensures a >= b ==> r as int == a as int - b as int
    ensures a < b ==> r == 0
    ensures r <= a
  {
    if a >= b then a - b else 0
  }

  /** The `as u8` cast of Rust on a non-negative value: keep the low 8 bits. */
  function TruncateU8(x: nat): (r: u8)
    ensures x < 0x100 ==> r as int == x
  {
    (x % 0x100) as u8
  }

  /** The `as u16` cast of Rust on a non-negative value: keep the low 16 bits. */
  function TruncateU16(x: nat): (r: u16)
    ensures x < 0x1_0000 ==> r as int == x
  {
    (x % 0x1_0000) as u16
  }
}
