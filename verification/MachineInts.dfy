/** The fixed-width integers of the C++ source, with wrap-around and casts written out. */
module MachineInts {

  const TWO31: int := 0x8000_0000
  const TWO32: int := 0x1_0000_0000
  const TWO64: int := 0x1_0000_0000_0000_0000

  type u8 = x: int | 0 <= x < 0x100
  type u32 = x: int | 0 <= x < 0x1_0000_0000
  type u64 = x: int | 0 <= x < 0x1_0000_0000_0000_0000
  type i32 = x: int | -0x8000_0000 <= x < 0x8000_0000

  /** uint64_t addition. */
  function Add64(a: u64, b: u64): u64 {
    if a + b < TWO64 then a + b else a + b - TWO64
  }

  /** A uint64_t counter shows n, unless n is too large for it. */
  predicate Shows(counter: u64, n: nat) {
    n < TWO64 ==> counter == n
  }

  /** uint64_t subtraction: borrows from 2^64 when b > a. */
  function Sub64(a: u64, b: u64): u64 {
    if b <= a then a - b else a - b + TWO64
  }

  /** uint64_t multiplication. */
  function Mul64(a: u64, b: u64): u64 {
    (a * b) % 0x1_0000_0000_0000_0000
  }

  /** uint32_t addition. */
  function Add32(a: u32, b: u32): u32 {
    if a + b < TWO32 then a + b else a + b - TWO32
  }

  /** static_cast<int32_t>(uint32_t), two's complement. */
  function ToI32(x: u32): i32 {
    if x < TWO31 then x else x - TWO32
  }

  /** static_cast<uint32_t>(int32_t), two's complement. */
  function ToU32(x: i32): u32 {
    if 0 <= x then x else x + TWO32
  }

  /** static_cast<uint64_t>(int32_t): sign extension. */
  function ToU64(x: i32): u64 {
    if 0 <= x then x else x + TWO64
  }

  function Min(a: int, b: int): int {
    if a <= b then a else b
  }
}
