/**
 * Machine integer widths of the 64-bit RISC-V target and the configuration
 * constants the task manager and the syscall layer rely on.
 */
module Config {
  const USIZE_MODULUS: int := 0x1_0000_0000_0000_0000
  const U32_MODULUS: int := 0x1_0000_0000
  const U32_MAX: int := 0xFFFF_FFFF

  /** Rust's `usize` on a 64-bit target. */
  type Usize = x: int | 0 <= x < 0x1_0000_0000_0000_0000
  /** Rust's `isize` on a 64-bit target. */
  type Isize = x: int | -0x8000_0000_0000_0000 <= x < 0x8000_0000_0000_0000
  /** Rust's `i32`. */
  type I32 = x: int | -0x8000_0000 <= x < 0x8000_0000
  /** Rust's `u32`. */
  type U32 = x: int | 0 <= x < 0x1_0000_0000

  /** Number of syscall counters each task keeps (`config::MAX_SYSCALL_NUM`). */
  const MAX_SYSCALL_NUM: nat := 500

  /** Page size of the Sv39 paging scheme: 4 KiB, a 12-bit page offset. */
  const PAGE_SIZE_BITS: nat := 12
  const PAGE_SIZE: nat := 4096

  /** `x += 1` on a `u32` in a release build: arithmetic modulo 2^32. */
  function WrappingIncU32(x: U32): (r: U32)
    ensures r == (x + 1) % U32_MODULUS
    ensures x < U32_MAX ==> r == x + 1
  {
    if x == U32_MAX then 0 else x + 1
  }

  /** `a - b` on `usize` in a release build: arithmetic modulo 2^64. */
  function WrappingSub(a: Usize, b: Usize): (r: Usize)
    ensures r == (a - b) % USIZE_MODULUS
    ensures b <= a ==> r == a - b
  {
    if b <= a then a - b else a - b + USIZE_MODULUS
  }
}
