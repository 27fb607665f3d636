/** Machine integers, bytes and the result types shared by every other module. */
module Prelude {

  type byte = b: int | 0 <= b < 256
  type u32 = n: int | 0 <= n < TWO_32

  const TWO_32: int := 0x1_0000_0000
  const U32_MAX: int := 0xFFFF_FFFF

  datatype Option<+T> = None | Some(value: T) {
    function GetOr(default: T): T {
      if Some? then value else default
    }
  }

  datatype Result<+T, +E> = Ok(value: T) | Err(error: E)

  /** Rust's `n as u32` on a wider unsigned integer: the low 32 bits. */
  function AsU32(n: nat): (r: u32)
    ensures r == n % 0x1_0000_0000
  {
    if n < TWO_32 then n else n % TWO_32
  }

  /** `2^n`: a shift to the left by `n` multiplies by it, one to the right divides by it. */
  function Pow2(n: nat): (p: nat)
    ensures p > 0
  {
    if n == 0 then 1 else 2 * Pow2(n - 1)
  }
}
