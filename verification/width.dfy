/** The fixed-width integers of the source and the casts between them. Dafny's integers are
    unbounded, so every truncation and wrap-around the source relies on is written out here. */
module Width {

  const U32_MODULUS: int := 0x1_0000_0000
  const I32_MIN: int := -0x8000_0000
  const I32_MAX: int := 0x7fff_ffff
  const USIZE_MODULUS: int := 0x1_0000_0000_0000_0000

  newtype u32 = x: int | 0 <= x < 0x1_0000_0000
  newtype i32 = x: int | -0x8000_0000 <= x < 0x8000_0000

  /** `n as u32` on an unsigned value: only the low 32 bits survive. */
  function Trunc32(n: nat): (r: u32)
    ensures n < U32_MODULUS ==> r as int == n
    ensures (n - r as int) % U32_MODULUS == 0
  {
    (n % U32_MODULUS) as u32
  }

  /** `a - b` on u32 as a release build computes it (a debug build panics when `b > a`). */
  function Sub32(a: u32, b: u32): (r: u32)
    ensures b <= a ==> r as int == a as int - b as int
    ensures a < b ==> r as int == U32_MODULUS + a as int - b as int
  {
    ((a as int - b as int) % U32_MODULUS) as u32
  }

  /** `x as i32` on a u32: the same 32 bits read in two's complement. */
  function AsI32(x: u32): (r: i32)
    ensures x as int <= I32_MAX ==> r as int == x as int
    ensures I32_MAX < x as int ==> r < 0
    ensures (x as int - r as int) % U32_MODULUS == 0
  {
    if x as int <= I32_MAX then x as int as i32 else (x as int - U32_MODULUS) as i32
  }

  /** `a + b` on i32 as a release build computes it (a debug build panics on overflow). */
  function WrapAdd32(a: i32, b: i32): (r: i32)
    ensures I32_MIN <= a as int + b as int <= I32_MAX ==> r as int == a as int + b as int
    ensures (a as int + b as int - r as int) % U32_MODULUS == 0
  {
    var s := (a as int + b as int - I32_MIN) % U32_MODULUS + I32_MIN;
    s as i32
  }

  /** `x as usize` on an i32 for a 64-bit target: sign extension, so a negative value becomes
      a number above every i32. */
  function AsUsize(x: i32): (r: nat)
    ensures 0 <= x ==> r == x as int
    ensures x < 0 ==> I32_MAX < r < USIZE_MODULUS
  {
    if 0 <= x then x as int else x as int + USIZE_MODULUS
  }

  function Max(a: int, b: int): int { if a < b then b else a }

  function Min(a: int, b: int): int { if a < b then a else b }
}
