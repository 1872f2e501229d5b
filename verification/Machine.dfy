/** The fixed-width C integers the library computes with.  They are subset types of
    `int`, so every place where C would have to fit a value into its type is an
    obligation here, and a cast that truncates is written out as a function. */
module Machine {

  const INT32_MIN: int := -0x8000_0000
  const INT32_MAX: int := 0x7fff_ffff
  const UINT32_MAX: int := 0xffff_ffff
  const TWO_32: int := 0x1_0000_0000
  const TWO_64: int := 0x1_0000_0000_0000_0000

  type int32 = x: int | -0x8000_0000 <= x <= 0x7fff_ffff
  type uint32 = x: int | 0 <= x <= 0xffff_ffff
  type uint8 = x: int | 0 <= x <= 0xff
  type int64 = x: int | -0x8000_0000_0000_0000 <= x <= 0x7fff_ffff_ffff_ffff

  datatype Option<+T> = None | Some(value: T)

  function Max(a: int, b: int): int { if a > b then a else b }

  function Min(a: int, b: int): int { if a < b then a else b }

  function Abs(x: int): int { if x < 0 then -x else x }

  /** Two's complement conversion to `int32_t`. */
  function ToInt32(x: int): (r: int32)
    ensures INT32_MIN <= x <= INT32_MAX ==> r == x
    ensures INT32_MAX < x <= INT32_MAX + TWO_32 ==> r == x - TWO_32
  {
    (x - INT32_MIN) % TWO_32 + INT32_MIN
  }
}
