/** The fixed-width integer types and the iteration bound shared by the
    programs (mandel.h). The programs assert at start-up that U32, U16 and
    U8 are 4, 2 and 1 bytes wide; here the widths are part of the types. */
module MandelH {

  newtype u8 = x: int | 0 <= x < 0x100
  newtype u16 = x: int | 0 <= x < 0x1_0000
  newtype u32 = x: int | 0 <= x < 0x1_0000_0000

  /** PIXELVAL: one iteration count per grid cell. */
  type PixelVal = u32

  /** MAXITERATION: the iteration bound CalcMandel passes for every point. */
  const MaxIteration: int := 2000

  /** Largest value of a C `int`; the programs compute sizes and indices in `int`. */
  const Int32Max: int := 0x7fff_ffff

  /** Conversion of a non-negative `int` to `unsigned char`: reduction modulo 2^8. */
  function ToU8(v: int): (b: u8)
    requires 0 <= v
    ensures v < 0x100 ==> b as int == v
  {
    (v % 0x100) as u8
  }
}
