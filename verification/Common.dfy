/** Bytes and C's size limits. */
module Common {

  type byte = b: int | 0 <= b < 256

  const SIZE_MAX: nat := 0xFFFF_FFFF_FFFF_FFFF
  const SSIZE_MAX: nat := 0x7FFF_FFFF_FFFF_FFFF

  const TWO_TO_THE_31: int := 0x8000_0000
  const TWO_TO_THE_32: int := 0x1_0000_0000
  const TWO_TO_THE_63: int := 0x8000_0000_0000_0000
  const TWO_TO_THE_64: int := 0x1_0000_0000_0000_0000
  const INT_MAX: int := 0x7FFF_FFFF

  /** The conversion of an integer of any width to int. */
  function ToInt(x: int): (n: int)
    ensures -TWO_TO_THE_31 <= n < TWO_TO_THE_31
    ensures n < 0 <==> x % TWO_TO_THE_32 >= TWO_TO_THE_31
    ensures 0 <= x < TWO_TO_THE_31 ==> n == x
    ensures n == -1 <==> x % TWO_TO_THE_32 == TWO_TO_THE_32 - 1
  {
    if x % TWO_TO_THE_32 < TWO_TO_THE_31 then x % TWO_TO_THE_32 else x % TWO_TO_THE_32 - TWO_TO_THE_32
  }

  datatype Option<+T> = None | Some(value: T)
}
