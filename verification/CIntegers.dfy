/** The limits of a C int. */
module CIntegers {
  const INT_MIN := -0x8000_0000
  const INT_MAX := 0x7fff_ffff
}
