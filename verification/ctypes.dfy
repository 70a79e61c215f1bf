/** The C types of the kernel's data model, as far as their limits matter here. */
module CTypes {
  type byte = b: int | 0 <= b < 256

  const INT_MAX: int := 0x7fff_ffff
  const UINT_LIMIT: nat := 0x1_0000_0000
  const SIZE_LIMIT: nat := 0x1_0000_0000_0000_0000

  // No object is longer than this.
  const PTRDIFF_LIMIT: nat := 0x8000_0000_0000_0000
}
