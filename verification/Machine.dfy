/** Bytes, and the greatest values of the machine's integer types. */
module Machine {
  type Byte = bv8
  type Bytes = seq<Byte>

  const UINT32_MAX: nat := 0xFFFF_FFFF
  const SIZE_MAX: nat := 0xFFFF_FFFF_FFFF_FFFF
}
