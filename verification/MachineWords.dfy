/** The largest values of the C++ integer types. */
module MachineWords {

  const INT_MAX: nat := 0x7FFF_FFFF
  const INT64_MAX: nat := 0x7FFF_FFFF_FFFF_FFFF
  const SIZE_MAX: nat := 0xFFFF_FFFF_FFFF_FFFF
}
