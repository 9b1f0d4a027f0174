/** Sizes that several parts of the kernel share. */
module Layout {
  const NUM_TERMS: nat := 3
  const FOUR_KB: nat := 4096
}
