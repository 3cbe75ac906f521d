/** Runs of consecutive sectors. */
module Extents {
  datatype Extent = Extent(startLba: nat, blockCount: nat)
}
