/** Masks that a sixteen- or eight-byte compare leaves, one flag a lane. */
module Lanes {

  /** Bit scan: the lowest set lane from `from` on, or the width of the mask. */
  function NextLane(mask: seq<bool>, from: nat): (b: nat)
    requires from <= |mask|
    ensures from <= b <= |mask|
    ensures b < |mask| ==> mask[b]
    ensures forall k :: from <= k < b ==> !mask[k]
    decreases |mask| - from
  {
    if from == |mask| || mask[from] then from else NextLane(mask, from + 1)
  }
}
