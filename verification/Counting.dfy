/** Counting by ones and zeros. */
module Counting {

  ghost function Bit(b: bool): nat {
    if b then 1 else 0
  }
}
