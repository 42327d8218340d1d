/** Machine arithmetic shared by several models. */
module Arithmetic {

  /** `saturating_sub` of unsigned integers. */
  function SaturatingSub(a: nat, b: nat): nat {
    if b <= a then a - b else 0
  }
}
