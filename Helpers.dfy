/** The page's small stand-alone helper functions. */
module Helpers {

  /** `myXOR`: true exactly when one of the two arguments is true and the other is not. */
  function Xor(a: bool, b: bool): (r: bool)
    ensures r <==> a != b
  {
    (a || b) && !(a && b)
  }
}
