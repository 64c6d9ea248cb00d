/** Small definitions that several solvers share. */
module Basics {

  datatype Option<T> = None | Some(value: T)

  /** `abs` on integers. */
  function Abs(x: int): nat {
    if x < 0 then -x else x
  }
}
