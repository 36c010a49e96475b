/** The optional value used for the script's "found / not found" outcomes,
    and `Min`, which bounds how many captures or reads a run gets through. */
module Wrappers {

  datatype Option<+T> = None | Some(value: T)

  function Min(a: nat, b: nat): nat
  {
    if a <= b then a else b
  }
}
