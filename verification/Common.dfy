/** What several of the models need: an optional value, a byte, and the smaller of two numbers. */
module Common {

  datatype Option<T> = None | Some(value: T)

  type byte = b: nat | b < 256

  function Min(a: nat, b: nat): nat {
    if a < b then a else b
  }
}
