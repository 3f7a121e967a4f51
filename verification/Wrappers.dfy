/** Small definitions that several modules share. */
module Wrappers {
  datatype Option<+T> = None | Some(value: T)

  /** One more than the largest 64-bit value. */
  const U64: nat := 0x1_0000_0000_0000_0000

  /** 4 GiB. */
  const GIB4: nat := 0x1_0000_0000

  function Min(a: nat, b: nat): nat {
    if a < b then a else b
  }

  function Max(a: nat, b: nat): nat {
    if a > b then a else b
  }
}
