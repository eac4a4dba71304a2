// Bytes, options, and small integer functions.
module Bytes {
  type byte = b: int | 0 <= b < 0x100

  datatype Option<+T> = None | Some(value: T)

  function Max0(a: int): nat { if a < 0 then 0 else a }

  function Min(a: int, b: int): int { if a < b then a else b }

  predicate IsInt32(v: int) { -0x8000_0000 <= v < 0x8000_0000 }

  // isspace() in the C locale
  predicate IsSpace(c: char) {
    c in [' ', '\t', '\n', '\U{0B}', '\U{0C}', '\r']
  }

  predicate AllSpace(w: string) {
    forall i :: 0 <= i < |w| ==> IsSpace(w[i])
  }
}
