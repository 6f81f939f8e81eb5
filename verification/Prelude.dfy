/** Small shared datatypes and the width-limited integers of the source. */
module Prelude {

  datatype Option<+T> = None | Some(value: T)

  /** A fallible outcome whose diagnostic text is not modelled. */
  datatype Result<+T> = Ok(value: T) | Err

  type byte = x: int | 0 <= x < 0x100
  type i32 = x: int | -0x8000_0000 <= x < 0x8000_0000
  type u64 = x: int | 0 <= x < 0x1_0000_0000_0000_0000

  const TWO_64: int := 0x1_0000_0000_0000_0000

  ghost predicate NoRepeats<T>(s: seq<T>) {
    forall i, j :: 0 <= i < j < |s| ==> s[i] != s[j]
  }
}
