/** Results, optional values and byte strings shared by every component. */
module Wrappers {

  datatype Option<+T> = None | Some(value: T)

  datatype Result<+T> = Ok(value: T) | Err

  /** What an operation that returns only an error reports. */
  datatype Status = Done | Failed

  type Bytes = seq<bv8>

  /** Byte strings of one length, compared as memcmp does: the first byte that differs decides. */
  predicate Lex(a: Bytes, b: Bytes)
    requires |a| == |b|
  {
    a != [] && (a[0] < b[0] || (a[0] == b[0] && Lex(a[1..], b[1..])))
  }
}
