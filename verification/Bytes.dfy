/** Vocabulary shared by the other modules: bytes and optional results. */
module Bytes {

  /** An `unsigned char`. */
  type byte = b: int | 0 <= b < 256

  datatype Option<+T> = None | Some(value: T)

  /** The concatenation of a list of byte or character strings. */
  ghost function Concat<T>(parts: seq<seq<T>>): seq<T> {
    if parts == [] then [] else parts[0] + Concat(parts[1..])
  }
}
