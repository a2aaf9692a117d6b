/** C strings as values, and the heap blocks that hold copies of them. */
module CStrings {

  /** A character of a C string: any byte but the terminator. */
  type CByte = b: bv8 | b != 0 witness 1

  type CString = seq<CByte>

  /** A pointer-valued argument or result: NULL or a C string. */
  datatype Option<+T> = None | Some(value: T)
}
