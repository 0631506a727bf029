/** Types, constants and result codes shared by the components. */
module Common {

  type byte = x: int | 0 <= x < 256

  const NUL: byte := 0
  const DOT: byte := 46
  const SEPARATOR: byte := 47

  /** The result codes that the modelled functions can return. */
  datatype Result =
    | Ok
    | Err
    | NoMemory
    | InvalidParameter
    | InvalidPath
    | InvalidAlignment
    | InvalidPointer

  datatype Option<+T> = None | Some(value: T)
}
