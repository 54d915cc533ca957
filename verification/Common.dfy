/** Result types shared by the components. */
module Common {
  datatype Option<+T> = None | Some(value: T)

  /** A Rust `Result` whose error text is not modelled. */
  datatype Result<+T> = Ok(value: T) | Err

  newtype byte = b: int | 0 <= b < 256

  function Min(a: int, b: int): int {
    if a <= b then a else b
  }

  const LF: byte := 10
  const CR: byte := 13

  /** A line without the carriage return that may end it. */
  function StripCr(line: seq<byte>): seq<byte> {
    if line != [] && line[|line| - 1] == CR then line[..|line| - 1] else line
  }
}
