/** Byte-level vocabulary shared by the line scanner and the tracker. */
module Common {

  /** One byte of the monitored file, as Go's `byte`. */
  newtype byte = b: int | 0 <= b < 256

  /** The contents of a file: its bytes in order. */
  type Bytes = seq<byte>

  /** The line terminator `'\n'` that `bufio.Reader.ReadLine` splits on. */
  const LF: byte := 10

  datatype Option<+T> = None | Some(value: T)

  function Min(a: int, b: int): (m: int)
    ensures m <= a && m <= b && (m == a || m == b)
  {
    if a <= b then a else b
  }
}
