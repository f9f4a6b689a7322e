/** What the modules share: optional values and the sizes of words and pages. */
module Base {

  datatype Option<T> = None | Some(value: T)

  /** The number of values of a 32-bit word. */
  const WORD: int := 0x1_0000_0000

  const PAGE_SIZE: nat := 4096
}
