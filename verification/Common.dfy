/** What several modules share. */
module Common {
  const TWO31: nat := 0x8000_0000
  const TWO32: nat := 0x1_0000_0000

  datatype Option<+T> = None | Some(value: T)
}
