/** What several modules share. */
module Wrappers {
  datatype Option<+T> = None | Some(value: T)

  lemma Associate(a: string, b: string, c: string)
    ensures (a + b) + c == a + (b + c)
  {
  }
}
