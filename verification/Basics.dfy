/** What several modules share: optional values and ASCII digits. */
module Basics {

  datatype Option<+T> = None | Some(value: T)

  predicate IsDigit(c: char) {
    '0' <= c <= '9'
  }
}
