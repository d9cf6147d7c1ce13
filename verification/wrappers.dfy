/** The nullable values of the source (`number | null`) as an Option. */
module Wrappers {

  datatype Option<+T> = None | Some(value: T)
}
