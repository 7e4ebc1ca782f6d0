/** The optional value shared by the threshold scan and the maze solver's report. */
module Wrappers {
  datatype Option<T> = None | Some(value: T)
}
