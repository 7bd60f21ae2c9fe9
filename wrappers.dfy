/** The optional value returned by URL resolution, which can fail. */
module Wrappers {

  datatype Option<+T> = None | Some(value: T)

}
