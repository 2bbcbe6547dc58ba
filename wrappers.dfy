/** The optional value the engine passes around: an editor that may be
    absent, and the result of one search step that may find nothing. */
module Wrappers {

  datatype Option<+T> = None | Some(value: T)

}
