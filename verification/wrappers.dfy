/** The optional value used for an empty room slot (the source's `null`) and for an absent bill. */
module Wrappers {

  datatype Option<+T> = None | Some(value: T)
}
