/** An optional value, used for lookups that may find nothing and for
    transitions that are not enabled in the current state. */
module Opt {

  datatype Option<+T> = None | Some(value: T)

}
