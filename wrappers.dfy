/** The "absent value" marker shared by every component: std::optional in the library. */
module Wrappers {

  datatype Option<+T> = None | Some(value: T)
}
