/** The optional value used where the program either has a result or has none
    (a statistical routine that raised, a metric with no data). */
module Wrappers {
  datatype Option<+T> = None | Some(value: T)
}
