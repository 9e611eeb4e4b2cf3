/** The optional value used for a price or an average that pandas stores as NaN. */
module Wrappers {

  datatype Option<+T> = None | Some(value: T)
}
