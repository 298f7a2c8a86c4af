/** The optional-value datatype shared by the three widget models: it stands
    for JavaScript's `null` next to a present value. */
module Wrappers {

  datatype Option<+T> = None | Some(value: T)
}
