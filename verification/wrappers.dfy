/** The optional-value type used for the page's nullable values: a missing
    attribute and an absent storage entry are both `None`. */
module Wrappers {

  datatype Option<+T> = None | Some(value: T)
}
