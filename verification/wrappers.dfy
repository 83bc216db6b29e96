/** The optional-value type shared by the widgets: `None` stands for the
    source's `null` (no food yet, a rejected expression, a NaN amount). */
module Wrappers {

  datatype Option<+T> = None | Some(value: T)
}
