/** The optional-value type shared by the model: `None` stands for Python's
    `None` and for an operation whose exception the source catches. */
module Wrappers {

  datatype Option<+T> = None | Some(value: T)
}
