/** The nullable-value wrapper used throughout the model: `None` stands for
    JavaScript's `null`/`undefined`. */
module Wrappers {

  datatype Option<+T> = None | Some(value: T)
}
