/** The value-or-nothing wrapper used wherever the JavaScript code returns
    `undefined` or `null` in place of a result. */
module Wrappers {

  datatype Option<+T> = None | Some(value: T)
}
