/** The optional value the model uses where the script gets back `undefined`
    (for instance from `Array.prototype.find`). */
module Wrappers {

  datatype Option<+T> = None | Some(value: T)
}
