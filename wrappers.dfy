/** The optional value the model returns where the source returns `Option`,
    or where a call may not finish (see `GenerateStorageFile`). */
module Wrappers {

  datatype Option<+T> = None | Some(value: T)
}
