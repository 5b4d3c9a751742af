/** The optional value shared by every module of the model (a nullable
    column, an absent request field, a null id). */
module Wrappers {
  datatype Option<T> = None | Some(value: T)
}
