/** A value that pandas may hold as NaN: a missing cell, or a coercion that failed. */
module Options {
  datatype Option<T> = None | Some(value: T)
}
