/** Values shared by every module of the model. */
module Common {
  /** A value that JavaScript may leave `undefined`. */
  datatype Option<T> = None | Some(value: T)

  /** Identifier the reporting client hands out for a started launch or item. */
  type Id = nat
}
