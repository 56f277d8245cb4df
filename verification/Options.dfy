module Options {
  datatype Option<+T> = None | Some(value: T)

  /** A JSON value that is read as a `T`: null, a `T`, or anything else, for which reading throws. */
  datatype Field<+T> = Absent | Is(v: T) | Wrong
}
