/** A value that may be missing: pandas' NaN / NaT / None in a column. */
module Optional {
  datatype Option<+T> = None | Some(value: T)
}
