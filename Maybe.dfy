/** A missing-value marker: pandas' NaN for "not enough data", made explicit. */
module Maybe {
  datatype Option<+T> = None | Some(value: T)
}
