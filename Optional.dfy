/** An optional value: a Go result that may be absent (a nil pointer, a missing
    second part of a split). */
module Optional {
  datatype Option<+T> = None | Some(value: T)
}
