/** An optional value, shared by the argument pass (the input file) and the
    copy loop (the sleep of a pass). */
module Options {
  datatype Option<T> = None | Some(value: T)
}
