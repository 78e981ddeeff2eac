/** An optional value, standing for the source's nullable pointers and
    "not found" results. */
module Optional {
  datatype Option<T> = None | Some(value: T)
}
