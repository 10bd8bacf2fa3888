/** An optional value, for the allocator's NULL results and partial walks. */
module Options {
  datatype Option<T> = None | Some(value: T)
}
