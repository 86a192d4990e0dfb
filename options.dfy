/** Python's `None`-or-value fields (`next_direction`, `last`, `new_head`). */
module Options {
  datatype Option<T> = None | Some(value: T)
}
