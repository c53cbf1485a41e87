// The two-valued results used by every component: a pointer or index that may be NULL.
module Options {
  datatype Option<+T> = None | Some(value: T)
}
