/** The conventional present/absent result, used where the C code uses NULL or a status flag. */
module Options {
  datatype Option<+T> = None | Some(value: T)
}
