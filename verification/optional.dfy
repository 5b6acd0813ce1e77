/** Values that may be absent: an mmap outcome, a block index that may be
    missing, a result that may be NULL. */
module Optional {
  datatype Option<T> = None | Some(value: T)
}
