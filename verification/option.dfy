/** An optional value: a query that may find no row, a lookup that may find
    no disk. */
module Optional {
  datatype Option<+T> = None | Some(value: T)
}
