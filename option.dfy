/** A cell of the table: a number, or the missing marker (pandas' NaN). */
module Optional {

  datatype Option<+T> = None | Some(value: T)
}
