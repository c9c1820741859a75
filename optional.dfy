/** An optional value: used for operations of the environment that may fail
    (reading a file's size) and for searches that may find nothing. */
module Optional {

  datatype Option<+T> = None | Some(value: T)

}
