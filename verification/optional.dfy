/** A value that may be absent: an attempted command, an issued request URL, a parsed command. */
module Optional {

  datatype Option<+T> = None | Some(value: T)
}
