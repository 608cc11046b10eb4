/** A value that may be absent, standing for the program's null pointers. */
module Options {

  datatype Option<+T> = None | Some(value: T)

  /** The value, if any, as a list. */
  function Held<T>(o: Option<T>): seq<T> {
    match o case None => [] case Some(v) => [v]
  }
}
