/** The optional value used where the analyzed program has an absent value
    (a call without a receiver, a callable without an enclosing class, a file
    that could not be parsed). */
module Optional {

  datatype Option<+T> = None | Some(value: T)
}
