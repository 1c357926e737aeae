/** The optional value used for operations of the proxy that can throw: `None` stands for
    the thrown exception, `Some` for a normal return. */
module Optional {

  datatype Option<+T> = None | Some(value: T)
}
