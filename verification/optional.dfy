/** The optional-value datatype the model uses for Go's "value or panic" and
    "value or stat error" returns. */
module Optional {

  datatype Option<+T> = None | Some(value: T)
}
