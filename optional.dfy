/** An optional value: stands for a Python attribute that may be `None`
    and for a session-state key that may be absent. */
module Optional {

  datatype Option<+T> = None | Some(value: T)
}
