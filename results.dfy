/** The single failure outcome of the parser: every exception the Python code can
    raise on malformed input (an exhausted continuation, a blank continuation line,
    a target line the target grammar does not match, a recursion that never ends)
    is modelled as `None`. */
module Results {

  datatype Option<+T> = None | Some(value: T)
}
