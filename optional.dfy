/** The optional value the evaluator returns: `None` marks an expression that
    cannot be evaluated (a division by zero somewhere in its evaluation order). */
module Optional {

  datatype Option<T> = None | Some(value: T)
}
