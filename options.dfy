/** The optional-value wrapper used for missing occurrences, failed host evaluations and
    renders that throw. */
module Options {

  datatype Option<T> = None | Some(value: T)
}
