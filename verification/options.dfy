/** An optional value, used for PHP's `null`-or-value fields and for regex matches. */
module Options {

  datatype Option<T> = None | Some(value: T)
}
