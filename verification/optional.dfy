/** A value that may be absent: a JavaScript `undefined`/`null` result, or a
    search that found nothing. */
module Optional {
  datatype Option<+T> = None | Some(value: T)
}
