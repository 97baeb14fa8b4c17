/** The result of an operation that copies an element out: the C functions
    return `false` and leave the caller's buffer alone (`None`), or return
    `true` having copied an element into it (`Some`). */
module Optional {
  datatype Option<T> = None | Some(value: T)
}
