/** The optional value used wherever the modelled Java code either yields a
    value or throws (a parse that fails, an array index that is missing). */
module Options {

  datatype Option<+T> = None | Some(value: T)
}
