/** The two Python exceptions the README synthesiser can raise on its own
    data, a result type that carries either a value or one of them, and an
    optional value for arguments that default to `None`. */
module Results {

  datatype Error =
    | IndexError            // a list index out of range
    | KeyError(key: string) // a dictionary lookup of a missing key

  datatype Result<T> = Ok(value: T) | Err(error: Error)

  datatype Option<T> = None | Some(value: T)
}
