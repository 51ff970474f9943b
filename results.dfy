/** The `{ data, error }` shape the source threads through every awaited call
    (src/utils/index.ts), as failure-carrying datatypes. */
module Results {

  datatype Option<+T> = None | Some(value: T)

  datatype Result<+T, +E> = Ok(value: T) | Err(error: E)
}
