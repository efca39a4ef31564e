/** Failure-carrying datatypes shared by every handler of the catalog. */
module Results {

  /** The failure kinds a handler reports. `ServerError` stands for an
      exception that the handler's catch-all turns into a 500 response,
      other than a schema validation failure at `save()`: the source answers
      that with the same 500, and the model reports it as `InvalidInput`. */
  datatype Error = NotFound | InvalidInput | DuplicateRating | AlreadyFavorited | ServerError

  datatype Option<+T> = None | Some(value: T)

  datatype Result<+T> = Ok(value: T) | Err(error: Error)
}
