/** What a route handler answers: `res.status(code).json(body)`. */
module Http {
  import ImageProcessor

  /** The cause behind a 500 answer: the image transform threw, or the
      schema's `required` validators rejected the document on save (listing
      the offending paths). */
  datatype Fault =
    | ImageFault(cause: ImageProcessor.ProcessError)
    | ValidationFault(paths: seq<string>)

  datatype Reply<T> =
    | Created(value: T)
    | Ok(value: T)
    | BadRequest(error: string)
    | NotFound(error: string)
    | ServerError(fault: Fault)

  function StatusCode<T>(reply: Reply<T>): int
  {
    match reply
    case Created(_) => 201
    case Ok(_) => 200
    case BadRequest(_) => 400
    case NotFound(_) => 404
    case ServerError(_) => 500
  }
}
