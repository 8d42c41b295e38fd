/** The shape of FastAPI's `HTTPException` as the services raise it. */
module Http {

  /** One entry of a 422 error list: where the problem is, what it is, and its kind. */
  datatype ErrorItem = ErrorItem(loc: seq<string>, msg: string, kind: string)

  /** `detail` is either a plain message or a list of entries. */
  datatype Detail = Message(text: string) | Items(items: seq<ErrorItem>)

  datatype HttpError = HttpError(status: int, detail: Detail)

  const BadRequest: int := 400
  const NotFound: int := 404
  const UnprocessableEntity: int := 422
}
