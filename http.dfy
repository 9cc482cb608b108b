/** The pieces of the HTTP layer that the handlers and the token service use. */
module Http {

  const OK := 200
  const CREATED := 201
  const UNAUTHORIZED := 401
  const NOT_FOUND := 404
  const INTERNAL_SERVER_ERROR := 500

  /** FastAPI's `HTTPException(status_code, detail)`. */
  datatype HttpException = HttpException(statusCode: int, detail: string)
}
