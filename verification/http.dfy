/** The part of an HTTP response the routers decide on: the status code and
    the `detail` text of a raised `HTTPException`. */
module Http {

  const BAD_REQUEST: int := 400
  const NOT_FOUND: int := 404

  datatype HttpException = HttpException(status: int, detail: string)
}
