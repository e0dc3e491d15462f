/** Small shared datatypes: a nullable value and the outcome of an upstream HTTP call. */
module Common {

  /** A JSON value that may be null or absent. */
  datatype Option<+T> = None | Some(value: T)

  /** The outcome of one call to the upstream hosting API: the parsed payload, or the
      message of the error the HTTP client threw. */
  datatype Fetch<+T> = Fetched(data: T) | FetchFailed(message: string)

  /** An HTTP response as the handler writes it: a status code and a JSON body. */
  datatype Response<+B> = Response(status: int, body: B)

  const StatusOk := 200
  const StatusServerError := 500
}
