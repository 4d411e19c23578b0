/** The part of an HTTP answer the client looks at. */
module Http {
  /** What `requests.get` returns when it raises no exception: status code and body text. */
  datatype Response = Response(status: int, text: string)
}
