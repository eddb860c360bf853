/**
 * The values that flow through the server: the parsed request head and the
 * response the server falls back to when no route matches.
 */
module Http {

  datatype Option<+T> = None | Some(value: T)

  /** A parsed request head. Header keys are kept exactly as received. */
  datatype Request = Request(
    httpMethod: string,
    path: string,
    httpVersion: string,
    header: map<string, string>)

  /** What a request line that does not fit the pattern leaves behind. */
  const EmptyRequest := Request("", "", "", map[])

  /** Status code of http::NotFound. */
  const NotFound: nat := 404

  datatype Response = Response(status: nat, body: string)

  /** The response built when no route matches: 404 with an empty body. */
  const NotFoundResponse := Response(NotFound, "")
}
