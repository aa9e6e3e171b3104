/** Values the stub server exchanges with the HTTP layer: bodies, header maps,
    the parts of an inbound request the engine looks at, and the response it emits. */
module Http {

  datatype Option<T> = None | Some(value: T)

  newtype byte = b: int | 0 <= b < 256

  /** A request or response body. */
  type Bytes = seq<byte>

  /** A multi-valued header map: a name and the values given for it, in order. */
  type Header = map<string, seq<string>>

  /** The values stored under `name`, or the empty list when the name is absent
      (indexing a Go header map with a missing key yields a nil slice). */
  function Values(h: Header, name: string): seq<string>
  {
    if name in h then h[name] else []
  }

  /** An inbound request, as the engine sees it once the router and the form
      parser have run.
      - `url` is the request target as reported for unrouted requests,
        `path` the path only;
      - `body` is what reading the body yields once the form parser has run:
        for a url-encoded POST, PUT or PATCH the parser has consumed it, so it
        is empty there;
      - `pathParams` are the variables the router extracted for the matched pattern;
      - `form` is the merged form lookup: body form values of a url-encoded
        POST, PUT or PATCH override URL query values of the same name. */
  datatype Request = Request(
    httpMethod: string,
    url: string,
    path: string,
    body: Bytes,
    pathParams: map<string, string>,
    form: map<string, string>,
    header: Header)

  /** The merged form lookup, total: a name that is absent reads as "". */
  function FormValue(form: map<string, string>, name: string): string
  {
    if name in form then form[name] else ""
  }

  /** What a handler writes: its header map, its status line and its body. */
  datatype Response = Response(header: Header, status: int, body: Bytes)
}
