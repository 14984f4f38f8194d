/**
 * The analysed resource as the checks see it: the base request and
 * response (immutable once fetched), the tri-state capability flag that
 * the Last-Modified validation check owns, and the append-only sequence of
 * notes that every check adds to.
 */
module Resource {
  import opened Wrappers
  import opened Notes

  /** Python's None / True / False for a capability that may be undecided. */
  datatype TriState = Unknown | Yes | No

  /** A header field: (name, value). */
  type Header = (string, string)

  /** A transport-level failure and its description. */
  datatype HttpError = HttpError(desc: string)

  datatype Request = Request(uri: string, headers: seq<Header>)

  /**
   * A response: its status code as text, whether it was received in full,
   * the transport error if any, the hash of its payload, and the parsed
   * Last-Modified time in whole epoch seconds when the header was present.
   */
  datatype Response = Response(
    statusCode: string,
    complete: bool,
    httpError: Option<HttpError>,
    payloadMd5: string,
    lastModified: Option<int>)

  class HttpResource {
    const request: Request
    const response: Response
    /** Whether If-Modified-Since validation works; starts Unknown. */
    var imsSupport: TriState
    /** Notes in the order the checks added them; never shortened or rewritten. */
    var notes: seq<Note>

    constructor (request: Request, response: Response)
      ensures this.request == request && this.response == response
      ensures imsSupport == Unknown && notes == []
    {
      this.request := request;
      this.response := response;
      imsSupport := Unknown;
      notes := [];
    }
  }
}
