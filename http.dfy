/**
 * The part of Go's net/http that the handlers drive: the header map of an
 * http.ResponseWriter, WriteHeader, one body write, and http.Error.
 * Sent() is the status, the header map as it stood when the status was
 * written, and the body; later changes to the map are not in it. What
 * net/http adds or drops on the wire is not modelled.
 */
module Http {
  /** What the body of a response holds. The bytes themselves are not modelled. */
  datatype Body =
    | NoBody
    | Message(text: string)                  // a short text written by the handler
    | FullObject                             // the whole stored object, copied from the store
    | ObjectRange(start: int, end: int)      // bytes start..end (inclusive) of the stored object

  datatype Response = Response(status: int, header: map<string, string>, body: Body)

  const StatusOK := 200
  const StatusPartialContent := 206
  const StatusNotModified := 304
  const StatusBadRequest := 400
  const StatusNotFound := 404
  const StatusRequestedRangeNotSatisfiable := 416
  const StatusInternalServerError := 500

  const ErrorContentType := "text/plain; charset=utf-8"

  /** http.Header.Get on a request: the value stored under key, or "" when there is none. */
  function HeaderGet(h: map<string, string>, key: string): string {
    if key in h then h[key] else ""
  }

  /**
   * The response that http.Error(w, error, code) produces on a writer whose
   * status is not yet written and whose header map is h: Content-Length
   * removed, a plain-text Content-Type, the nosniff option, the given
   * status, and the message followed by a newline as body.
   */
  function ErrorReply(h: map<string, string>, error: string, code: int): (r: Response)
    ensures r.status == code && r.body == Message(error + "\n")
    ensures "Content-Length" !in r.header
    ensures "Content-Type" in r.header && r.header["Content-Type"] == ErrorContentType
    ensures "X-Content-Type-Options" in r.header && r.header["X-Content-Type-Options"] == "nosniff"
  {
    Response(code, (h - {"Content-Length"})["Content-Type" := ErrorContentType]["X-Content-Type-Options" := "nosniff"],
             Message(error + "\n"))
  }

  /** http.Error keeps every other header the handler had set, and adds no other. */
  lemma ErrorReplyKeepsHeaders(h: map<string, string>, error: string, code: int)
    ensures var r := ErrorReply(h, error, code);
      && (forall k :: k in h && k !in {"Content-Length", "Content-Type", "X-Content-Type-Options"} ==>
            k in r.header && r.header[k] == h[k])
      && (forall k :: k in r.header ==> k in h || k in {"Content-Type", "X-Content-Type-Options"})
  {
  }

  /** An http.ResponseWriter as one handler invocation sees it. */
  class ResponseWriter {
    var header: map<string, string>      // w.Header()
    var status: int                      // 0 until the status line is written
    var sentHeader: map<string, string>  // the header map as it was when the status was written
    var body: Body

    /** A fresh writer; initial is what the server and middleware already put in the header map. */
    constructor (initial: map<string, string>)
      ensures header == initial && status == 0 && sentHeader == map[] && body == NoBody
    {
      header := initial;
      status := 0;
      sentHeader := map[];
      body := NoBody;
    }

    /**
     * The status, the header map as it stood when the status was written,
     * and the body.
     */
    function Sent(): Response
      reads this
    {
      Response(status, sentHeader, body)
    }

    /** w.Header().Set(key, value). */
    method Set(key: string, value: string)
      modifies this
      ensures header == old(header)[key := value]
      ensures status == old(status) && sentHeader == old(sentHeader) && body == old(body)
    {
      header := header[key := value];
    }

    /** w.Header().Del(key). */
    method Del(key: string)
      modifies this
      ensures header == old(header) - {key}
      ensures status == old(status) && sentHeader == old(sentHeader) && body == old(body)
    {
      header := header - {key};
    }

    /**
     * w.WriteHeader(code) for a final status: the first call fixes the
     * status and the header that is sent; a later call changes nothing.
     */
    method WriteHeader(code: int)
      requires 200 <= code <= 999
      modifies this
      ensures old(status) == 0 ==> status == code && sentHeader == old(header)
      ensures old(status) != 0 ==> status == old(status) && sentHeader == old(sentHeader)
      ensures header == old(header) && body == old(body)
    {
      if status == 0 {
        status := code;
        sentHeader := header;
      }
    }

    /** A write of the body; as in Go, it writes status 200 first when no status was written. */
    method Write(b: Body)
      modifies this
      ensures old(status) == 0 ==> status == StatusOK && sentHeader == old(header)
      ensures old(status) != 0 ==> status == old(status) && sentHeader == old(sentHeader)
      ensures header == old(header) && body == b
    {
      WriteHeader(StatusOK);
      body := b;
    }

    /** http.Error(w, error, code). */
    method Error(error: string, code: int)
      requires 200 <= code <= 999
      modifies this
      ensures old(status) == 0 ==> Sent() == ErrorReply(old(header), error, code)
      ensures old(status) != 0 ==> status == old(status) && sentHeader == old(sentHeader)
      ensures header == ErrorReply(old(header), error, code).header
    {
      Del("Content-Length");
      Set("Content-Type", ErrorContentType);
      Set("X-Content-Type-Options", "nosniff");
      WriteHeader(code);
      Write(Message(error + "\n"));
    }
  }
}
