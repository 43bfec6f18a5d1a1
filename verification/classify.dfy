/** Responses of the edge gateway and the classification of the upstream
    phase's end state into one (src/index.js, lines 94-116). */
module Classify {
  import opened Wrappers
  import opened Json
  import opened Upstream

  const ContentTypeHeader := "Content-Type"

  /** A response as constructed by the handler: status, body (`None` is the
      null body of the preflight reply) and headers. */
  datatype Response = Response(status: int, body: Option<Json>, headers: map<string, string>)

  /** `{error: message}` */
  function ErrorBody(message: string): Json {
    JObj([("error", JStr(message))])
  }

  /** A JSON reply: the CORS headers plus `Content-Type: application/json`. */
  function JsonResponse(status: int, body: Json, cors: map<string, string>): (r: Response)
    requires ContentTypeHeader !in cors
    ensures r.status == status && r.body == Some(body)
    ensures r.headers.Keys == cors.Keys + {ContentTypeHeader}
    ensures r.headers[ContentTypeHeader] == "application/json"
    ensures forall k :: k in cors ==> r.headers[k] == cors[k]
  {
    Response(status, Some(body), cors[ContentTypeHeader := "application/json"])
  }

  /** `data?.error || data`: the details of an upstream error reply. */
  function Details(data: Json): (d: Json)
    ensures Truthy(Prop(data, "error")) ==> Some(d) == Prop(data, "error")
    ensures !Truthy(Prop(data, "error")) ==> d == data
  {
    Or(Prop(data, "error"), data)
  }

  /** The reply for the end state of the upstream phase:
      unreachable gives 502 with "Upstream error: " and the message; a
      non-ok answer passes its status through with the error envelope; an ok
      answer (any 2xx) gives 200 with the upstream body unchanged. */
  function ClassifyFinal(f: Final, cors: map<string, string>): (r: Response)
    requires ContentTypeHeader !in cors
    ensures f.Unreachable? ==> r.status == 502 && r.body == Some(ErrorBody("Upstream error: " + f.message))
    ensures f.Answered? && !Ok(f.status) ==>
              r.status == f.status
              && r.body == Some(JObj([("error", JStr("Gemini API error")),
                                      ("status", JNum(f.status, 0)),
                                      ("details", Details(f.data))]))
    ensures f.Answered? && Ok(f.status) ==> r.status == 200 && r.body == Some(f.data)
    ensures r.headers == cors[ContentTypeHeader := "application/json"]
  {
    match f
    case Unreachable(message) =>
      JsonResponse(502, ErrorBody("Upstream error: " + message), cors)
    case Answered(status, data) =>
      if !Ok(status) then
        JsonResponse(status, JObj([("error", JStr("Gemini API error")),
                                   ("status", JNum(status, 0)),
                                   ("details", Details(data))]), cors)
      else
        JsonResponse(200, data, cors)
  }
}
