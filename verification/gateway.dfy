/** The `fetch` handler of the edge gateway (src/index.js, lines 1-118) as a
    total function from one request, the configured API key and the
    upstream oracle to the response and the list of upstream calls made.

    The checks run in a fixed order, each short-circuiting to a reply:
    OPTIONS preflight, method, path, JSON parse, contents normalisation, API
    key; then the upstream phase and its classification. The one exception
    that can escape is the TypeError of `String(body.prompt)` (line 53). */
module Gateway {
  import opened Wrappers
  import opened Json
  import opened Cors
  import opened Normalizer
  import opened Upstream
  import opened Classify

  const GeminiPath := "/gemini"
  const DefaultModel := "gemini-1.5-flash"

  /** The request body as `await request.json()` sees it. */
  datatype Body = JsonBody(value: Json) | InvalidJson

  /** The parts of an incoming request the handler reads: method (`verb`), URL path,
      `Origin` header, `model` query parameter (`None` when absent) and body. */
  datatype Request = Request(
    verb: string,
    path: string,
    origin: Option<string>,
    modelParam: Option<string>,
    body: Body)

  /** The worker's environment: `GEMINI_API_KEY`, `None` when unset. */
  datatype Env = Env(apiKey: Option<string>)

  /** One upstream `fetch`: the model and key embedded in the endpoint URL,
      and the JSON body posted. */
  datatype UpstreamCall = UpstreamCall(model: string, apiKey: string, payload: Json)

  /** The outcome of handling one request: the reply and the upstream calls
      made, or an exception that escapes the handler, which then makes no
      reply of its own and no call. */
  datatype Exchange = Exchange(response: Response, calls: seq<UpstreamCall>) | Uncaught

  /** `!apiKey` is false: the key is set and non-empty. */
  predicate HasKey(env: Env) {
    env.apiKey.Some? && env.apiKey.value != ""
  }

  /** `url.searchParams.get("model") || "gemini-1.5-flash"` */
  function ModelName(param: Option<string>): (m: string)
    ensures m != ""
    ensures param.Some? && param.value != "" ==> m == param.value
    ensures param.None? || param.value == "" ==> m == DefaultModel
  {
    if param.Some? && param.value != "" then param.value else DefaultModel
  }

  /** The request passes every check and reaches the upstream phase. */
  predicate Admitted(req: Request, env: Env) {
    && req.verb == "POST"
    && req.path == GeminiPath
    && req.body.JsonBody?
    && Normalize(req.body.value).Accepted?
    && HasKey(env)
  }

  /** The request reaches line 53 and `String(body.prompt)` throws there. */
  predicate Throws(req: Request) {
    && req.verb == "POST"
    && req.path == GeminiPath
    && req.body.JsonBody?
    && Normalize(req.body.value).PromptThrows?
  }

  /** The call the handler issues, once or twice, for an admitted request. */
  function CallFor(req: Request, env: Env): UpstreamCall
    requires Admitted(req, env)
  {
    UpstreamCall(ModelName(req.modelParam), env.apiKey.value, Normalize(req.body.value).request.ToJson())
  }

  function Handle(req: Request, env: Env, oracle: seq<Attempt>): (x: Exchange)
    requires |oracle| >= MaxAttempts
    // the escaping TypeError
    ensures x.Uncaught? <==> Throws(req)
    // origin policy, applied to every reply
    ensures x.Exchange? ==>
              (AllowOriginHeader in x.response.headers <==> req.origin.Some? && req.origin.value in Whitelist)
    ensures x.Exchange? && AllowOriginHeader in x.response.headers ==>
              x.response.headers[AllowOriginHeader] == req.origin.value
    ensures x.Exchange? ==>
              x.response.headers.Keys - {AllowOriginHeader, ContentTypeHeader}
                == {AllowMethodsHeader, AllowHeadersHeader, MaxAgeHeader}
    ensures x.Exchange? ==>
              && x.response.headers[AllowMethodsHeader] == "POST, OPTIONS"
              && x.response.headers[AllowHeadersHeader] == "Content-Type"
              && x.response.headers[MaxAgeHeader] == "86400"
    ensures x.Exchange? ==> (ContentTypeHeader in x.response.headers <==> req.verb != "OPTIONS")
    ensures x.Exchange? && ContentTypeHeader in x.response.headers ==>
              x.response.headers[ContentTypeHeader] == "application/json"
    // preflight
    ensures req.verb == "OPTIONS" <==> x.Exchange? && x.response.status == 204
    ensures req.verb == "OPTIONS" ==> x.Exchange? && x.response.body.None? && x.calls == []
    ensures req.verb != "OPTIONS" && x.Exchange? ==> x.response.body.Some?
    // upstream calls
    ensures x.Exchange? && |x.calls| > 0 <==> Admitted(req, env)
    ensures x.Exchange? ==> |x.calls| <= MaxAttempts
    ensures x.Exchange? && |x.calls| == 2 <==> Admitted(req, env) && Retryable(oracle[0])
    ensures x.Exchange? ==> forall i :: 0 <= i < |x.calls| ==> x.calls[i] == CallFor(req, env)
  {
    var cors := CorsHeaders(req.origin);
    if req.verb == "OPTIONS" then
      Exchange(Response(204, None, cors), [])
    else if req.verb != "POST" then
      Exchange(JsonResponse(405, ErrorBody("Method Not Allowed"), cors), [])
    else if req.path != GeminiPath then
      Exchange(JsonResponse(404, ErrorBody("Not Found"), cors), [])
    else if req.body.InvalidJson? then
      Exchange(JsonResponse(400, ErrorBody("Invalid JSON"), cors), [])
    else
      match Normalize(req.body.value)
      case PromptThrows =>
        Uncaught
      case MissingContents =>
        Exchange(JsonResponse(400, ErrorBody("Missing contents"), cors), [])
      case Accepted(payload) =>
        if !HasKey(env) then
          Exchange(JsonResponse(500, ErrorBody("Missing GEMINI_API_KEY"), cors), [])
        else
          var call := UpstreamCall(ModelName(req.modelParam), env.apiKey.value, payload.ToJson());
          var (final, n) := Fetch(oracle);
          Exchange(ClassifyFinal(final, cors), seq(n, _ => call))
  }
}
