/** Properties of the gateway handler that relate several requests,
    environments or oracles, and the reading of each reply back to the check
    that produced it. */
module GatewayProperties {
  import opened Wrappers
  import opened Json
  import opened Cors
  import opened Normalizer
  import opened Upstream
  import opened Classify
  import opened Gateway

  /** A preflight reply depends on the `Origin` header only: path, body,
      query, key and upstream are never looked at. */
  lemma PreflightIgnoresEverythingElse(r1: Request, r2: Request, e1: Env, e2: Env,
                                       o1: seq<Attempt>, o2: seq<Attempt>)
    requires |o1| >= MaxAttempts && |o2| >= MaxAttempts
    requires r1.verb == "OPTIONS" && r2.verb == "OPTIONS" && r1.origin == r2.origin
    ensures Handle(r1, e1, o1) == Handle(r2, e2, o2)
    ensures Handle(r1, e1, o1) == Exchange(Response(204, None, CorsHeaders(r1.origin)), [])
  {
  }

  /** The method is checked before the path: any method other than OPTIONS
      and POST gets 405 whatever the path, body or key. */
  lemma MethodCheckedFirst(req: Request, env: Env, oracle: seq<Attempt>)
    requires |oracle| >= MaxAttempts
    requires req.verb != "OPTIONS" && req.verb != "POST"
    ensures Handle(req, env, oracle)
              == Exchange(JsonResponse(405, ErrorBody("Method Not Allowed"), CorsHeaders(req.origin)), [])
  {
  }

  /** A missing key never masks a bad body: when normalisation rejects the
      body, the reply is 400 "Missing contents" whatever the environment and
      the upstream would do. */
  lemma ContentsCheckedBeforeKey(req: Request, e1: Env, e2: Env, o1: seq<Attempt>, o2: seq<Attempt>)
    requires |o1| >= MaxAttempts && |o2| >= MaxAttempts
    requires req.verb == "POST" && req.path == GeminiPath
    requires req.body.JsonBody? && Normalize(req.body.value).MissingContents?
    ensures Handle(req, e1, o1) == Handle(req, e2, o2)
    ensures Handle(req, e1, o1)
              == Exchange(JsonResponse(400, ErrorBody("Missing contents"), CorsHeaders(req.origin)), [])
  {
  }

  /** A valid request without a usable key gets 500 and no upstream call. */
  lemma MissingKeyMakesNoCall(req: Request, env: Env, oracle: seq<Attempt>)
    requires |oracle| >= MaxAttempts
    requires req.verb == "POST" && req.path == GeminiPath
    requires req.body.JsonBody? && Normalize(req.body.value).Accepted?
    requires !HasKey(env)
    ensures Handle(req, env, oracle)
              == Exchange(JsonResponse(500, ErrorBody("Missing GEMINI_API_KEY"), CorsHeaders(req.origin)), [])
  {
  }

  /** The reply to `req` has status `status` and body `{error: message}`. */
  predicate RepliedWith(req: Request, env: Env, oracle: seq<Attempt>, status: int, message: string)
    requires |oracle| >= MaxAttempts
  {
    var x := Handle(req, env, oracle);
    x.Exchange? && x.response.status == status && x.response.body == Some(ErrorBody(message))
  }

  /** The status and body of each rejection identify the check that failed:
      no other path through the handler, upstream replies included, yields
      the same pair. */
  lemma RejectionsIdentifyTheirCheck(req: Request, env: Env, oracle: seq<Attempt>)
    requires |oracle| >= MaxAttempts
    ensures RepliedWith(req, env, oracle, 405, "Method Not Allowed") <==>
              req.verb != "OPTIONS" && req.verb != "POST"
    ensures RepliedWith(req, env, oracle, 404, "Not Found") <==>
              req.verb == "POST" && req.path != GeminiPath
    ensures RepliedWith(req, env, oracle, 400, "Invalid JSON") <==>
              req.verb == "POST" && req.path == GeminiPath && req.body.InvalidJson?
    ensures RepliedWith(req, env, oracle, 400, "Missing contents") <==>
              req.verb == "POST" && req.path == GeminiPath && req.body.JsonBody?
                   && Normalize(req.body.value).MissingContents?
    ensures RepliedWith(req, env, oracle, 500, "Missing GEMINI_API_KEY") <==>
              req.verb == "POST" && req.path == GeminiPath && req.body.JsonBody?
                   && Normalize(req.body.value).Accepted? && !HasKey(env)
  {
    var x := Handle(req, env, oracle);
    if Admitted(req, env) {
      var (final, n) := Fetch(oracle);
      assert x.response == ClassifyFinal(final, CorsHeaders(req.origin));
      if final.Answered? && !Ok(final.status) {
        var body := JObj([("error", JStr("Gemini API error")),
                          ("status", JNum(final.status, 0)),
                          ("details", Details(final.data))]);
        assert |body.members| == 3;
        assert x.response.body == Some(body);
      }
    }
  }

  /** Once admitted, the reply is the classification of the last attempt
      made: the second attempt decides whenever there is one. */
  lemma LastAttemptDecides(req: Request, env: Env, oracle: seq<Attempt>)
    requires |oracle| >= MaxAttempts
    requires Admitted(req, env)
    ensures var x := Handle(req, env, oracle);
      x.response == ClassifyFinal(Settle(oracle[|x.calls| - 1]), CorsHeaders(req.origin))
  {
  }

  /** A first call that throws is reported as 502 and not retried. */
  lemma ThrowIsNotRetried(req: Request, env: Env, oracle: seq<Attempt>)
    requires |oracle| >= MaxAttempts
    requires Admitted(req, env) && oracle[0].Throw?
    ensures var x := Handle(req, env, oracle);
      && |x.calls| == 1
      && x.response.status == 502
      && x.response.body == Some(ErrorBody("Upstream error: " + ErrorText(oracle[0].err)))
  {
  }

  /** A 2xx answer on the first call is relayed as 200 with its body
      unchanged; a 4xx answer is relayed with its own status; neither is
      retried. */
  lemma FirstAnswerBelow500(req: Request, env: Env, oracle: seq<Attempt>, status: int, data: Json)
    requires |oracle| >= MaxAttempts
    requires Admitted(req, env) && oracle[0] == Resp(status, Parsed(data)) && status < 500
    ensures var x := Handle(req, env, oracle);
      && |x.calls| == 1
      && (Ok(status) ==> x.response.status == 200 && x.response.body == Some(data))
      && (!Ok(status) ==> x.response.status == status)
  {
  }

  /** A server error on the first call is retried once, and the retry's
      answer is what the client sees: 200 with its body when it is ok, its
      own status with details taken from its body otherwise. */
  lemma ServerErrorRetriedOnce(req: Request, env: Env, oracle: seq<Attempt>, status: int, data: Json)
    requires |oracle| >= MaxAttempts
    requires Admitted(req, env) && Retryable(oracle[0]) && oracle[1] == Resp(status, Parsed(data))
    ensures var x := Handle(req, env, oracle);
      && |x.calls| == 2
      && (Ok(status) ==> x.response.status == 200 && x.response.body == Some(data))
      && (!Ok(status) ==> x.response.status == status
                          && x.response.body.value.members[2] == ("details", Details(data)))
  {
  }

  /** Every upstream call of an admitted request carries the model from the
      query (default "gemini-1.5-flash"), the configured key, and the body
      `{contents, generationConfig}` of the normalised request. */
  lemma AdmittedCallCarries(req: Request, env: Env, oracle: seq<Attempt>)
    requires |oracle| >= MaxAttempts
    requires Admitted(req, env)
    ensures var x := Handle(req, env, oracle);
      var u := Normalize(req.body.value).request;
      forall i :: 0 <= i < |x.calls| ==>
        && x.calls[i].model == ModelName(req.modelParam)
        && x.calls[i].apiKey == env.apiKey.value
        && x.calls[i].payload == JObj([("contents", JArr(u.contents)),
                                       ("generationConfig", GenerationConfig(req.body.value))])
  {
  }

  /** When `String(body.prompt)` throws, the exception escapes before the
      key is read: there is no reply from the handler and no upstream call,
      whatever the environment and the upstream. */
  lemma ThrowingPromptEscapes(req: Request, e1: Env, e2: Env, o1: seq<Attempt>, o2: seq<Attempt>)
    requires |o1| >= MaxAttempts && |o2| >= MaxAttempts
    requires req.verb == "POST" && req.path == GeminiPath
    requires req.body.JsonBody? && Normalize(req.body.value).PromptThrows?
    ensures Handle(req, e1, o1) == Handle(req, e2, o2) == Uncaught
  {
  }

  /** The body `{"prompt": {"toString": t}}` escapes the handler. */
  lemma PromptObjectEscapes(req: Request, env: Env, oracle: seq<Attempt>, t: Json)
    requires |oracle| >= MaxAttempts
    requires req.verb == "POST" && req.path == GeminiPath
    requires req.body == JsonBody(JObj([("prompt", JObj([("toString", t)]))]))
    ensures Handle(req, env, oracle) == Uncaught
  {
    PromptWithOwnToStringThrows(t, []);
  }
}
