/** Request normalisation of the edge gateway (src/index.js, lines 51-64):
    the parsed body's `contents`, or else a legacy `prompt`, becomes the
    `contents` array sent upstream, and `generationConfig` falls back to a
    fixed default object. */
module Normalizer {
  import opened Wrappers
  import opened Json

  /** The payload posted upstream, `{contents, generationConfig}`. */
  datatype UpstreamRequest = UpstreamRequest(contents: seq<Json>, generationConfig: Json)
  {
    /** The JSON object that is serialised as the upstream request body. */
    function ToJson(): Json {
      JObj([("contents", JArr(contents)), ("generationConfig", generationConfig)])
    }
  }

  /** `{temperature: 0.7, topK: 40, topP: 0.95, maxOutputTokens: 1024}` */
  const DefaultGenerationConfig: Json := JObj([
    ("temperature", JNum(7, -1)),
    ("topK", JNum(40, 0)),
    ("topP", JNum(95, -2)),
    ("maxOutputTokens", JNum(1024, 0))
  ])

  /** `{role: "user", parts: [{text: text}]}` */
  function UserMessage(text: string): Json {
    JObj([("role", JStr("user")), ("parts", JArr([JObj([("text", JStr(text))])]))])
  }

  /** The single user message synthesised from a legacy prompt, holding
      `String(prompt)`; it throws when that conversion throws. */
  function PromptMessage(prompt: Json): (m: Completion<Json>)
    ensures m.TypeError? <==> StringThrows(prompt)
    ensures prompt.JStr? ==> m == Normal(UserMessage(prompt.s))
  {
    match ToJsString(prompt)
    case TypeError => TypeError
    case Normal(text) => Normal(UserMessage(text))
  }

  /** The value of `contents` after the prompt fallback: the fallback runs
      only when `body.contents` is falsy, so a truthy `contents` (an empty
      array, a string, an object) is kept whatever the prompt says, and the
      prompt is then never converted. */
  function ResolvedContents(body: Json): (c: Completion<JsValue>)
    ensures Truthy(Prop(body, "contents")) ==> c == Normal(Prop(body, "contents"))
    ensures !Truthy(Prop(body, "contents")) && Truthy(Prop(body, "prompt")) ==>
              c == match PromptMessage(Prop(body, "prompt").value)
                   case TypeError => TypeError
                   case Normal(m) => Normal(Some(JArr([m])))
    ensures !Truthy(Prop(body, "contents")) && !Truthy(Prop(body, "prompt")) ==>
              c.Normal? && !Truthy(c.value)
  {
    var contents := Prop(body, "contents");
    var prompt := Prop(body, "prompt");
    if !Truthy(contents) && Truthy(prompt) then
      match PromptMessage(prompt.value)
      case TypeError => TypeError
      case Normal(m) => Normal(Some(JArr([m])))
    else Normal(contents)
  }

  /** `body?.generationConfig || default`: a truthy config is forwarded
      as is; anything else is replaced by the whole default object, with no
      field-by-field merge. */
  function GenerationConfig(body: Json): (g: Json)
    ensures Truthy(Prop(body, "generationConfig")) ==> Some(g) == Prop(body, "generationConfig")
    ensures !Truthy(Prop(body, "generationConfig")) ==> g == DefaultGenerationConfig
  {
    Or(Prop(body, "generationConfig"), DefaultGenerationConfig)
  }

  /** What lines 51-64 make of a parsed body: the payload to post, the 400
      "Missing contents" reply, or the TypeError of `String(body.prompt)`,
      which nothing in the handler catches. */
  datatype Normalized = Accepted(request: UpstreamRequest) | MissingContents | PromptThrows

  /** The prompt fallback runs and its `String(body.prompt)` throws. */
  predicate PromptConversionThrows(body: Json) {
    && !Truthy(Prop(body, "contents"))
    && Truthy(Prop(body, "prompt"))
    && StringThrows(Prop(body, "prompt").value)
  }

  /** Normalisation of a parsed body: the resolved `contents` must be an
      array with at least one element. */
  function Normalize(body: Json): (r: Normalized)
    ensures r.PromptThrows? <==> PromptConversionThrows(body)
    ensures r.Accepted? <==>
              (Truthy(Prop(body, "contents")) && Prop(body, "contents").value.JArr?
                 && |Prop(body, "contents").value.items| > 0)
              || (!Truthy(Prop(body, "contents")) && Truthy(Prop(body, "prompt"))
                    && !StringThrows(Prop(body, "prompt").value))
    ensures r.Accepted? && Truthy(Prop(body, "contents")) ==>
              JArr(r.request.contents) == Prop(body, "contents").value
    ensures r.Accepted? && !Truthy(Prop(body, "contents")) ==>
              r.request.contents == [UserMessage(ToJsString(Prop(body, "prompt").value).value)]
    ensures r.Accepted? ==> |r.request.contents| > 0
    ensures r.Accepted? ==> r.request.generationConfig == GenerationConfig(body)
  {
    match ResolvedContents(body)
    case TypeError => PromptThrows
    case Normal(contents) =>
      if contents.Some? && contents.value.JArr? && |contents.value.items| > 0 then
        Accepted(UpstreamRequest(contents.value.items, GenerationConfig(body)))
      else
        MissingContents
  }

  /** An empty `contents` array is truthy, so it is kept and a prompt next
      to it is ignored, even one whose conversion would throw: the body is
      rejected. */
  lemma EmptyContentsIgnoresPrompt(prompt: Json)
    requires Truthy(Some(prompt))
    ensures Normalize(JObj([("contents", JArr([])), ("prompt", prompt)])).MissingContents?
  {
    var ms := [("contents", JArr([])), ("prompt", prompt)];
    assert ms[..1] == [("contents", JArr([]))];
    assert "prompt"[0] != "contents"[0];
    assert LastMember(ms[..1], "contents") == Some(JArr([]));
    assert Prop(JObj(ms), "contents") == Some(JArr([]));
  }

  /** A truthy `contents` that is not an array is rejected even when a
      prompt is present. */
  lemma NonArrayContentsRejected(contents: Json, prompt: Json)
    requires Truthy(Some(contents)) && !contents.JArr?
    ensures Normalize(JObj([("contents", contents), ("prompt", prompt)])).MissingContents?
  {
    var ms := [("contents", contents), ("prompt", prompt)];
    assert ms[..1] == [("contents", contents)];
    assert "prompt"[0] != "contents"[0];
    assert LastMember(ms[..1], "contents") == Some(contents);
    assert Prop(JObj(ms), "contents") == Some(contents);
  }

  /** A body with only a truthy prompt becomes one user message holding the
      prompt's string form, with the default generation settings, unless
      that conversion throws; a string prompt is taken verbatim. */
  lemma PromptOnly(prompt: Json)
    requires Truthy(Some(prompt))
    ensures StringThrows(prompt) ==> Normalize(JObj([("prompt", prompt)])) == PromptThrows
    ensures !StringThrows(prompt) ==>
              Normalize(JObj([("prompt", prompt)]))
                == Accepted(UpstreamRequest([UserMessage(ToJsString(prompt).value)], DefaultGenerationConfig))
    ensures prompt.JStr? ==>
              Normalize(JObj([("prompt", prompt)]))
                == Accepted(UpstreamRequest([UserMessage(prompt.s)], DefaultGenerationConfig))
  {
  }

  /** A prompt object with its own `toString` member, bare or inside an
      array, makes `String(body.prompt)` throw. */
  lemma PromptWithOwnToStringThrows(t: Json, others: seq<Json>)
    ensures Normalize(JObj([("prompt", JObj([("toString", t)]))])) == PromptThrows
    ensures Normalize(JObj([("prompt", JArr(others + [JObj([("toString", t)])]))])) == PromptThrows
  {
    var bad := JObj([("toString", t)]);
    assert Prop(bad, "toString") == Some(t);
    var arr := others + [bad];
    assert arr[|others|] == bad;
    assert StringThrows(JArr(arr));
  }
}
