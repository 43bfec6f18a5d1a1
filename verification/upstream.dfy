/** The upstream call of the edge gateway (src/index.js, lines 78-100):
    one `fetch`, a single retry when the first answer is a server error, and
    the parse of the final answer's body. The network is an oracle: a
    sequence of outcomes, the i-th being what the i-th `fetch` would yield. */
module Upstream {
  import opened Json

  /** A thrown JavaScript error, with its `name` and `message`. */
  datatype JsError = JsError(name: string, message: string)

  /** What `await response.json()` yields: a value, or a thrown error. */
  datatype BodyRead = Parsed(data: Json) | ParseFail(err: JsError)

  /** What one `await fetch(...)` yields: a thrown error (no response at
      all), or a response with its status and the outcome of reading its body. */
  datatype Attempt = Throw(err: JsError) | Resp(status: int, body: BodyRead)

  /** The end state of the upstream phase: unreachable (a throw from a
      `fetch` or from the body parse), or the final answer's status and body. */
  datatype Final = Unreachable(message: string) | Answered(status: int, data: Json)

  /** The most `fetch` calls one request can make. */
  const MaxAttempts: nat := 2

  /** `response.ok`: the status is in 200..299. */
  predicate Ok(status: int) {
    200 <= status <= 299
  }

  /** The retry trigger of line 86: an answer (not a throw) that is not ok
      and has a status of at least 500. */
  predicate Retryable(a: Attempt) {
    a.Resp? && !Ok(a.status) && a.status >= 500
  }

  /** Error.prototype.toString: "name: message", or just the one that is
      non-empty. */
  function ErrorToString(e: JsError): string {
    if e.name == "" then e.message
    else if e.message == "" then e.name
    else e.name + ": " + e.message
  }

  /** `err?.message || err` inside a template literal. */
  function ErrorText(e: JsError): (t: string)
    ensures e.message != "" ==> t == e.message
    ensures e.message == "" ==> t == e.name
  {
    if e.message != "" then e.message else ErrorToString(e)
  }

  /** The end state once `a` is the last attempt made: its throw, or its
      body parse, decides. */
  function Settle(a: Attempt): (f: Final)
    ensures f.Answered? <==> a.Resp? && a.body.Parsed?
    ensures f.Answered? ==> f == Answered(a.status, a.body.data)
    ensures a.Throw? ==> f == Unreachable(ErrorText(a.err))
    ensures a.Resp? && a.body.ParseFail? ==> f == Unreachable(ErrorText(a.body.err))
  {
    match a
    case Throw(e) => Unreachable(ErrorText(e))
    case Resp(status, ParseFail(e)) => Unreachable(ErrorText(e))
    case Resp(status, Parsed(data)) => Answered(status, data)
  }

  /** The upstream phase as written: the first attempt, a second one exactly
      when the first is retryable, then the settling of the last attempt.
      Returns the end state and the number of `fetch` calls made. */
  function Fetch(oracle: seq<Attempt>): (r: (Final, nat))
    requires |oracle| >= MaxAttempts
    ensures 1 <= r.1 <= MaxAttempts
    ensures r.1 == 2 <==> Retryable(oracle[0])
    ensures r.0 == Settle(oracle[r.1 - 1])
  {
    var first := oracle[0];
    if first.Resp? && !Ok(first.status) && first.status >= 500 then
      (Settle(oracle[1]), 2)
    else
      (Settle(first), 1)
  }

  /** The retry policy read as the bounded loop it amounts to: keep calling
      while the latest answer is retryable and fewer than `MaxAttempts` calls
      were made. It makes the same calls and ends the same way as `Fetch`. */
  method FetchLoop(oracle: seq<Attempt>) returns (final: Final, calls: nat)
    requires |oracle| >= MaxAttempts
    ensures (final, calls) == Fetch(oracle)
  {
    var last := oracle[0];
    calls := 1;
    while calls < MaxAttempts && Retryable(last)
      invariant 1 <= calls <= MaxAttempts
      invariant last == oracle[calls - 1]
      invariant calls == 2 ==> Retryable(oracle[0])
    {
      last := oracle[calls];
      calls := calls + 1;
    }
    final := Settle(last);
  }
}
