/** `generateAIResponse` of the worker: it asks each Gemini model in a fixed
    order and returns the first non-empty completion. Depending on how a
    model fails, the cascade moves on to the next model or gives up, and a
    give-up returns one fixed apology. The HTTP call of each attempt is not
    modelled; its result is an input `Outcome`, one per model, in model order. */
module Gemini {
  import opened Values
  import opened Text

  /** The models in priority order, best first. */
  const GeminiModels: seq<string> := [
    "gemini-2.5-pro",
    "gemini-2.5-flash",
    "gemini-2.5-flash-lite",
    "gemini-2.0-flash",
    "gemini-2.0-flash-lite",
    "gemini-1.5-pro",
    "gemini-1.5-flash"
  ]

  /** The reply when no model produced text. */
  const FallbackReply: string := "ちょっと今忙しいけん、後でまた聞いて。知らんけど。"

  /** What one attempt against one model produced: a non-OK HTTP response
      with its status and body text, an exception with its message (a network
      failure, or a completion JSON of an unexpected shape), or an OK
      response with the first candidate's first part text, if it had one. */
  datatype Outcome =
    | HttpError(status: nat, body: string)
    | Thrown(message: string)
    | Completed(text: Option<string>)

  /** The diagnostic kept in `lastError`; it is logged and never returned. */
  datatype Failure =
    | RateLimited(model: string)
    | EmptyResponse(model: string)
    | Raised(message: string)

  /** What the loop does with one outcome: return its text, `continue` or `break`. */
  datatype Step = Return(text: string) | Next(failure: Failure) | Halt(failure: Failure)

  /** How a cascade ended, and how many models it asked. */
  datatype Generation =
    | Answered(text: string, attempts: nat)
    | GaveUp(attempts: nat, lastError: Option<Failure>)

  /** The first test, on a non-OK response: status 429, or a body that
      mentions "quota" or "rate" anywhere (so "generate" counts). */
  predicate IsRateLimitResponse(status: nat, body: string) {
    status == 429 || Contains(body, "quota") || Contains(body, "rate")
  }

  /** The second test, in the `catch`, on the message of whatever was thrown. */
  predicate IsRetryableMessage(message: string) {
    Contains(message, "429") || Contains(message, "quota") || Contains(message, "rate")
  }

  /** The message of the error thrown for a non-OK response that failed the first test. */
  function ApiErrorMessage(status: nat, body: string): string {
    "Gemini API error: " + NatToString(status) + " - " + body
  }

  /** The `catch` block: continue on a retryable message, otherwise break. */
  function Caught(message: string): (s: Step)
    ensures s.Next? || s.Halt?
    ensures s.failure == Raised(message)
    ensures s.Next? <==> IsRetryableMessage(message)
  {
    if IsRetryableMessage(message) then Next(Raised(message)) else Halt(Raised(message))
  }

  /** The body of the loop for one model. */
  function Classify(model: string, outcome: Outcome): (s: Step)
    ensures s.Return? <==> outcome.Completed? && Truthy(outcome.text)
    ensures s.Return? ==> s.text != "" && outcome.text == Some(s.text)
    ensures outcome.Thrown? ==> s == Caught(outcome.message)
    ensures outcome.Completed? ==> !s.Halt?
  {
    match outcome
    case HttpError(status, body) =>
      if IsRateLimitResponse(status, body) then Next(RateLimited(model))
      else Caught(ApiErrorMessage(status, body))
    case Thrown(message) => Caught(message)
    case Completed(text) =>
      if Truthy(text) then Return(text.value) else Next(EmptyResponse(model))
  }

  /** The loop over `models`, where `outcomes[j]` is what asking `models[j]`
      would produce. Models are asked strictly in order; every model before
      the last one asked said "continue"; the last one asked either answered,
      said "stop", or was the last model of the list. */
  function Cascade(models: seq<string>, outcomes: seq<Outcome>): (g: Generation)
    requires |outcomes| == |models|
    ensures g.attempts <= |models|
    ensures g.attempts == 0 <==> |models| == 0
    ensures forall j :: 0 <= j < g.attempts - 1 ==> Classify(models[j], outcomes[j]).Next?
    ensures g.Answered? ==> g.attempts >= 1
    ensures g.Answered? ==> Classify(models[g.attempts - 1], outcomes[g.attempts - 1]) == Return(g.text)
    ensures g.GaveUp? && g.attempts > 0 ==>
              var last := Classify(models[g.attempts - 1], outcomes[g.attempts - 1]);
              && (last.Halt? || (last.Next? && g.attempts == |models|))
              && g.lastError == Some(last.failure)
    ensures g.GaveUp? && g.attempts == 0 ==> g.lastError == None
  {
    if |models| == 0 then GaveUp(0, None)
    else
      match Classify(models[0], outcomes[0])
      case Return(text) => Answered(text, 1)
      case Halt(failure) => GaveUp(1, Some(failure))
      case Next(failure) =>
        match Cascade(models[1..], outcomes[1..])
        case Answered(text, k) => Answered(text, k + 1)
        case GaveUp(k, lastError) => GaveUp(k + 1, if k == 0 then Some(failure) else lastError)
  }

  /** The text the caller receives: the completion, or the fixed fallback. */
  function ReplyText(g: Generation): (r: string)
    ensures g.Answered? ==> r == g.text
    ensures g.GaveUp? ==> r == FallbackReply
  {
    if g.Answered? then g.text else FallbackReply
  }

  /** One outcome per model of `GeminiModels`, in the same order. */
  type ModelOutcomes = s: seq<Outcome> | |s| == |GeminiModels|
    witness [Thrown(""), Thrown(""), Thrown(""), Thrown(""), Thrown(""), Thrown(""), Thrown("")]

  /** `generateAIResponse(prompt, env)`, given what each model would answer. */
  function GenerateAIResponse(outcomes: ModelOutcomes): (g: Generation)
    ensures 1 <= g.attempts <= 7
    ensures g.Answered? ==> g.text != ""
  {
    Cascade(GeminiModels, outcomes)
  }

  /** A non-OK response that is not rate limited is thrown and caught again.
      The thrown message quotes the status and the body, so the `catch` keeps
      going exactly when either of them contains "429": the prefix, the
      separator and the decimal status cannot supply "quota" or "rate". */
  lemma {:induction false} RethrownHttpErrorContinuesIff(model: string, status: nat, body: string)
    requires !IsRateLimitResponse(status, body)
    ensures Classify(model, HttpError(status, body)).Next?
            <==> Contains(body, "429") || Contains(NatToString(status), "429")
  {
    var digits := NatToString(status);
    var head := "Gemini API error:";
    assert ApiErrorMessage(status, body) == (head + " " + digits) + " - " + body;
    forall p | p == "429" || p == "quota" || p == "rate"
      ensures Contains(ApiErrorMessage(status, body), p) <==> Contains(body, p) || Contains(digits, p)
    {
      ContainsAcrossSeparator(head + " " + digits, " - ", body, p);
      ContainsAcrossSeparator(head, " ", digits, p);
      if p == "429" {
        MissingCharNotContained(head, p, 0);
      } else if p == "quota" {
        MissingCharNotContained(head, p, 0);
      } else {
        MissingCharNotContained(head, p, 1);
      }
    }
    NatToStringLacks(status, 'q');
    NatToStringLacks(status, 'a');
    MissingCharNotContained(digits, "quota", 0);
    MissingCharNotContained(digits, "rate", 1);
  }

  /** Every non-OK response, in one statement: the cascade moves on exactly
      when the status is 429, or the body mentions "quota", "rate" or "429",
      or the decimal status contains "429". */
  lemma HttpErrorContinuesIff(model: string, status: nat, body: string)
    ensures Classify(model, HttpError(status, body)).Next?
            <==> || status == 429 || Contains(body, "quota") || Contains(body, "rate")
                 || Contains(body, "429") || Contains(NatToString(status), "429")
  {
    if !IsRateLimitResponse(status, body) {
      RethrownHttpErrorContinuesIff(model, status, body);
    }
  }

  /** Once an outcome decides the cascade, what later models would have
      answered makes no difference: they are never asked. */
  lemma {:induction false} LaterOutcomesIrrelevant(models: seq<string>, outcomes: seq<Outcome>, others: seq<Outcome>)
    requires |outcomes| == |models| == |others|
    requires var k := Cascade(models, outcomes).attempts; outcomes[..k] == others[..k]
    ensures Cascade(models, others) == Cascade(models, outcomes)
  {
    if |models| > 0 {
      assert outcomes[0] == outcomes[..Cascade(models, outcomes).attempts][0];
      assert others[0] == outcomes[0];
      if Classify(models[0], outcomes[0]).Next? {
        var k := Cascade(models, outcomes).attempts;
        assert outcomes[1..][..k - 1] == outcomes[..k][1..];
        assert others[1..][..k - 1] == others[..k][1..];
        LaterOutcomesIrrelevant(models[1..], outcomes[1..], others[1..]);
      }
    }
  }

  /** A 429 on the first model and a plain server error on the second: the
      cascade asks exactly those two and gives up, whatever the third says. */
  lemma RateLimitThenServerErrorGivesUp(third: Outcome)
    ensures var g := Cascade(["m1", "m2", "m3"], [HttpError(429, ""), HttpError(500, "Unknown error"), third]);
            g.GaveUp? && g.attempts == 2 && ReplyText(g) == FallbackReply
  {
    var body := "Unknown error";
    MissingCharNotContained(body, "quota", 0);
    MissingCharNotContained(body, "rate", 1);
    MissingCharNotContained(body, "429", 0);
    assert NatToString(500) == "500";
    MissingCharNotContained("500", "429", 0);
    RethrownHttpErrorContinuesIff("m2", 500, body);
  }

  /** A 404 whose body just says "not found" is not a retryable error: the
      cascade stops there and never sees the second model's answer. */
  lemma NotFoundStops()
    ensures var g := Cascade(["m1", "m2"], [HttpError(404, "model not found"), Completed(Some("hello"))]);
            g == GaveUp(1, Some(Raised(ApiErrorMessage(404, "model not found"))))
  {
    var body := "model not found";
    MissingCharNotContained(body, "quota", 0);
    MissingCharNotContained(body, "rate", 1);
    MissingCharNotContained(body, "429", 0);
    assert NatToString(404) == "404";
    MissingCharNotContained("404", "429", 1);
    RethrownHttpErrorContinuesIff("m1", 404, body);
  }

  /** "rate" is a bare substring test: a 404 body naming the
      `generateContent` method contains "rate", so the cascade moves on. */
  lemma GenerateContentBodyContinues()
    ensures var g := Cascade(["m1", "m2"], [HttpError(404, "not supported for generateContent"), Completed(Some("hello"))]);
            g == Answered("hello", 2)
  {
    var body := "not supported for generateContent";
    assert body[22..26] == "rate";
    ContainsAt(body, "rate", 22);
  }

  /** An OK response with an empty completion counts as a failure. */
  lemma EmptyCompletionFallsBack()
    ensures var g := Cascade(["m1"], [Completed(Some(""))]);
            g == GaveUp(1, Some(EmptyResponse("m1"))) && ReplyText(g) == FallbackReply
  {
  }
}
