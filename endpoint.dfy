/** `get_advice` (main.py:413-472) around the model call: the quota guard
    its dependency runs first, the prompt, the reply's text, and the JSON
    parse. The model call is a parameter `generate`; its own failure (the 502
    of lines 444-447) is not part of this model. */
module Endpoint {
  import opened Outcomes
  import opened Schemas
  import opened DailyQuota
  import opened Prompt
  import opened ModelText
  import opened JsonExtraction

  /** The model, as a function from the user prompt to its reply. */
  type Generator = string -> ModelResponse

  /** The outcome of one request on day `today` with the quota in state `s`. */
  function AdviceOutcome(s: QuotaState, today: Date, req: AdviceRequest,
                         generate: Generator, parse: JsonParser): (r: Result<AdviceResponse>)
    ensures AdmitStep(s, today).rejection.Some? ==> r == Err(AdmitStep(s, today).rejection.value)
    ensures AdmitStep(s, today).rejection.None? && ResponseText(generate(UserInput(req))).Err?
            ==> r == Err(ResponseText(generate(UserInput(req))).error)
    ensures AdmitStep(s, today).rejection.None? && ResponseText(generate(UserInput(req))).Ok?
            ==> r == ParseGeminiJson(ResponseText(generate(UserInput(req))).value, parse)
    ensures r.Ok? ==> AdmitStep(s, today).rejection.None? && ResponseText(generate(UserInput(req))).Ok?
  {
    match AdmitStep(s, today).rejection
    case Some(e) => Err(e)
    case None =>
      match ResponseText(generate(UserInput(req)))
      case Err(e) => Err(e)
      case Ok(text) => ParseGeminiJson(text, parse)
  }

  /** The only failures of a request: the raw `ValueError` of a reply with no
      JSON span, the 429 of the quota, and the 500s of an unusable reply. */
  lemma {:induction false} OutcomeFailures(s: QuotaState, today: Date, req: AdviceRequest,
                                           generate: Generator, parse: JsonParser)
    ensures var r := AdviceOutcome(s, today, req, generate, parse);
            r.Err? ==> r.error.ValueError? || r.error.statusCode == 429 || r.error.statusCode == 500
  {
  }

  /** A refused request never reaches the model: its outcome is the 429
      whatever the model and the parser would have done. */
  lemma {:induction false} RefusedBeforeModel(s: QuotaState, today: Date, req: AdviceRequest,
                                              generate: Generator, parse: JsonParser,
                                              generate': Generator, parse': JsonParser)
    requires AdmitStep(s, today).rejection.Some?
    ensures AdviceOutcome(s, today, req, generate, parse) == AdviceOutcome(s, today, req, generate', parse')
    ensures AdviceOutcome(s, today, req, generate, parse) == Err(HttpException(429, LimitDetail))
  {
  }

  /** The endpoint: the quota is charged before the model is asked, so an
      admitted request that fails later still uses up its place. */
  method GetAdvice(usage: DailyUsage, today: Date, req: AdviceRequest,
                   generate: Generator, parse: JsonParser) returns (r: Result<AdviceResponse>)
    modifies usage
    ensures usage.State() == AdmitStep(old(usage.State()), today).state
    ensures r == AdviceOutcome(old(usage.State()), today, req, generate, parse)
  {
    var rejection := usage.Admit(today);
    if rejection.Some? {
      return Err(rejection.value);
    }
    var response := generate(UserInput(req));
    var text := ResolveText(response);
    if text.Err? {
      return Err(text.error);
    }
    return ParseGeminiJson(text.value, parse);
  }
}
