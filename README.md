# AgriStack advice API: verified model of the request path

The service is a small FastAPI proxy in front of the Gemini model. It takes a
crop description, asks the model for plant-protection advice and returns the
JSON the model was told to produce. This project models in Dafny the parts
of `main.py` that decide what happens to a request. Each is proved against
its own specification:

- **The daily quota** (`check_daily_limit`). The two module globals become
  the fields of the class `DailyQuota.DailyUsage`, and `Admit` updates them
  in place.
  - A new day resets the count.
  - A request is refused with HTTP 429 once 500 have been admitted that day.
  - Otherwise the count goes up by one.
- **The user prompt** (`Prompt`). Request fields are written into a fixed
  template.
  - A missing or empty text field becomes `nie podano`.
  - The day count becomes `nie podano` only when it is missing, so 0 is
    written as `0`.
- **The reply text** (`ModelText`). The reply's `text` is used when it is
  non-empty.
  - Otherwise the text parts of the first candidate are joined and trimmed,
    by a loop over the parts as in the source.
  - A reply without usable text is HTTP 500.
- **JSON extraction** (`JsonExtraction`). `_extract_json_str` trims the
  text, keeps what lies between the first and last code-fence markers
  (with the inner markers deleted), then cuts from the first `{` to the last
  `}`. `parse_gemini_json` tries the whole text first and the extracted span
  second.
  - The extraction's `ValueError` escapes as its own outcome. It is not the
    HTTP 500 raised when the span does not parse; the model keeps the two
    apart.
- **The endpoint** (`Endpoint`). It composes the above in the source's
  order. The quota is charged before the model is asked.

The Python `str` operations involved are modelled in `PyStr`:
- `strip` with Python's whitespace set;
- `find` and `rfind`, which return -1 when nothing is found;
- `split`, whose matches never overlap and are scanned left to right;
- `join`;
- `Count`, the number of separators `split` finds. main.py never calls
  `str.count`; the model uses this count to state what `split` returns.

Outcomes are values: `Result` holds either the value or the exception raised
(`Outcomes.Failure`).

`value or 'nie podano'` renders `None` and `""` alike, and so does
`Prompt.OrNotGiven`. One more consequence the model makes visible: a
literal `nie podano` typed by the client cannot be told apart from a
missing field (`Prompt.OrNotGiven`'s first postcondition).

## Model

| member | source | states |
|---|---|---|
| PyStr.Strip | main.py:365 | the result is a slice of the text with only whitespace outside it, and a non-empty result starts and ends with a non-space character |
| PyStr.StripIdempotent | main.py:365 | trimming an already trimmed text changes nothing |
| PyStr.Find | main.py:372 | the result is -1 or the first index where the pattern occurs; -1 exactly when it occurs nowhere |
| PyStr.RFind | main.py:373 | the result is -1 or the last index where the pattern occurs; -1 exactly when it occurs nowhere |
| PyStr.Join | main.py:370 | definition without contract (`sep.join`, also at main.py:464); its properties are stated by `PyStr.SplitJoin` and `ModelText.JoinNonEmptyTexts` |
| PyStr.Split | main.py:368 | a split has one more piece than there are non-overlapping separators |
| PyStr.SplitJoin | main.py:368 | joining the pieces of a split with the separator gives back the text |
| PyStr.SplitPiecesFree | main.py:368 | no piece of a split contains the separator |
| PyStr.LastSplitShape | main.py:368-370 | the text before the last piece is all the other pieces joined by the separator, then the separator the split found last, with no separator starting after it |
| JsonExtraction.StripFences | main.py:367-370 | with fewer than two markers the text is kept; with two or more the result holds no marker and is already trimmed |
| JsonExtraction.MiddleFree | main.py:369-370 | the middle pieces glued together hold no marker, so deleting the inner markers creates no new one |
| JsonExtraction.FenceStripShape | main.py:365-370 | with two or more markers, the text runs: the first marker, the middle pieces joined by markers, the last marker `split` finds; only marker-free text lies outside; no middle piece holds a marker or ends with a backtick, so these are the markers a left-to-right scan takes; the result is the middle pieces glued and trimmed |
| JsonExtraction.Cleaned | main.py:365-370 | the text searched for braces is already trimmed, and with fewer than two markers it is the trimmed reply; the fence case is stated by `JsonExtraction.StripFences` and `JsonExtraction.FenceStripShape` |
| JsonExtraction.ExtractJsonStr | main.py:359-378 | succeeds exactly when the cleaned text has a `{` before a `}`; it then returns the slice from the first `{` to the last `}`; otherwise it raises `ValueError` with the source's message |
| JsonExtraction.ExtractIdempotent | main.py:365-378 | extraction applied to its own result returns that result unchanged |
| JsonExtraction.MalformedDetail | main.py:396 | definition without contract (the 500 detail); `JsonExtraction.ParseGeminiJson` states when it is raised and with which parse error and original text |
| JsonExtraction.ParseGeminiJson | main.py:381-397 | a text that parses directly is returned as parsed, without extraction; otherwise the extracted span's parse is returned; a missing span is the extraction's `ValueError`; a span that does not parse is HTTP 500 whose detail holds the parse error and the original text |
| DailyQuota.AdmitStep | main.py:320-334 | the stored date becomes today; a new day admits and sets the count to 1; on the same day a request is admitted exactly when the count is below 500 and then the count goes up by one; a refusal is HTTP 429 with the source's message and leaves the state unchanged |
| DailyQuota.AdmitKeepsLimit | main.py:328-334 | a count between 0 and 500 stays between 0 and 500 |
| DailyQuota.SameDayAdmissions | main.py:324-334 | calls on one day admit either all the requests or as many as the day's quota still allows, whichever is smaller |
| DailyQuota.AtMostLimitPerDay | main.py:314-334 | while the date only moves forward, no day admits more than 500 requests, counting those already admitted |
| DailyQuota.ClockGoingBackExceedsLimit | main.py:324-334 | when the date goes back to a day whose quota is used up, that day admits request 501 |
| DailyQuota.DailyUsage.constructor | main.py:316-317 | the counter starts on the given day with no requests |
| DailyQuota.DailyUsage.Admit | main.py:320-334 | updates the fields and refuses exactly as `AdmitStep` says, and keeps the 0..500 bound |
| Prompt.OrNotGiven | main.py:430-431 | the sentinel is written exactly when the field is missing, empty or itself the sentinel; otherwise the field's own text |
| Prompt.NatToString | main.py:432 | `str(n)` of a non-negative count: decimal digits only, and a leading `0` only in "0" itself |
| Prompt.IntToString | main.py:432 | `str(n)`: a leading `-` exactly for a negative number, otherwise a digit; `Prompt.IntRoundTrip` proves it reads back as `n` |
| Prompt.IntRoundTrip | main.py:432 | the decimal rendering of an integer reads back as that integer |
| Prompt.IntOrNotGiven | main.py:432 | the day count renders as the sentinel exactly when it is missing, and a present count as its decimal `str(n)`, whose digit string has no leading zero, so 0 is written "0" |
| Prompt.IntOrNotGivenInjective | main.py:432 | different day counts, a missing one included, render differently |
| Prompt.UserInput | main.py:425-437 | definition without contract (the `user_input` template); its properties are stated by `Prompt.MissingAndEmptyAlike` and `Prompt.DayCountDistinguished` |
| Prompt.MissingAndEmptyAlike | main.py:430-433 | a missing and an empty `bbch`, season context or situation description give the same prompt |
| Prompt.DayCountDistinguished | main.py:425-437 | requests that differ only in the day count give different prompts, so 0 days is not sent as "not given" |
| ModelText.NonEmptyTexts | main.py:460-463 | no collected text is empty, and there are never more of them than parts |
| ModelText.NonEmptyTextsInOrder | main.py:460-463 | the collected texts are exactly the non-empty part texts, in order: one per part with a non-empty text, placed after the texts of the earlier such parts |
| ModelText.JoinNonEmptyTexts | main.py:460-464 | joining only the non-empty texts gives the same string as joining all of the parts' texts |
| ModelText.FirstCandidateParts | main.py:455-459 | definition without contract (`candidates[0].content.parts`, `None` where line 459 would raise); `ModelText.ResponseText` states what each outcome gives |
| ModelText.ResponseText | main.py:450-469 | a non-empty reply `text` is used unchanged; text reaching the parser is never empty; every failure is HTTP 500; a reply without a first candidate that has content and parts gives "Brak tekstu w odpowiedzi modelu" |
| ModelText.FallbackIsTrimmedConcatenation | main.py:454-469 | without reply text, the result is every part's text of the first candidate, concatenated and trimmed, or HTTP 500 "Pusta odpowiedź z modelu" when that is empty |
| ModelText.FallbackIsTrimmed | main.py:464 | fallback text has no leading or trailing whitespace |
| ModelText.ResolveText | main.py:450-469 | the loop over the parts computes exactly `ResponseText` |
| Endpoint.AdviceOutcome | main.py:413-472 | a refused request ends with the quota's refusal; an admitted request whose reply has no usable text ends with that 500; otherwise the outcome is `parse_gemini_json` of the reply text, its `ValueError` and 500 included |
| Endpoint.OutcomeFailures | main.py:413-472 | a request fails only with the extraction's `ValueError`, HTTP 429 or HTTP 500 |
| Endpoint.RefusedBeforeModel | main.py:414-417 | a refused request's outcome is the 429, whatever the model and the parser would do |
| Endpoint.GetAdvice | main.py:413-472 | charges the quota as `AdmitStep` says and returns `AdviceOutcome` |

## Left out

- The Gemini client, the `generate_content` call and its HTTP 502 on failure (main.py:22, 439-447) are network I/O. The reply is an input: `Endpoint` takes the model as a function `generate` from prompt to reply, and that call never fails in the model.
- The reply object's `text` property is computed by the client library. The model takes its value as given (`ModelResponse.text`).
- For `json.loads` and pydantic's `model_validate`, the model does not implement JSON. It takes a parser function (`Schemas.JsonParser`) that returns either the validated response or the exception's message.
- In the 500 detail of main.py:396, `{e}` is that message as the parser reports it. Python's own exception texts are not modelled.
- FastAPI is not modelled: routing, `Depends`, validating the request body (and its 422), serialising the response, the health-check route and the port read at startup (main.py:402-411, 476-480).
- Loading the environment, the missing-key check at startup, and the contents of `SYSTEM_PROMPT`, `GOOGLE_SEARCH_TOOL` and `BASE_CONFIG` are configuration, outside the request path.
- `date.today()` is a parameter. A date is its ordinal day number.
- Concurrent requests are not modelled. FastAPI runs the synchronous `check_daily_limit` in a thread pool, so two calls can interleave between the comparison of main.py:328 and the `+=` of main.py:334 and admit more than 500 requests in a day. The model runs the calls one after another, and `DailyQuota.AtMostLimitPerDay` holds only for calls that do not interleave.
- Python strings can hold lone surrogate code points (from `json.loads('"\\ud800"')`, say); a Dafny `char` is a Unicode scalar value, so such strings are not modelled.
- The Python duck typing of main.py:450-463 (`getattr`, `hasattr`, attribute lookups on a missing `content`) is modelled as `Option` fields. Other exceptions the `except Exception` at main.py:465 would also turn into the same 500 are not modelled. Examples are a `text` that is not a string, or `candidates` that cannot be indexed.
- DailyQuota.AtMostLimitPerDay: it is proved only for dates that never go back. With a clock that jumps back and forth, the counter resets on every change, and there is no bound then: `DailyQuota.ClockGoingBackExceedsLimit` shows a day with 501 admissions.
- Prompt.IntToString: it renders Python's unbounded `int`. Pydantic's coercion of other input types to `int` happens before the model.

