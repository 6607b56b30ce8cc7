/** The user prompt `get_advice` sends to the model (main.py:425-437): the
    request's fields written into a fixed Polish template, with the sentinel
    'nie podano' ("not given") for a field the client left out. */
module Prompt {
  import opened Outcomes
  import opened Schemas

  const NotGiven: string := "nie podano"

  /** An optional text field: `value or 'nie podano'`, so a missing field and
      an empty one both become the sentinel. */
  function OrNotGiven(o: Option<string>): (r: string)
    ensures r == NotGiven <==> o.None? || o.value == "" || o.value == NotGiven
    ensures r != NotGiven ==> o == Some(r)
  {
    if o.Some? && o.value != "" then o.value else NotGiven
  }

  // ---------------------------------------------------------------------
  // Python's str(int) and its inverse

  predicate IsDigit(c: char) {
    '0' <= c <= '9'
  }

  function DigitChar(d: int): (c: char)
    requires 0 <= d < 10
    ensures IsDigit(c)
  {
    "0123456789"[d]
  }

  function DigitValue(c: char): (d: int)
    requires IsDigit(c)
    ensures 0 <= d < 10 && DigitChar(d) == c
  {
    c as int - '0' as int
  }

  /** The decimal digits of `n`, most significant first, with no leading
      zero: 0 is written "0". */
  function NatToString(n: nat): (r: string)
    ensures r != [] && forall k :: 0 <= k < |r| ==> IsDigit(r[k])
    ensures r[0] == '0' ==> n == 0 && r == "0"
    decreases n
  {
    if n < 10 then [DigitChar(n)] else NatToString(n / 10) + [DigitChar(n % 10)]
  }

  /** `str(n)` for a Python `int`: a leading '-' for a negative number. */
  function IntToString(n: int): (r: string)
    ensures r != [] && (r[0] == '-' || IsDigit(r[0]))
    ensures r[0] == '-' <==> n < 0
  {
    if n < 0 then "-" + NatToString(-n) else NatToString(n)
  }

  /** The number a string of decimal digits denotes. */
  function DecimalValue(s: string): (n: nat)
    requires forall k :: 0 <= k < |s| ==> IsDigit(s[k])
    decreases |s|
  {
    if s == [] then 0 else DecimalValue(s[..|s| - 1]) * 10 + DigitValue(s[|s| - 1])
  }

  /** Python's `int(s)` on the strings `str` produces. */
  function ParseInt(s: string): int
    requires s != []
    requires s[0] == '-' ==> forall k :: 1 <= k < |s| ==> IsDigit(s[k])
    requires s[0] != '-' ==> forall k :: 0 <= k < |s| ==> IsDigit(s[k])
  {
    if s[0] == '-' then -(DecimalValue(s[1..]) as int) else DecimalValue(s)
  }

  lemma {:induction false} NatRoundTrip(n: nat)
    ensures DecimalValue(NatToString(n)) == n
    decreases n
  {
    var r := NatToString(n);
    if n >= 10 {
      NatRoundTrip(n / 10);
      assert r[..|r| - 1] == NatToString(n / 10);
    }
  }

  /** `int(str(n)) == n`. */
  lemma {:induction false} IntRoundTrip(n: int)
    ensures ParseInt(IntToString(n)) == n
  {
    if n < 0 {
      NatRoundTrip(-n);
      assert IntToString(n)[1..] == NatToString(-n);
    } else {
      NatRoundTrip(n);
    }
  }

  /** The day-count field: `days if days is not None else 'nie podano'`. */
  function IntOrNotGiven(o: Option<int>): (r: string)
    ensures r == NotGiven <==> o.None?
    ensures o.Some? ==> r == IntToString(o.value)
  {
    if o.Some? then IntToString(o.value) else NotGiven
  }

  /** The day count is rendered without loss: distinct values, including a
      missing count and a count of 0, give distinct texts. */
  lemma {:induction false} IntOrNotGivenInjective(a: Option<int>, b: Option<int>)
    requires IntOrNotGiven(a) == IntOrNotGiven(b)
    ensures a == b
  {
    if a.Some? && b.Some? {
      IntRoundTrip(a.value);
      IntRoundTrip(b.value);
    }
  }

  // ---------------------------------------------------------------------
  // The template

  /** The prompt up to where the day count goes. */
  function PromptHead(req: AdviceRequest): string {
    "\nDANE WEJŚCIOWE Z APLIKACJI\n\nUprawa: " + req.crop
    + "\nStan zdrowotny: " + req.status
    + "\nFaza BBCH: " + OrNotGiven(req.bbch)
    + "\nKontekst sezonu: " + OrNotGiven(req.seasonContext)
    + "\nCzas od ostatniego oprysku (dni): "
  }

  /** The prompt after the day count. */
  function PromptTail(req: AdviceRequest): string {
    "\nOpis sytuacji: " + OrNotGiven(req.situationDescription)
    + "\n\nPrzygotuj rekomendację zgodnie z instrukcją systemową\n"
    + "i zwróć WYŁĄCZNIE poprawny JSON w ustalonym formacie.\n"
  }

  /** `user_input` of `get_advice`. */
  function UserInput(req: AdviceRequest): string {
    PromptHead(req) + IntOrNotGiven(req.timeSinceLastSprayDays) + PromptTail(req)
  }

  /** A missing optional text field and an empty one give the same prompt. */
  lemma {:induction false} MissingAndEmptyAlike(req: AdviceRequest)
    ensures UserInput(req.(bbch := None)) == UserInput(req.(bbch := Some("")))
    ensures UserInput(req.(seasonContext := None)) == UserInput(req.(seasonContext := Some("")))
    ensures UserInput(req.(situationDescription := None)) == UserInput(req.(situationDescription := Some("")))
  {
  }

  /** Equal concatenations around a shared prefix and suffix have equal
      middles. */
  lemma {:induction false} CancelAround(a: string, x: string, y: string, b: string)
    requires a + x + b == a + y + b
    ensures x == y
  {
    var u, v := a + x + b, a + y + b;
    assert |x| == |y|;
    assert u[|a|..|a| + |x|] == x;
    assert v[|a|..|a| + |y|] == y;
  }

  /** Requests that differ only in the day count give different prompts, so
      in particular a count of 0 is not rendered like a missing count. */
  lemma {:induction false} DayCountDistinguished(req: AdviceRequest, days: Option<int>)
    requires days != req.timeSinceLastSprayDays
    ensures UserInput(req.(timeSinceLastSprayDays := days)) != UserInput(req)
  {
    var other := req.(timeSinceLastSprayDays := days);
    if UserInput(other) == UserInput(req) {
      assert PromptHead(other) == PromptHead(req);
      assert PromptTail(other) == PromptTail(req);
      CancelAround(PromptHead(req), IntOrNotGiven(days), IntOrNotGiven(req.timeSinceLastSprayDays), PromptTail(req));
      IntOrNotGivenInjective(days, req.timeSinceLastSprayDays);
    }
  }
}
