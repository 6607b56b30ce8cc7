/** The per-day request quota of main.py:314-334: a date and a counter,
    reset when the date changes, refusing requests beyond `DAILY_LIMIT`. */
module DailyQuota {
  import opened Outcomes

  const DailyLimit: int := 500
  const LimitDetail: string := "Przekroczono dzienny limit zapytań do serwera (500). Spróbuj jutro."

  /** A calendar day, as its ordinal number (what `date.toordinal()` gives). */
  type Date = int

  /** The two module globals `_daily_usage_date` and `_daily_usage_count`. */
  datatype QuotaState = QuotaState(date: Date, count: int)

  /** The state after one call, and the exception it raised, if any. */
  datatype Step = Step(state: QuotaState, rejection: Option<Failure>)

  /** One call of `check_daily_limit` on day `today`. */
  function AdmitStep(s: QuotaState, today: Date): (r: Step)
    ensures r.state.date == today
    ensures today != s.date ==> r.rejection.None? && r.state.count == 1
    ensures today == s.date ==> (r.rejection.None? <==> s.count < DailyLimit)
    ensures today == s.date && r.rejection.None? ==> r.state.count == s.count + 1
    ensures r.rejection.Some? ==> r.state == s && r.rejection == Some(HttpException(429, LimitDetail))
  {
    var current := if today != s.date then QuotaState(today, 0) else s;
    if current.count >= DailyLimit then Step(current, Some(HttpException(429, LimitDetail)))
    else Step(QuotaState(today, current.count + 1), None)
  }

  /** The bound the counter keeps. */
  predicate WithinLimit(s: QuotaState) {
    0 <= s.count <= DailyLimit
  }

  lemma {:induction false} AdmitKeepsLimit(s: QuotaState, today: Date)
    requires WithinLimit(s)
    ensures WithinLimit(AdmitStep(s, today).state)
  {
  }

  /** The requests admitted on day `d` among calls made on the days `dates`,
      in order, starting from `s`. */
  function AdmittedOn(s: QuotaState, dates: seq<Date>, d: Date): nat
    decreases |dates|
  {
    if dates == [] then 0
    else
      var step := AdmitStep(s, dates[0]);
      (if step.rejection.None? && dates[0] == d then 1 else 0) + AdmittedOn(step.state, dates[1..], d)
  }

  /** The count already used up on day `d` in state `s`. */
  function UsedOn(s: QuotaState, d: Date): int {
    if s.date == d then s.count else 0
  }

  function Min(a: int, b: int): int {
    if a <= b then a else b
  }

  /** `n` calls on one day admit as many requests as the quota still has
      room for, and reject the rest. */
  lemma {:induction false} SameDayAdmissions(s: QuotaState, dates: seq<Date>, d: Date)
    requires WithinLimit(s)
    requires forall k :: 0 <= k < |dates| ==> dates[k] == d
    ensures AdmittedOn(s, dates, d) == Min(|dates|, DailyLimit - UsedOn(s, d))
    decreases |dates|
  {
    if dates != [] {
      var next := AdmitStep(s, dates[0]).state;
      SameDayAdmissions(next, dates[1..], d);
    }
  }

  /** No admissions on a day the calls never reach. */
  lemma {:induction false} NoCallsNoAdmissions(s: QuotaState, dates: seq<Date>, d: Date)
    requires forall k :: 0 <= k < |dates| ==> dates[k] != d
    ensures AdmittedOn(s, dates, d) == 0
    decreases |dates|
  {
    if dates != [] {
      NoCallsNoAdmissions(AdmitStep(s, dates[0]).state, dates[1..], d);
    }
  }

  /** Days that never go back: the clock only moves forward from `start`. */
  predicate Forward(start: Date, dates: seq<Date>) {
    (forall k :: 0 <= k < |dates| ==> start <= dates[k])
    && forall j, k :: 0 <= j < k < |dates| ==> dates[j] <= dates[k]
  }

  /** While the date only moves forward, at most `DailyLimit` requests are
      admitted on any one day, counting those already admitted in `s`. */
  lemma {:induction false} AtMostLimitPerDay(s: QuotaState, dates: seq<Date>, d: Date)
    requires WithinLimit(s)
    requires Forward(s.date, dates)
    ensures AdmittedOn(s, dates, d) + UsedOn(s, d) <= DailyLimit
    decreases |dates|
  {
    if dates != [] {
      var next := AdmitStep(s, dates[0]).state;
      assert Forward(next.date, dates[1..]);
      if dates[0] != d && s.date == d {
        NoCallsNoAdmissions(next, dates[1..], d);
      } else {
        AtMostLimitPerDay(next, dates[1..], d);
      }
    }
  }

  /** Without `Forward` the bound fails: with day 1's quota used up, a call
      on day 2 resets the counter, and a call back on day 1 is admitted as
      number 501 of that day. */
  lemma {:induction false} ClockGoingBackExceedsLimit()
    ensures WithinLimit(QuotaState(1, DailyLimit)) && !Forward(1, [2, 1])
    ensures AdmittedOn(QuotaState(1, DailyLimit), [2, 1], 1) + UsedOn(QuotaState(1, DailyLimit), 1)
            == DailyLimit + 1
  {
    var dates := [2, 1];
    assert !(dates[0] <= dates[1]);
    var s := QuotaState(1, DailyLimit);
    var s1 := AdmitStep(s, 2).state;
    assert s1 == QuotaState(2, 1);
    assert AdmittedOn(s1, [1], 1) == 1 by {
      assert AdmitStep(s1, 1) == Step(QuotaState(1, 1), None);
      assert [1][1..] == [];
    }
    assert [2, 1][1..] == [1];
  }

  /** The module-level counter of main.py, updated in place. */
  class DailyUsage {
    var usageDate: Date
    var usageCount: int

    /** The values at import time: today's date and no requests. */
    constructor(today: Date)
      ensures usageDate == today && usageCount == 0
    {
      usageDate := today;
      usageCount := 0;
    }

    function State(): QuotaState
      reads this
    {
      QuotaState(usageDate, usageCount)
    }

    /** `check_daily_limit`, with the current date passed in. */
    method Admit(today: Date) returns (rejection: Option<Failure>)
      modifies this
      ensures Step(State(), rejection) == AdmitStep(old(State()), today)
      ensures WithinLimit(old(State())) ==> WithinLimit(State())
    {
      if today != usageDate {
        usageDate := today;
        usageCount := 0;
      }
      if usageCount >= DailyLimit {
        return Some(HttpException(429, LimitDetail));
      }
      usageCount := usageCount + 1;
      return None;
    }
  }
}
