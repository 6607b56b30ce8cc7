/** Recovering the advice JSON from the model's reply: `_extract_json_str`
    and `parse_gemini_json` of main.py. */
module JsonExtraction {
  import opened Outcomes
  import opened PyStr
  import opened Schemas

  /** The code-fence marker. */
  const Fence := "```"

  const NoJsonMessage := "Nie znaleziono poprawnego fragmentu JSON w odpowiedzi modelu"

  /** A backtick right before a marker starts a marker of its own. */
  lemma {:induction false} BacktickBeforeMarker(s: string, i: int)
    requires 1 <= i && OccursAt(s, Fence, i) && s[i - 1] == '`'
    ensures OccursAt(s, Fence, i - 1)
  {
    assert s[i] == s[i..i + 3][0] && s[i + 1] == s[i..i + 3][1];
    assert s[i - 1..i + 2] == [s[i - 1], s[i], s[i + 1]];
  }

  /** `p` does not end with a backtick. */
  predicate NoTrailingBacktick(p: string) {
    p == [] || p[|p| - 1] != '`'
  }

  /** Every piece of a split on the marker, except the last, does not end
      with a backtick: that backtick would have started an earlier marker. */
  lemma {:induction false} PiecesNoTrailingBacktick(s: string, k: nat, parts: seq<string>)
    requires k <= |s| && parts == SplitFrom(s, Fence, k)
    ensures forall p :: 0 <= p < |parts| - 1 ==> NoTrailingBacktick(parts[p])
    decreases |s| - k
  {
    var i := FindFrom(s, Fence, k);
    if i >= 0 {
      var rest := SplitFrom(s, Fence, i + |Fence|);
      var head := s[k..i];
      assert NoTrailingBacktick(head) by {
        if head != [] && head[|head| - 1] == '`' {
          assert s[i - 1] == head[|head| - 1];
          BacktickBeforeMarker(s, i);
        }
      }
      assert parts == [head] + rest by { SplitUnfold(s, Fence, k, i); }
      PiecesNoTrailingBacktick(s, i + |Fence|, rest);
      ConsNoTrailingBacktick(head, rest, parts);
    }
  }

  /** Pieces with one more piece in front that does not end with a
      backtick keep the property for all but their last. */
  lemma {:induction false} ConsNoTrailingBacktick(x: string, rest: seq<string>, parts: seq<string>)
    requires parts == [x] + rest && NoTrailingBacktick(x)
    requires forall p :: 0 <= p < |rest| - 1 ==> NoTrailingBacktick(rest[p])
    ensures forall p :: 0 <= p < |parts| - 1 ==> NoTrailingBacktick(parts[p])
  {
    forall p | 0 <= p < |parts| - 1 ensures NoTrailingBacktick(parts[p]) {
      if p > 0 {
        assert parts[p] == rest[p - 1];
      }
    }
  }

  /** Gluing two marker-free texts creates no marker when the first does not
      end with a backtick. */
  lemma {:induction false} FreeConcat(x: string, y: string)
    requires FreeOf(x, Fence) && FreeOf(y, Fence) && NoTrailingBacktick(x)
    ensures FreeOf(x + y, Fence)
  {
    var u := x + y;
    assert u[..|x|] == x && u[|x|..] == y;
    forall j ensures !OccursAt(u, Fence, j) {
      if 0 <= j && j + 3 <= |u| {
        if j + 3 <= |x| {
          OccursInSlice(u, Fence, 0, |x|, j);
          assert u[0..|x|] == x;
        } else if j >= |x| {
          OccursInSlice(u, Fence, |x|, |u|, j - |x|);
          assert u[|x|..|u|] == y;
        } else {
          assert u[j..j + 3][|x| - 1 - j] == x[|x| - 1];
        }
      }
    }
  }

  /** Concatenating marker-free pieces, none but the last ending with a
      backtick, gives a marker-free text. */
  lemma {:induction false} FreeJoin(xs: seq<string>)
    requires forall p :: 0 <= p < |xs| ==> FreeOf(xs[p], Fence)
    requires forall p :: 0 <= p < |xs| - 1 ==> NoTrailingBacktick(xs[p])
    ensures FreeOf(Join("", xs), Fence)
    decreases |xs|
  {
    if |xs| > 1 {
      FreeJoin(xs[1..]);
      assert Join("", xs) == xs[0] + Join("", xs[1..]);
      FreeConcat(xs[0], Join("", xs[1..]));
    } else if |xs| == 0 {
      assert Join("", xs) == "";
      assert forall j :: !OccursAt("", Fence, j);
    }
  }

  /** The pieces strictly between the first and the last piece. */
  function Middle(parts: seq<string>): seq<string>
    requires |parts| >= 2
  {
    parts[1..|parts| - 1]
  }

  /** What lies between the first and the last marker `split` finds, with
      the markers in between deleted, holds no marker. */
  lemma {:induction false} MiddleFree(s: string)
    requires Count(s, Fence) >= 2
    ensures FreeOf(Join("", Middle(Split(s, Fence))), Fence)
  {
    var parts := Split(s, Fence);
    var middle := Middle(parts);
    MiddlePiecesFree(s);
    PiecesNoTrailingBacktick(s, 0, parts);
    forall p | 0 <= p < |middle| - 1 ensures NoTrailingBacktick(middle[p]) {
      assert middle[p] == parts[p + 1];
    }
    FreeJoin(middle);
  }

  /** A slice of a marker-free text is marker-free. */
  lemma {:induction false} FreeSlice(s: string, a: int, b: int)
    requires 0 <= a <= b <= |s| && FreeOf(s, Fence)
    ensures FreeOf(s[a..b], Fence)
  {
    forall j ensures !OccursAt(s[a..b], Fence, j) { OccursInSlice(s, Fence, a, b, j); }
  }

  /** Trimming a marker-free text leaves it marker-free. */
  lemma {:induction false} StripFree(s: string)
    requires FreeOf(s, Fence)
    ensures FreeOf(Strip(s), Fence)
  {
    var a := StripStart(s);
    FreeSlice(s, a, a + |Strip(s)|);
  }

  /** A marker counted means a marker is found. */
  lemma {:induction false} CountedIsFound(s: string)
    requires Count(s, Fence) >= 1
    ensures Find(s, Fence) >= 0
  {
  }

  /** Lines 367-370: with at least two markers, keep what lies between the
      first and the last, markers deleted, and trim it; otherwise keep the
      text. */
  function StripFences(cleaned: string): (r: string)
    ensures Count(cleaned, Fence) < 2 ==> r == cleaned
    ensures Count(cleaned, Fence) >= 2 ==> FreeOf(r, Fence) && r == Strip(r)
  {
    if Find(cleaned, Fence) >= 0 then
      var parts := Split(cleaned, Fence);
      if |parts| >= 3 then
        var joined := Join("", Middle(parts));
        MiddleFree(cleaned);
        StripFree(joined);
        StripIdempotent(joined);
        Strip(joined)
      else cleaned
    else
      assert Count(cleaned, Fence) < 1 by {
        if Count(cleaned, Fence) >= 1 { CountedIsFound(cleaned); }
      }
      cleaned
  }

  /** Lines 365-370: the text `_extract_json_str` searches for braces. */
  function Cleaned(text: string): (r: string)
    ensures Count(Strip(text), Fence) < 2 ==> r == Strip(text)
    ensures Strip(r) == r
  {
    StripIdempotent(text);
    StripFences(Strip(text))
  }

  /** The text holds a `{` somewhere before a `}`. */
  ghost predicate HasBracePair(c: string) {
    exists i, j :: 0 <= i < j < |c| && c[i] == '{' && c[j] == '}'
  }

  /** `v` is the slice of `c` starting at `i`, running from a `{` to a `}`,
      with no `{` before it and no `}` after it in `c`. */
  ghost predicate BraceSpanAt(c: string, v: string, i: int) {
    0 <= i && i + |v| <= |c| && v == c[i..i + |v|]
    && |v| >= 2 && v[0] == '{' && v[|v| - 1] == '}'
    && (forall k :: 0 <= k < i ==> c[k] != '{')
    && (forall k :: i + |v| <= k < |c| ==> c[k] != '}')
  }

  /** `s.find(c)` for a single character. */
  lemma {:induction false} FindChar(s: string, c: char)
    ensures Find(s, [c]) == -1 <==> forall k :: 0 <= k < |s| ==> s[k] != c
    ensures Find(s, [c]) >= 0 ==> Find(s, [c]) < |s| && s[Find(s, [c])] == c
                                   && forall k :: 0 <= k < Find(s, [c]) ==> s[k] != c
  {
    forall k ensures OccursAt(s, [c], k) <==> 0 <= k < |s| && s[k] == c { OccursAtChar(s, c, k); }
  }

  /** `s.rfind(c)` for a single character. */
  lemma {:induction false} RFindChar(s: string, c: char)
    ensures RFind(s, [c]) == -1 <==> forall k :: 0 <= k < |s| ==> s[k] != c
    ensures RFind(s, [c]) >= 0 ==> RFind(s, [c]) < |s| && s[RFind(s, [c])] == c
                                    && forall k :: RFind(s, [c]) < k < |s| ==> s[k] != c
  {
    forall k ensures OccursAt(s, [c], k) <==> 0 <= k < |s| && s[k] == c { OccursAtChar(s, c, k); }
  }

  /** The first `{` comes before the last `}` exactly when the text has a
      brace pair. */
  lemma {:induction false} BracePairFound(c: string)
    ensures Find(c, "{") != -1 && RFind(c, "}") != -1 && Find(c, "{") < RFind(c, "}")
            <==> HasBracePair(c)
  {
    FindChar(c, '{');
    RFindChar(c, '}');
  }

  /** From the first `{` to the last `}` is a brace span. */
  lemma {:induction false} BraceSpanFound(c: string)
    requires Find(c, "{") != -1 && RFind(c, "}") != -1 && Find(c, "{") < RFind(c, "}")
    ensures BraceSpanAt(c, c[Find(c, "{")..RFind(c, "}") + 1], Find(c, "{"))
  {
    FindChar(c, '{');
    RFindChar(c, '}');
  }

  /** `_extract_json_str` (lines 359-378): the span of the cleaned text from
      its first `{` to its last `}`, or a `ValueError` when there is none. */
  function ExtractJsonStr(text: string): (r: Result<string>)
    ensures r.Ok? <==> HasBracePair(Cleaned(text))
    ensures r.Err? ==> r.error == ValueError(NoJsonMessage)
    ensures r.Ok? ==> exists i :: BraceSpanAt(Cleaned(text), r.value, i)
  {
    var cleaned := Cleaned(text);
    var start := Find(cleaned, "{");
    var end := RFind(cleaned, "}");
    BracePairFound(cleaned);
    if start == -1 || end == -1 || end <= start then
      Err(ValueError(NoJsonMessage))
    else
      BraceSpanFound(cleaned);
      Ok(cleaned[start..end + 1])
  }

  /** Every marker of `s` starts in the three positions from `lo`, so any
      two of them overlap. */
  ghost predicate FencesWithin(s: string, lo: int) {
    forall j :: OccursAt(s, Fence, j) ==> lo <= j < lo + |Fence|
  }

  /** A text with at most one marker (as `split` counts them) has all its
      marker occurrences overlapping that one. */
  lemma {:induction false} OneMarkerWindow(s: string)
    requires Count(s, Fence) <= 1
    ensures FencesWithin(s, Find(s, Fence))
  {
    var i := Find(s, Fence);
    if i >= 0 {
      assert CountFrom(s, Fence, i + 3) == 0;
      assert FindFrom(s, Fence, i + 3) == -1;
    }
  }

  /** A slice keeps the marker window, shifted. */
  lemma {:induction false} WindowSlice(s: string, lo: int, a: int, b: int)
    requires 0 <= a <= b <= |s| && FencesWithin(s, lo)
    ensures FencesWithin(s[a..b], lo - a)
  {
    forall j | OccursAt(s[a..b], Fence, j) ensures lo - a <= j < lo - a + 3 {
      OccursInSlice(s, Fence, a, b, j);
    }
  }

  /** Overlapping markers count as at most one. */
  lemma {:induction false} WindowAtMostOne(s: string, lo: int)
    requires FencesWithin(s, lo)
    ensures Count(s, Fence) <= 1
  {
    var i := Find(s, Fence);
    if i >= 0 {
      var r := FindFrom(s, Fence, i + 3);
      assert r == -1;
      assert CountFrom(s, Fence, i + 3) == 0;
    }
  }

  /** The cleaned text has all its markers within one window: none at all
      after fence stripping, and at most one marker when there was none. */
  lemma {:induction false} CleanedWindow(text: string) returns (lo: int)
    ensures FencesWithin(Cleaned(text), lo)
  {
    var trimmed := Strip(text);
    if Count(trimmed, Fence) >= 2 {
      lo := 0;
    } else {
      OneMarkerWindow(trimmed);
      lo := Find(trimmed, Fence);
    }
  }

  /** A brace span of the cleaned text holds at most one marker. */
  lemma {:induction false} SpanAtMostOneMarker(text: string, c: string, v: string, i: int)
    requires c == Cleaned(text) && BraceSpanAt(c, v, i)
    ensures Count(v, Fence) <= 1
  {
    var lo := CleanedWindow(text);
    WindowSlice(c, lo, i, i + |v|);
    WindowAtMostOne(v, lo - i);
  }

  /** A trimmed text with at most one marker is its own cleaned text. */
  lemma {:induction false} CleanedFixed(v: string)
    requires Strip(v) == v && Count(v, Fence) <= 1
    ensures Cleaned(v) == v
  {
  }

  /** A cleaned text running from a `{` to a `}` is its own extraction. */
  lemma {:induction false} ExtractOfBraceSpan(v: string)
    requires Cleaned(v) == v && |v| >= 2 && v[0] == '{' && v[|v| - 1] == '}'
    ensures ExtractJsonStr(v) == Ok(v)
  {
    assert Find(v, "{") == 0 && RFind(v, "}") == |v| - 1 by {
      FindChar(v, '{');
      RFindChar(v, '}');
    }
    assert v[0..|v| - 1 + 1] == v;
  }

  /** `_extract_json_str` is idempotent on its own output: that output is
      brace-delimited, holds at most one marker, so trimming, fence stripping
      and the brace search all leave it as it is. */
  lemma {:induction false} ExtractIdempotent(text: string)
    requires ExtractJsonStr(text).Ok?
    ensures ExtractJsonStr(ExtractJsonStr(text).value) == ExtractJsonStr(text)
  {
    var v := ExtractJsonStr(text).value;
    var c := Cleaned(text);
    var i :| BraceSpanAt(c, v, i);
    assert Strip(v) == v by { StripKeepsTrimmed(v); }
    SpanAtMostOneMarker(text, c, v, i);
    CleanedFixed(v);
    ExtractOfBraceSpan(v);
  }

  /** The pieces after the first: all but their last are the middle pieces,
      and their last is the last piece. */
  lemma {:induction false} TailShape(parts: seq<string>, tail: seq<string>)
    requires |parts| >= 2 && tail == parts[1..]
    ensures tail[..|tail| - 1] == Middle(parts)
    ensures tail[|tail| - 1] == parts[|parts| - 1]
  {
  }

  /** Past the first marker `a`, the text up to the last marker `split`
      finds is the middle pieces separated by markers, and no marker starts
      after it. */
  lemma {:induction false} LastMarkerShape(s: string, parts: seq<string>, a: int,
                                           middle: seq<string>, last: string)
    requires Count(s, Fence) >= 2 && parts == Split(s, Fence) && a == Find(s, Fence)
    requires middle == Middle(parts) && last == parts[|parts| - 1]
    ensures var b := |s| - |last| - |Fence|;
            0 <= a && a + |Fence| <= b && s[a + |Fence|..b] == Join(Fence, middle)
            && OccursAt(s, Fence, b) && forall j :: b + |Fence| <= j ==> !OccursAt(s, Fence, j)
  {
    CountedIsFound(s);
    var tail := SplitFrom(s, Fence, a + |Fence|);
    AfterFirstMarker(s, parts, a, tail);
    LastSplitShape(s, Fence, a + |Fence|, tail, middle, last);
  }

  /** The split resumed after the first marker: a marker remains, and its
      pieces are the middle pieces and then the last piece. */
  lemma {:induction false} AfterFirstMarker(s: string, parts: seq<string>, a: int, tail: seq<string>)
    requires Count(s, Fence) >= 2 && parts == Split(s, Fence) && a == Find(s, Fence) && a >= 0
    requires tail == SplitFrom(s, Fence, a + |Fence|)
    ensures CountFrom(s, Fence, a + |Fence|) >= 1
    ensures tail[..|tail| - 1] == Middle(parts) && tail[|tail| - 1] == parts[|parts| - 1]
  {
    assert tail == parts[1..] && CountFrom(s, Fence, a + |Fence|) >= 1 by {
      SplitAfterFirst(s, Fence);
    }
    TailShape(parts, tail);
  }

  /** The middle pieces hold no marker. */
  lemma {:induction false} MiddlePiecesFree(s: string)
    requires Count(s, Fence) >= 2
    ensures forall p :: 0 <= p < |Middle(Split(s, Fence))| ==> FreeOf(Middle(Split(s, Fence))[p], Fence)
  {
    var parts := Split(s, Fence);
    SplitPiecesFree(s, Fence, 0, parts);
    assert forall p :: 0 <= p < |Middle(parts)| ==> Middle(parts)[p] == parts[p + 1];
  }

  /** With two markers or more, fence stripping glues the middle pieces and
      trims the result. */
  lemma {:induction false} StripFencesMiddle(s: string)
    requires Count(s, Fence) >= 2
    ensures StripFences(s) == Strip(Join("", Middle(Split(s, Fence))))
  {
    CountedIsFound(s);
  }

  /** The fence-stripping rule, stated on the text itself: with two or more
      markers, the text strictly between the first marker and the last one
      `split` finds (only marker-free text lies outside them) consists of the
      middle pieces separated by markers; no middle piece holds a marker or
      ends with a backtick, so the markers are the ones a left-to-right scan
      takes; and the result is those pieces
      glued together without the markers, trimmed. */
  lemma {:induction false} FenceStripShape(s: string, parts: seq<string>, a: int, b: int)
    requires Count(s, Fence) >= 2 && parts == Split(s, Fence)
    requires a == Find(s, Fence) && b == |s| - |parts[|parts| - 1]| - |Fence|
    ensures 0 <= a && a + |Fence| <= b && OccursAt(s, Fence, a) && OccursAt(s, Fence, b)
    ensures forall j :: 0 <= j < a ==> !OccursAt(s, Fence, j)
    ensures forall j :: b + |Fence| <= j ==> !OccursAt(s, Fence, j)
    ensures s[a + |Fence|..b] == Join(Fence, Middle(parts))
    ensures forall p :: 0 <= p < |Middle(parts)| ==> FreeOf(Middle(parts)[p], Fence)
    ensures forall p :: 0 <= p < |Middle(parts)| ==> NoTrailingBacktick(Middle(parts)[p])
    ensures StripFences(s) == Strip(Join("", Middle(parts)))
  {
    LastMarkerShape(s, parts, a, Middle(parts), parts[|parts| - 1]);
    MiddlePiecesFree(s);
    PiecesNoTrailingBacktick(s, 0, parts);
    forall p | 0 <= p < |Middle(parts)| ensures NoTrailingBacktick(Middle(parts)[p]) {
      assert Middle(parts)[p] == parts[p + 1];
    }
    StripFencesMiddle(s);
  }

  /** The 500 `detail` of line 396: the parse error and the original text. */
  function MalformedDetail(reason: string, text: string): string {
    "Model nie zwrócił poprawnego JSON-a: " + reason + ". Odpowiedź: " + text
  }

  /** `parse_gemini_json` (lines 381-397): the direct parse when it succeeds;
      otherwise the extracted span, parsed; a failed extraction escapes as its
      `ValueError`, a span that does not parse becomes HTTP 500. */
  function ParseGeminiJson(text: string, parse: JsonParser): (r: Result<AdviceResponse>)
    ensures parse(text).Parsed? ==> r == Ok(parse(text).response)
    ensures r.Ok? ==> parse(text) == Parsed(r.value)
                      || exists i, v :: BraceSpanAt(Cleaned(text), v, i) && parse(v) == Parsed(r.value)
    ensures (r.Err? && r.error.ValueError?)
            <==> parse(text).ParseError? && !HasBracePair(Cleaned(text))
    ensures r.Err? && r.error.ValueError? ==> r.error.message == NoJsonMessage
    ensures (r.Err? && r.error.HttpException?)
            <==> parse(text).ParseError? && HasBracePair(Cleaned(text))
                 && parse(ExtractJsonStr(text).value).ParseError?
    ensures r.Err? && r.error.HttpException? ==>
              r.error == HttpException(500, MalformedDetail(parse(ExtractJsonStr(text).value).message, text))
  {
    match parse(text)
    case Parsed(v) => Ok(v)
    case ParseError(_) =>
      match ExtractJsonStr(text)
      case Err(e) => Err(e)
      case Ok(span) =>
        match parse(span)
        case Parsed(v) => Ok(v)
        case ParseError(reason) => Err(HttpException(500, MalformedDetail(reason, text)))
  }
}
