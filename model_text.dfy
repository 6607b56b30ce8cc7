/** How `get_advice` obtains the text to parse from the model's reply
    (main.py:450-469): the reply's `text` when it is non-empty, otherwise the
    non-empty text parts of the first candidate, joined and trimmed. */
module ModelText {
  import opened Outcomes
  import opened PyStr

  /** A content part; `text` is `None` when the part has no text. */
  datatype Part = Part(text: Option<string>)

  datatype Content = Content(parts: Option<seq<Part>>)

  datatype Candidate = Candidate(content: Option<Content>)

  /** The fields of the client's reply object that the endpoint reads. */
  datatype ModelResponse = ModelResponse(text: Option<string>, candidates: Option<seq<Candidate>>)

  const NoTextDetail: string := "Brak tekstu w odpowiedzi modelu"
  const EmptyTextDetail: string := "Pusta odpowiedź z modelu"

  /** A part that contributes to the fallback text: it has a non-empty text. */
  predicate HasText(p: Part) {
    p.text.Some? && p.text.value != ""
  }

  /** The `text_parts` list the loop of lines 460-463 builds from `parts`. */
  function NonEmptyTexts(parts: seq<Part>): (r: seq<string>)
    ensures |r| <= |parts|
    ensures forall k :: 0 <= k < |r| ==> r[k] != ""
    decreases |parts|
  {
    if parts == [] then []
    else
      var last := parts[|parts| - 1];
      NonEmptyTexts(parts[..|parts| - 1]) + (if HasText(last) then [last.text.value] else [])
  }

  /** The number of parts with a non-empty text. */
  function TextCount(parts: seq<Part>): nat
    decreases |parts|
  {
    if parts == [] then 0
    else TextCount(parts[..|parts| - 1]) + (if HasText(parts[|parts| - 1]) then 1 else 0)
  }

  /** `text_parts` holds exactly the non-empty texts, in the parts' order:
      one entry per such part, and the part at index `j` supplies the entry
      numbered by how many such parts come before it. */
  lemma {:induction false} NonEmptyTextsInOrder(parts: seq<Part>, r: seq<string>)
    requires r == NonEmptyTexts(parts)
    ensures |r| == TextCount(parts)
    ensures forall j :: 0 <= j < |parts| && HasText(parts[j]) ==>
              TextCount(parts[..j]) < |r| && r[TextCount(parts[..j])] == parts[j].text.value
    decreases |parts|
  {
    if parts != [] {
      var n := |parts| - 1;
      var init := parts[..n];
      var r0 := NonEmptyTexts(init);
      NonEmptyTextsInOrder(init, r0);
      assert r == r0 + (if HasText(parts[n]) then [parts[n].text.value] else []);
      forall j | 0 <= j < |parts| && HasText(parts[j])
        ensures TextCount(parts[..j]) < |r| && r[TextCount(parts[..j])] == parts[j].text.value
      {
        if j == n {
          assert parts[..j] == init;
        } else {
          assert parts[..j] == init[..j];
          assert init[j] == parts[j];
        }
      }
    }
  }

  /** Every part's text in order, a part without text counting as empty. */
  function AllText(parts: seq<Part>): string
    decreases |parts|
  {
    if parts == [] then ""
    else
      var last := parts[|parts| - 1];
      AllText(parts[..|parts| - 1]) + (if last.text.Some? then last.text.value else "")
  }

  /** Leaving out the empty texts does not change their concatenation. */
  lemma {:induction false} JoinNonEmptyTexts(parts: seq<Part>)
    ensures Join("", NonEmptyTexts(parts)) == AllText(parts)
    decreases |parts|
  {
    if parts != [] {
      var init, last := parts[..|parts| - 1], parts[|parts| - 1];
      var xs := NonEmptyTexts(init);
      JoinNonEmptyTexts(init);
      if HasText(last) {
        assert NonEmptyTexts(parts) == xs + [last.text.value];
        if xs == [] {
          assert xs + [last.text.value] == [last.text.value];
        } else {
          JoinSnoc("", xs, last.text.value);
        }
      } else {
        assert NonEmptyTexts(parts) == xs;
        assert AllText(parts) == AllText(init) + "";
      }
    }
  }

  /** The parts of the first candidate, when there is one with content and
      parts; any other shape makes line 459 raise. */
  function FirstCandidateParts(response: ModelResponse): Option<seq<Part>> {
    if response.candidates.None? || response.candidates.value == [] then None
    else
      var content := response.candidates.value[0].content;
      if content.None? then None else content.value.parts
  }

  /** The text passed to `parse_gemini_json`, or the HTTP 500 raised. */
  function ResponseText(response: ModelResponse): (r: Result<string>)
    ensures response.text.Some? && response.text.value != "" ==> r == Ok(response.text.value)
    ensures r.Ok? ==> r.value != ""
    ensures r.Err? ==> r.error.HttpException? && r.error.statusCode == 500
    ensures ((response.text.None? || response.text.value == "") && FirstCandidateParts(response).None?)
            ==> r == Err(HttpException(500, NoTextDetail))
  {
    if response.text.Some? && response.text.value != "" then Ok(response.text.value)
    else
      match FirstCandidateParts(response)
      case None => Err(HttpException(500, NoTextDetail))
      case Some(parts) =>
        var t := Strip(Join("", NonEmptyTexts(parts)));
        if t == "" then Err(HttpException(500, EmptyTextDetail)) else Ok(t)
  }

  /** The fallback in terms of the parts themselves: the trimmed concatenation
      of all their texts, and HTTP 500 when that is empty. */
  lemma {:induction false} FallbackIsTrimmedConcatenation(response: ModelResponse)
    requires response.text.None? || response.text.value == ""
    requires FirstCandidateParts(response).Some?
    ensures var t := Strip(AllText(FirstCandidateParts(response).value));
            ResponseText(response) == if t == "" then Err(HttpException(500, EmptyTextDetail)) else Ok(t)
  {
    JoinNonEmptyTexts(FirstCandidateParts(response).value);
  }

  /** The fallback text has no leading or trailing whitespace; a non-empty
      `text` of the reply is used as it is. */
  lemma {:induction false} FallbackIsTrimmed(response: ModelResponse)
    requires response.text.None? || response.text.value == ""
    requires ResponseText(response).Ok?
    ensures !IsSpace(ResponseText(response).value[0])
    ensures !IsSpace(ResponseText(response).value[|ResponseText(response).value| - 1])
  {
  }

  /** Lines 450-469, with the loop over the parts. */
  method ResolveText(response: ModelResponse) returns (r: Result<string>)
    ensures r == ResponseText(response)
  {
    if response.text.Some? && response.text.value != "" {
      return Ok(response.text.value);
    }
    if response.candidates.None? || response.candidates.value == [] {
      return Err(HttpException(500, NoTextDetail));
    }
    var content := response.candidates.value[0].content;
    if content.None? || content.value.parts.None? {
      return Err(HttpException(500, NoTextDetail));
    }
    var parts := content.value.parts.value;
    var textParts: seq<string> := [];
    var i := 0;
    while i < |parts|
      invariant 0 <= i <= |parts|
      invariant textParts == NonEmptyTexts(parts[..i])
    {
      var p := parts[i];
      assert parts[..i + 1][..i] == parts[..i];
      if p.text.Some? && p.text.value != "" {
        textParts := textParts + [p.text.value];
      }
      i := i + 1;
    }
    assert parts[..|parts|] == parts;
    var text := Strip(Join("", textParts));
    if text == "" {
      return Err(HttpException(500, EmptyTextDetail));
    }
    return Ok(text);
  }
}
