/**
 * The evaluation client (services/geminiService.ts): picks the API key,
 * refuses to call without one, builds the request text, and turns every
 * failure of the call or of parsing the reply into one of two messages.
 * The hosted model and `JSON.parse` are inputs: `call` is what the service
 * did, `parse` is what parsing-and-casting a reply body yields.
 */
module GeminiService {
  import opened Wrappers
  import opened Types
  import JsString

  const MissingKeyMessage := "No API Key found. Please add it in Settings (top right)."
  const InvalidKeyMessage := "API Key invalid or restricted. Please check your settings."
  const FailedMessage := "Failed to evaluate the article. Please check your connection."

  /** Every message an evaluation can fail with. */
  const ErrorMessages: set<string> := {MissingKeyMessage, InvalidKeyMessage, FailedMessage}

  const ContentsPrefix := "Evaluate this article draft for AOTA Student Pulse: \n\n "

  /** The status code whose presence in an error message marks a rejected key. */
  const ForbiddenStatus := "403"

  /** The `required` lists of the response schema. */
  const RequiredScorecardFields: seq<string> :=
    ["conversationalTone", "scannability", "creativeFormatting", "wordCount", "packaging", "adminCheck"]
  const RequiredTopLevelFields: seq<string> := ["scorecard", "readinessRating", "editorNotes", "polishedDraft"]

  /** What the service did with a request: it threw (with `error.message`, possibly undefined) or replied (with `response.text`, possibly undefined). */
  datatype CallOutcome = Threw(message: Option<string>) | Replied(text: Option<string>)

  /** The request that goes out: the key it is authorised with and its contents. */
  datatype Request = Request(apiKey: string, contents: string)

  /** One evaluation: the request issued, if any, and the result or the user-facing error message. */
  datatype Evaluation = Evaluation(request: Option<Request>, outcome: Result<EvaluationResult, string>)

  /** JavaScript truthiness of a `string | undefined`. */
  predicate Truthy(s: Option<string>) {
    s.Some? && s.value != ""
  }

  /** `overrideApiKey || process.env.API_KEY || ''`. */
  function SelectKey(overrideKey: Option<string>, envKey: Option<string>): (key: string)
    ensures key == "" <==> !Truthy(overrideKey) && !Truthy(envKey)
    ensures Truthy(overrideKey) ==> key == overrideKey.value
    ensures !Truthy(overrideKey) && Truthy(envKey) ==> key == envKey.value
  {
    if Truthy(overrideKey) then overrideKey.value
    else if Truthy(envKey) then envKey.value
    else ""
  }

  /** The request contents: the fixed prefix followed by the draft verbatim. */
  function RequestContents(draft: string): (contents: string)
    ensures |contents| == |ContentsPrefix| + |draft|
    ensures contents[..|ContentsPrefix|] == ContentsPrefix && contents[|ContentsPrefix|..] == draft
  {
    ContentsPrefix + draft
  }

  /** Different drafts give different requests: nothing of the draft is lost. */
  lemma RequestContentsInjective(a: string, b: string)
    requires RequestContents(a) == RequestContents(b)
    ensures a == b
  {
    assert a == RequestContents(a)[|ContentsPrefix|..];
  }

  /** `response.text || "{}"`: the body handed to `JSON.parse`. */
  function ResponseBody(text: Option<string>): (body: string)
    ensures Truthy(text) ==> body == text.value
    ensures !Truthy(text) ==> body == "{}"
  {
    if Truthy(text) then text.value else "{}"
  }

  /** The catch block: a message mentioning 403 means a rejected key, anything else a failed evaluation. */
  function ClassifyFailure(message: Option<string>): (userMessage: string)
    ensures userMessage in {InvalidKeyMessage, FailedMessage}
    ensures userMessage == InvalidKeyMessage <==>
      message.Some? && exists i :: JsString.OccursAt(message.value, ForbiddenStatus, i)
  {
    match message
    case None => FailedMessage
    case Some(m) =>
      JsString.IncludesIff(m, ForbiddenStatus);
      if JsString.Includes(m, ForbiddenStatus) then InvalidKeyMessage else FailedMessage
  }

  /**
   * `evaluateArticle(draft, overrideApiKey)`. Without a key nothing is
   * sent. Otherwise exactly one request goes out; the result is whatever
   * parsing the reply body yields (there is no schema check), and every
   * failure is classified.
   */
  function EvaluateArticle(
    draft: string,
    overrideKey: Option<string>,
    envKey: Option<string>,
    call: CallOutcome,
    parse: string -> Result<EvaluationResult, string>): (e: Evaluation)
    ensures e.request.None? <==> SelectKey(overrideKey, envKey) == ""
    ensures e.request.None? ==> e.outcome == Err(MissingKeyMessage)
    ensures e.request.Some? ==> e.request.value == Request(SelectKey(overrideKey, envKey), ContentsPrefix + draft)
    ensures e.outcome.Err? ==> e.outcome.error in ErrorMessages
    ensures e.outcome.Ok? <==> e.request.Some? && call.Replied? && parse(ResponseBody(call.text)).Ok?
    ensures e.outcome.Ok? ==> e.outcome.value == parse(ResponseBody(call.text)).value
  {
    var key := SelectKey(overrideKey, envKey);
    if key == "" then Evaluation(None, Err(MissingKeyMessage))
    else
      var request := Some(Request(key, RequestContents(draft)));
      match call
      case Threw(message) => Evaluation(request, Err(ClassifyFailure(message)))
      case Replied(text) =>
        match parse(ResponseBody(text))
        case Ok(result) => Evaluation(request, Ok(result))
        case Err(message) => Evaluation(request, Err(ClassifyFailure(Some(message))))
  }

  /** With a key, the error is the rejected-key message exactly when the failure's message mentions 403. */
  lemma FailureClassification(
    draft: string, overrideKey: Option<string>, envKey: Option<string>,
    call: CallOutcome, parse: string -> Result<EvaluationResult, string>)
    requires SelectKey(overrideKey, envKey) != ""
    ensures var e := EvaluateArticle(draft, overrideKey, envKey, call, parse);
      var failure: Option<Option<string>> :=
        match call
        case Threw(m) => Some(m)
        case Replied(t) => if parse(ResponseBody(t)).Err? then Some(Some(parse(ResponseBody(t)).error)) else None;
      && (failure.None? <==> e.outcome.Ok?)
      && (failure.Some? ==> e.outcome == Err(ClassifyFailure(failure.value)))
      && (failure.Some? ==> (e.outcome.error == InvalidKeyMessage <==>
            failure.value.Some? && JsString.Includes(failure.value.value, ForbiddenStatus)))
  {
  }

  /** The three error messages are distinct, and each of them can occur. */
  lemma ErrorMessagesDistinctAndReachable(parse: string -> Result<EvaluationResult, string>)
    ensures |ErrorMessages| == 3
    ensures EvaluateArticle("", None, None, Replied(None), parse).outcome == Err(MissingKeyMessage)
    ensures EvaluateArticle("", Some("k"), None, Threw(Some("403")), parse).outcome == Err(InvalidKeyMessage)
    ensures EvaluateArticle("", None, Some("k"), Threw(None), parse).outcome == Err(FailedMessage)
  {
    assert JsString.OccursAt("403", ForbiddenStatus, 0);
    assert MissingKeyMessage != InvalidKeyMessage && MissingKeyMessage != FailedMessage && InvalidKeyMessage != FailedMessage;
  }

  /** The schema's `required` lists name every field of the result records, each once. */
  lemma SchemaRequiresAllFields()
    ensures RequiredScorecardFields == ScorecardFields
    ensures RequiredTopLevelFields == EvaluationResultFields
    ensures forall i, j :: 0 <= i < j < |RequiredScorecardFields| ==> RequiredScorecardFields[i] != RequiredScorecardFields[j]
    ensures forall i, j :: 0 <= i < j < |RequiredTopLevelFields| ==> RequiredTopLevelFields[i] != RequiredTopLevelFields[j]
  {
  }
}
