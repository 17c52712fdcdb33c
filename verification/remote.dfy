/** What `callOpenAIAPI` makes of the chat-completions reply once it arrives:
    a status outside 200-299 or an unreadable body is an error; otherwise the
    first choice's message content, trimmed, is the translation, and a missing
    or blank content becomes the fixed text "Translation unavailable". The
    request itself is not modelled: the reply is an input. */
module Remote {
  import opened JsString

  /** The parts of the decoded JSON body that the classification reads. */
  datatype Payload =
    | Unparsable                           // `response.json()` rejects
    | NoChoices                            // `data.choices` is missing, so indexing it throws
    | Choices(firstContent: Option<string>) // `choices[0]?.message?.content`, absent when any link is

  /** How the request came back. */
  datatype Reply =
    | NetworkError                          // `fetch` itself rejects
    | Http(status: int, payload: Payload)

  datatype Failure = Network | ApiError(status: int) | BadBody

  datatype Outcome = Success(translation: string) | Failed(failure: Failure)

  const Unavailable: string := "Translation unavailable"

  /** `response.ok`: the status is in the range 200-299. */
  predicate IsOk(status: int)
  {
    200 <= status <= 299
  }

  /** The reply carries a readable body with a `choices` array behind an ok status. */
  predicate Readable(reply: Reply)
  {
    reply.Http? && IsOk(reply.status) && reply.payload.Choices?
  }

  /** The classification of lines 188-193 of `callOpenAIAPI`. */
  function Classify(reply: Reply): (r: Outcome)
    ensures r.Success? <==> Readable(reply)
    ensures reply.Http? && !IsOk(reply.status) ==> r == Failed(ApiError(reply.status))
    ensures r.Success? ==> r.translation != "" && Trim(r.translation) == r.translation
  {
    match reply
    case NetworkError => Failed(Network)
    case Http(status, payload) =>
      if !IsOk(status) then Failed(ApiError(status))
      else
        match payload
        case Unparsable => Failed(BadBody)
        case NoChoices => Failed(BadBody)
        case Choices(content) =>
          var t := if content.Some? then Trim(content.value) else "";
          if t != "" then
            TrimIdempotent(content.value);
            Success(t)
          else
            assert Unavailable == Trim(Unavailable) by {
              TrimKeepsClean(Unavailable);
            }
            Success(Unavailable)
  }

  /** A successful classification is the content with its surrounding
      whitespace cut off, or the fixed text exactly when there is no content
      or it is blank. */
  lemma ClassifyContent(status: int, content: Option<string>)
    requires IsOk(status)
    ensures var r := Classify(Http(status, Choices(content)));
      && r.Success?
      && (content.None? || AllWhitespace(content.value) ==> r.translation == Unavailable)
      && (content.Some? && !AllWhitespace(content.value) ==> IsTrimOf(r.translation, content.value))
  {
    if content.Some? {
      TrimEmptyIff(content.value);
    }
  }

  /** Sending a translation back through the classification changes nothing:
      the result is already trimmed and non-empty. */
  lemma ClassifyStable(status: int, content: Option<string>)
    requires IsOk(status)
    ensures var r := Classify(Http(status, Choices(content)));
      Classify(Http(status, Choices(Some(r.translation)))) == r
  {
    var r := Classify(Http(status, Choices(content)));
    TrimIdempotent(r.translation);
  }
}
