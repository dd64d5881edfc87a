/** `classifyPostWithLLM` after the model has answered: the reply text is
    trimmed, a Markdown code fence around it is removed, the text is parsed
    as JSON, and the parsed record is checked against the three statuses of
    the classification protocol. Every failure after the reply text exists
    becomes one and the same generic error.

    The chat-completion call and `JSON.parse` are not modelled: the call's
    outcome is a Completion, and the parser is a function from text to the
    parsed record (None when the text is not JSON or not an object). */
module ResponseValidator {
  import opened Wrappers
  import opened JsStrings
  import opened Records

  /** The parsed reply `{status?, reason?, calendar?}`. None stands for an
      absent, null or otherwise falsy field; the empty string is kept, since
      the code tests it for falsiness itself. */
  datatype Response = Response(status: Option<string>, reason: Option<string>, calendar: Option<CalendarData>)

  /** The outcome of the chat-completion call. */
  datatype Completion =
    | CallFailed          // the request threw
    | NoContent           // `choices[0]?.message?.content` is undefined
    | Content(text: string)

  datatype ClassifyError =
    | ApiError            // the request's own error, rethrown unchanged
    | MissingContent      // the TypeError from calling `startsWith` on undefined
    | NotExpectedShape    // the single generic error of the `catch` block

  datatype Verdict =
    | Approved(reason: string, calendar: CalendarData)
    | NeedsMoreImages(reason: string)
    | Rejected(reason: string)
  {
    function Status(): string {
      match this
      case Approved(_, _) => "approved"
      case NeedsMoreImages(_) => "needs_more_images"
      case Rejected(_) => "rejected"
    }
  }

  const Fence := "```"
  const MaxImagesReason := "Maximum image count reached; cannot process further images."
  const DefaultReason := "No reason provided"
  const NeedsMoreReason := "Needs more images for verification."

  /** `.replace(/^```(?:json)?\n/, "")` */
  function DropOpeningFence(s: string): (r: string)
    ensures StartsWith(s, "```json\n") ==> s == "```json\n" + r
    ensures !StartsWith(s, "```json\n") && StartsWith(s, "```\n") ==> s == "```\n" + r
    ensures !StartsWith(s, "```json\n") && !StartsWith(s, "```\n") ==> r == s
  {
    if StartsWith(s, "```json\n") then s[8..]
    else if StartsWith(s, "```\n") then s[4..]
    else s
  }

  /** `.replace(/\n```$/, "")`: without the `m` flag, `$` is the end of the text. */
  function DropClosingFence(s: string): (r: string)
    ensures EndsWith(s, "\n```") ==> s == r + "\n```"
    ensures !EndsWith(s, "\n```") ==> r == s
  {
    if EndsWith(s, "\n```") then s[..|s| - 4] else s
  }

  /** The fence stripping, applied to the already trimmed reply. Only a text
      that starts with three backquotes is touched, and the result is then
      trimmed again. */
  function StripFences(text: string): (r: string)
    ensures !StartsWith(text, Fence) ==> r == text
    ensures StartsWith(text, Fence) ==>
      r == [] || (!IsWhiteSpace(r[0]) && !IsWhiteSpace(r[|r| - 1]))
  {
    if StartsWith(text, Fence) then Trim(DropClosingFence(DropOpeningFence(text))) else text
  }

  /** The status checks of the classification protocol. */
  function Validate(parsed: Option<Response>, currentImageCount: int, totalImages: int): (r: Result<Verdict, ClassifyError>)
    ensures r.Failure? ==> r.error == NotExpectedShape
    ensures r.Failure? <==>
      || parsed.None?
      || parsed.value.status.None? || parsed.value.status.value == ""
      || (parsed.value.status == Some("approved") && parsed.value.calendar.None?)
      || parsed.value.status.value !in {"approved", "needs_more_images", "rejected"}
    ensures r.Success? && r.value.Approved? ==>
      && parsed.value.status == Some("approved")
      && r.value.calendar == parsed.value.calendar.value
      && r.value.reason == OrElse(parsed.value.reason, DefaultReason)
    ensures r.Success? && r.value.NeedsMoreImages? ==>
      && parsed.value.status == Some("needs_more_images")
      && currentImageCount < totalImages
      && r.value.reason == OrElse(parsed.value.reason, NeedsMoreReason)
    ensures r.Success? && r.value.Rejected? ==>
      || (parsed.value.status == Some("rejected") && r.value.reason == OrElse(parsed.value.reason, DefaultReason))
      || (parsed.value.status == Some("needs_more_images") && currentImageCount >= totalImages
          && r.value.reason == MaxImagesReason)
  {
    if parsed.None? then Failure(NotExpectedShape)
    else
      var result := parsed.value;
      if result.status.None? || result.status.value == "" then Failure(NotExpectedShape)
      else if result.status.value == "approved" then
        if result.calendar.None? then Failure(NotExpectedShape)
        else Success(Approved(OrElse(result.reason, DefaultReason), result.calendar.value))
      else if result.status.value == "needs_more_images" then
        if currentImageCount >= totalImages then Success(Rejected(MaxImagesReason))
        else Success(NeedsMoreImages(OrElse(result.reason, NeedsMoreReason)))
      else if result.status.value == "rejected" then
        Success(Rejected(OrElse(result.reason, DefaultReason)))
      else Failure(NotExpectedShape)
  }

  /** `classifyPostWithLLM` from the completion on. */
  function Classify(completion: Completion, parse: string -> Option<Response>,
                    currentImageCount: int, totalImages: int): (r: Result<Verdict, ClassifyError>)
    ensures completion.CallFailed? ==> r == Failure(ApiError)
    ensures completion.NoContent? ==> r == Failure(MissingContent)
    ensures completion.Content? && r.Failure? ==> r.error == NotExpectedShape
    ensures r.Success? && r.value.NeedsMoreImages? ==> currentImageCount < totalImages
  {
    match completion
    case CallFailed => Failure(ApiError)
    case NoContent => Failure(MissingContent)
    case Content(text) => Validate(parse(StripFences(Trim(text))), currentImageCount, totalImages)
  }

  // ----- properties -----

  /** A reply wrapped in a plain or a `json` fence comes out as its body,
      trimmed. */
  lemma FencedBody(body: string, tag: string)
    requires tag == "" || tag == "json"
    ensures StripFences(Fence + tag + "\n" + body + "\n```") == Trim(body)
  {
    var s := Fence + tag + "\n" + body + "\n```";
    assert StartsWith(s, Fence) by { assert s[..3] == Fence; }
    var unfenced := DropOpeningFence(s);
    if tag == "json" {
      assert s[..8] == "```json\n";
    } else {
      assert s[..8] != "```json\n" by { if |s| >= 8 { assert s[3] == '\n'; } }
      assert s[..4] == "```\n";
    }
    assert unfenced == body + "\n```";
    assert DropClosingFence(unfenced) == body by { assert unfenced[|unfenced| - 4..] == "\n```"; }
  }

  /** Any other language tag stays in the text: only the closing fence is
      removed. */
  lemma OtherTagKept(body: string, tag: string)
    requires tag != "" && tag != "json"
    requires forall k :: 0 <= k < |tag| ==> tag[k] != '\n'
    requires |body| > 0 && !IsWhiteSpace(body[|body| - 1])
    ensures StripFences(Fence + tag + "\n" + body + "\n```") == Fence + tag + "\n" + body
  {
    var s := Fence + tag + "\n" + body + "\n```";
    var kept := Fence + tag + "\n" + body;
    assert s == kept + "\n```";
    assert StartsWith(s, Fence) by { assert s[..3] == Fence; }
    assert s[3] == tag[0];
    assert !StartsWith(s, "```\n");
    assert !StartsWith(s, "```json\n") by {
      if |tag| >= 5 {
        assert s[7] == tag[4] != '\n';
      } else if |tag| == 4 {
        assert s[3..7] == tag != "json";
      } else {
        assert s[3 + |tag|] == '\n';
        assert "```json\n"[3 + |tag|] != '\n';
      }
    }
    assert DropOpeningFence(s) == s;
    assert DropClosingFence(s) == kept by { assert s[|s| - 4..] == "\n```"; }
    TrimNoOp(kept);
  }
}
