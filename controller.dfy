/** One round of the classifier's handler, the progressive-evidence
    controller: it clamps the requested evidence window, makes sure the
    first `count` images of the stored record have OCR text (extracting and
    storing it only where it is missing), sends the accumulated text to the
    classifier, and stores the verdict. A `needs_more_images` verdict with
    images left asks the orchestrator for a new round with a window two
    images wider.

    OCR, the OCR store write, the chat completion, `JSON.parse` and the
    status write are outside calls; here they are parameters whose every
    outcome, failures included, is considered. */
module Controller {
  import opened Wrappers
  import opened JsStrings
  import opened Records
  import opened ResponseValidator
  import opened PostRecords

  /** The input of one round: the post number and the requested window. */
  datatype Event = Event(postId: nat, nextImageCount: Option<int>)

  /** The text-detection request for one image: it throws, or it returns
      the first annotation's description (None when there is none). */
  datatype Detection = DetectionFailed | Detected(description: Option<string>)

  /** `analyzeImageWithVision` for image `i` of the round, called with its
      URL: the extracted text, or None when it throws. Each call is its own
      request, so two images with the same URL may get different outcomes. */
  type Vision = (nat, string) -> Option<string>
  /** Whether the OCR write of image `i` to the store succeeds. */
  type OcrWrite = nat -> bool
  /** The chat completion for the accumulated text, the window and the total. */
  type Llm = (string, nat, nat) -> Completion
  type Parser = string -> Option<Response>

  datatype RoundError =
    | InvalidInput                         // no post number in the event
    | PostNotFound
    | ClassificationFailed(cause: ClassifyError)
    | StatusWriteFailed

  datatype RoundResult =
    | Continue(postId: nat, status: string, reason: string, nextImageCount: nat)
    | Finished(postId: nat, status: string)
    | Failed(error: RoundError)

  // ----- the evidence window -----

  /** `post.nextImageCount || 1`, raised to 1 when not positive, then capped
      at the number of images. */
  function WindowCount(requested: Option<int>, totalImages: nat): (count: nat)
    ensures totalImages >= 1 ==> 1 <= count <= totalImages
    ensures totalImages == 0 ==> count == 0
    ensures requested.Some? && 1 <= requested.value <= totalImages ==> count == requested.value
    ensures (requested.None? || requested.value <= 0) && totalImages >= 1 ==> count == 1
    ensures requested.Some? && requested.value > totalImages ==> count == totalImages
  {
    var c := if requested.None? || requested.value == 0 then 1 else requested.value;
    var c' := if c <= 0 then 1 else c;
    if c' > totalImages then totalImages else c'
  }

  /** The clamps as the handler runs them, on a reassigned local. */
  method ClampWindow(requested: Option<int>, totalImages: nat) returns (count: nat)
    ensures count == WindowCount(requested, totalImages)
  {
    var current: int := if requested.Some? && requested.value != 0 then requested.value else 1;
    if current <= 0 {
      current := 1;
    }
    if current > totalImages {
      current := totalImages;
    }
    count := current;
  }

  /** `Math.min(currentImageCount + 2, totalImages)` */
  function NextImageCount(current: nat, totalImages: nat): (next: nat)
    requires current < totalImages
    ensures current < next <= totalImages
    ensures next <= current + 2
    ensures next == current + 2 || next == totalImages
  {
    if current + 2 < totalImages then current + 2 else totalImages
  }

  /** The windows a post goes through when every round asks for more
      images, starting from `current`. */
  function Windows(current: nat, totalImages: nat): seq<nat>
    requires current <= totalImages
    decreases totalImages - current
  {
    if current == totalImages then [current]
    else [current] + Windows(NextImageCount(current, totalImages), totalImages)
  }

  /** The rounds terminate: windows strictly grow, the last one is every
      image, and there are (remaining + 1) / 2 + 1 of them. */
  lemma {:induction false} WindowsTerminate(current: nat, totalImages: nat)
    requires current <= totalImages
    ensures var w := Windows(current, totalImages);
      && |w| == (totalImages - current + 1) / 2 + 1
      && w[0] == current && w[|w| - 1] == totalImages
      && forall k :: 0 < k < |w| ==> w[k - 1] < w[k]
    decreases totalImages - current
  {
    if current < totalImages {
      var next := NextImageCount(current, totalImages);
      WindowsTerminate(next, totalImages);
    }
  }

  // ----- OCR accumulation -----

  lemma NoTextFoundTrimmed()
    ensures Trim("No text found") == "No text found"
  {
    TrimNoOp("No text found");
  }

  /** `analyzeImageWithVision` over a text-detection service: the
      description, "No text found" when there is none, trimmed; None when the
      request throws. */
  function Analyze(detect: (nat, string) -> Detection): (vision: Vision)
    ensures forall i, url :: detect(i, url).DetectionFailed? <==> vision(i, url).None?
    ensures forall i, url :: detect(i, url).Detected? && detect(i, url).description.None? ==>
      vision(i, url) == Some("No text found")
    ensures forall i, url :: detect(i, url).Detected? && detect(i, url).description.Some? ==>
      vision(i, url) == Some(Trim(OrElse(detect(i, url).description, "No text found")))
  {
    NoTextFoundTrimmed();
    (i: nat, url: string) =>
      match detect(i, url)
      case DetectionFailed => None
      case Detected(description) => Some(Trim(OrElse(description, "No text found")))
  }

  /** The text image `i` contributes to this round: its stored text, or the
      freshly extracted text when extraction succeeds, the text is not empty
      (`updateOcrTextInDynamoDB` refuses it otherwise) and the store write
      succeeds. None: the image is skipped this round. */
  function Contribution(img: Image, i: nat, vision: Vision, ocrWrite: OcrWrite): (r: Option<string>)
    ensures r.Some? ==> r.value != ""
    ensures img.ocrText != "" ==> r == Some(img.ocrText)
    ensures img.ocrText == "" ==>
      && (r.Some? <==> vision(i, img.imageUrl).Some? && vision(i, img.imageUrl).value != "" && ocrWrite(i))
      && (r.Some? ==> r == vision(i, img.imageUrl))
  {
    if img.ocrText != "" then Some(img.ocrText)
    else match vision(i, img.imageUrl)
      case None => None
      case Some(text) => if text == "" || !ocrWrite(i) then None else Some(text)
  }

  /** The image as stored after this round. */
  function Refreshed(img: Image, i: nat, vision: Vision, ocrWrite: OcrWrite): Image {
    match Contribution(img, i, vision, ocrWrite)
    case Some(text) => Image(img.imageUrl, text)
    case None => img
  }

  /** An image contributes exactly the text it is stored with after the round. */
  lemma RefreshedText(img: Image, i: nat, vision: Vision, ocrWrite: OcrWrite)
    ensures var r := Refreshed(img, i, vision, ocrWrite);
      Contribution(img, i, vision, ocrWrite) == if r.ocrText != "" then Some(r.ocrText) else None
  {
  }

  /** `ocrExtractedText` after the first `n` images. */
  function AccumulatedText(imgs: seq<Image>, n: nat, vision: Vision, ocrWrite: OcrWrite): string
    requires n <= |imgs|
  {
    if n == 0 then ""
    else
      AccumulatedText(imgs, n - 1, vision, ocrWrite) +
      match Contribution(imgs[n - 1], n - 1, vision, ocrWrite)
      case Some(text) => text + "\n"
      case None => ""
  }

  /** Each further image only appends to the text. */
  lemma AccumulatedExtends(imgs: seq<Image>, n: nat, vision: Vision, ocrWrite: OcrWrite)
    requires n < |imgs|
    ensures var text := AccumulatedText(imgs, n, vision, ocrWrite);
      var longer := AccumulatedText(imgs, n + 1, vision, ocrWrite);
      |text| <= |longer| && longer[..|text|] == text
  {
  }

  /** The stored `images` after the first `n` have been processed. */
  function AfterOcr(imgs: seq<Image>, n: nat, vision: Vision, ocrWrite: OcrWrite): (r: seq<Image>)
    requires n <= |imgs|
    ensures |r| == |imgs|
    ensures forall k :: 0 <= k < |imgs| ==> r[k].imageUrl == imgs[k].imageUrl
    ensures forall k :: 0 <= k < |imgs| && (k >= n || imgs[k].ocrText != "") ==> r[k] == imgs[k]
  {
    seq(|imgs|, k requires 0 <= k < |imgs| => if k < n then Refreshed(imgs[k], k, vision, ocrWrite) else imgs[k])
  }

  /** Processing one more image replaces that image by its refreshed self. */
  lemma AfterOcrStep(imgs: seq<Image>, n: nat, vision: Vision, ocrWrite: OcrWrite)
    requires n < |imgs|
    ensures AfterOcr(imgs, n + 1, vision, ocrWrite)
         == AfterOcr(imgs, n, vision, ocrWrite)[n := Refreshed(imgs[n], n, vision, ocrWrite)]
  {
  }

  /** The text a record's stored OCR results give for its first `n` images:
      each non-empty `ocrText` followed by a newline. */
  function StoredText(imgs: seq<Image>, n: nat): string
    requires n <= |imgs|
  {
    if n == 0 then ""
    else StoredText(imgs, n - 1) + (if imgs[n - 1].ocrText != "" then imgs[n - 1].ocrText + "\n" else "")
  }

  lemma {:induction false} StoredTextPrefix(a: seq<Image>, b: seq<Image>, n: nat)
    requires n <= |a| && n <= |b| && a[..n] == b[..n]
    ensures StoredText(a, n) == StoredText(b, n)
  {
    if n > 0 {
      assert a[..n - 1] == a[..n][..n - 1] == b[..n][..n - 1] == b[..n - 1];
      assert a[n - 1] == a[..n][n - 1] == b[..n][n - 1] == b[n - 1];
      StoredTextPrefix(a, b, n - 1);
    }
  }

  /** The text sent to the classifier is exactly what the store holds for the
      window once the round's OCR writes are done: images that already had
      text and images whose extraction and write succeeded, in index order;
      a failed image contributes nothing. */
  lemma {:induction false} TextMatchesStore(imgs: seq<Image>, n: nat, vision: Vision, ocrWrite: OcrWrite)
    requires n <= |imgs|
    ensures AccumulatedText(imgs, n, vision, ocrWrite) == StoredText(AfterOcr(imgs, n, vision, ocrWrite), n)
  {
    if n > 0 {
      TextMatchesStore(imgs, n - 1, vision, ocrWrite);
      var before, after := AfterOcr(imgs, n - 1, vision, ocrWrite), AfterOcr(imgs, n, vision, ocrWrite);
      assert before[..n - 1] == after[..n - 1];
      StoredTextPrefix(before, after, n - 1);
      var last := after[n - 1];
      assert last == Refreshed(imgs[n - 1], n - 1, vision, ocrWrite);
      RefreshedText(imgs[n - 1], n - 1, vision, ocrWrite);
      assert StoredText(after, n) == StoredText(after, n - 1) + (if last.ocrText != "" then last.ocrText + "\n" else "");
    }
  }

  /** When every image's OCR and write outcome is the same in both rounds
      (the same `vision` and `ocrWrite`), a later round with a window at least
      as wide sees the earlier round's text as a prefix of its own. For
      outcomes that differ between rounds, see CompleteWindowKept. */
  lemma EvidenceGrows(imgs: seq<Image>, n: nat, m: nat, vision: Vision, ocrWrite: OcrWrite)
    requires n <= m <= |imgs|
    ensures var text := AccumulatedText(imgs, n, vision, ocrWrite);
      var later := AccumulatedText(AfterOcr(imgs, n, vision, ocrWrite), m, vision, ocrWrite);
      |text| <= |later| && later[..|text|] == text
  {
    var after := AfterOcr(imgs, n, vision, ocrWrite);
    SameWindowSameText(imgs, n, n, vision, ocrWrite);
    AccumulatedPrefix(after, n, m, vision, ocrWrite);
  }

  /** The text of a shorter window is a prefix of the text of a longer one. */
  lemma {:induction false} AccumulatedPrefix(imgs: seq<Image>, k: nat, m: nat, vision: Vision, ocrWrite: OcrWrite)
    requires k <= m <= |imgs|
    ensures var text := AccumulatedText(imgs, k, vision, ocrWrite);
      var later := AccumulatedText(imgs, m, vision, ocrWrite);
      |text| <= |later| && later[..|text|] == text
    decreases m
  {
    if k < m {
      AccumulatedPrefix(imgs, k, m - 1, vision, ocrWrite);
      AccumulatedExtends(imgs, m - 1, vision, ocrWrite);
      var text := AccumulatedText(imgs, k, vision, ocrWrite);
      var shorter := AccumulatedText(imgs, m - 1, vision, ocrWrite);
      var later := AccumulatedText(imgs, m, vision, ocrWrite);
      assert later[..|text|] == later[..|shorter|][..|text|];
    }
  }

  /** Whatever the services do in a later round, an image that has text
      stored after this round contributes exactly that text. */
  lemma StoredTextReused(imgs: seq<Image>, n: nat, vision: Vision, ocrWrite: OcrWrite,
                         vision': Vision, ocrWrite': OcrWrite)
    requires n <= |imgs|
    ensures var after := AfterOcr(imgs, n, vision, ocrWrite);
      forall k :: 0 <= k < |after| && after[k].ocrText != "" ==>
        Contribution(after[k], k, vision', ocrWrite') == Some(after[k].ocrText)
  {
  }

  /** A record whose first `k` images all have stored text reads back exactly
      that text, whatever the services do. */
  lemma {:induction false} StoredReadBack(imgs: seq<Image>, k: nat, vision: Vision, ocrWrite: OcrWrite)
    requires k <= |imgs|
    requires forall j :: 0 <= j < k ==> imgs[j].ocrText != ""
    ensures AccumulatedText(imgs, k, vision, ocrWrite) == StoredText(imgs, k)
  {
    if k > 0 {
      StoredReadBack(imgs, k - 1, vision, ocrWrite);
    }
  }

  /** Once every image of a window has text, a later round with a window at
      least as wide sees this round's text as a prefix of its own, whatever
      the services do in that later round. (An image whose OCR failed is
      retried, and a retry that succeeds puts its text ahead of the text of
      later images, so without this condition the prefix can break.) */
  lemma CompleteWindowKept(imgs: seq<Image>, n: nat, m: nat, vision: Vision, ocrWrite: OcrWrite,
                           vision': Vision, ocrWrite': OcrWrite)
    requires n <= m <= |imgs|
    requires forall k :: 0 <= k < n ==> AfterOcr(imgs, n, vision, ocrWrite)[k].ocrText != ""
    ensures var text := AccumulatedText(imgs, n, vision, ocrWrite);
      var later := AccumulatedText(AfterOcr(imgs, n, vision, ocrWrite), m, vision', ocrWrite');
      |text| <= |later| && later[..|text|] == text
  {
    var after := AfterOcr(imgs, n, vision, ocrWrite);
    TextMatchesStore(imgs, n, vision, ocrWrite);
    StoredReadBack(after, n, vision', ocrWrite');
    AccumulatedPrefix(after, n, m, vision', ocrWrite');
  }

  /** Re-running the first `k` images of a window already processed, with the
      same OCR and write outcomes, gives the same text: stored text is read
      back and failures fail again. */
  lemma {:induction false} SameWindowSameText(imgs: seq<Image>, n: nat, k: nat, vision: Vision, ocrWrite: OcrWrite)
    requires k <= n <= |imgs|
    ensures AccumulatedText(AfterOcr(imgs, n, vision, ocrWrite), k, vision, ocrWrite)
         == AccumulatedText(imgs, k, vision, ocrWrite)
  {
    if k > 0 {
      SameWindowSameText(imgs, n, k - 1, vision, ocrWrite);
      var after := AfterOcr(imgs, n, vision, ocrWrite);
      assert Contribution(after[k - 1], k - 1, vision, ocrWrite) == Contribution(imgs[k - 1], k - 1, vision, ocrWrite);
    }
  }

  /** On a record as the crawler saves it (no OCR text yet), the first round
      asks for the text of every image in its window, and an image ends up
      with text exactly when extraction gives non-empty text and the write
      succeeds. */
  lemma FreshRecordOcr(urls: seq<string>, n: nat, vision: Vision, ocrWrite: OcrWrite)
    requires n <= |urls|
    ensures forall k :: 0 <= k < n ==>
      AfterOcr(StoredImages(urls), n, vision, ocrWrite)[k] ==
        (if vision(k, urls[k]).Some? && vision(k, urls[k]).value != "" && ocrWrite(k)
         then Image(urls[k], vision(k, urls[k]).value) else Image(urls[k], ""))
  {
  }

  // ----- the verdict -----

  /** The status update and the orchestrator output for a verdict. */
  function Decide(v: Verdict, count: nat, totalImages: nat): (StatusUpdate, Option<nat>) {
    match v
    case Approved(reason, calendar) => (StatusUpdate(true, Some(calendar), reason, false), None)
    case NeedsMoreImages(reason) =>
      if count >= totalImages then (StatusUpdate(false, None, reason, false), None)
      else (StatusUpdate(false, None, reason, true), Some(NextImageCount(count, totalImages)))
    case Rejected(reason) => (StatusUpdate(false, None, reason, false), None)
  }

  /** What a stored verdict means for the record: `approved` is true exactly
      for an approved verdict, whose calendar is stored unchanged; any other
      verdict stores `{}` as the calendar; a revalidation request is written
      only with a next window, which is wider than the current one and at
      most the number of images. */
  lemma DecideFields(v: Verdict, count: nat, totalImages: nat, before: Verification)
    ensures var (u, next) := Decide(v, count, totalImages);
      var after := Applied(before, u);
      && (after.approved == Some(true) <==> v.Approved?)
      && (v.Approved? ==> after.calendarData == Some(v.calendar))
      && (!v.Approved? ==> after.calendarData == Some(EmptyCalendar))
      && after.reason == Some(v.reason)
      && (u.revalidationRequested <==> next.Some?)
      && (next.Some? ==> v.NeedsMoreImages? && count < next.value <= totalImages)
  {
  }

  /** A verdict that comes out of the classifier never reaches the handler's
      "no images left" branch: `needs_more_images` only survives validation
      with images left, so it always yields a next window. */
  lemma ExhaustedBranchUnreachable(c: Completion, parse: Parser, count: nat, totalImages: nat)
    requires Classify(c, parse, count, totalImages).Success?
    requires Classify(c, parse, count, totalImages).value.NeedsMoreImages?
    ensures count < totalImages
    ensures Decide(Classify(c, parse, count, totalImages).value, count, totalImages).1.Some?
  {
  }

  // ----- one round -----

  /** The OCR loop over the window, writing extracted text back in place. */
  method AccumulateOcr(post: Post, count: nat, vision: Vision, ocrWrite: OcrWrite) returns (text: string)
    requires count <= post.images.Length
    modifies post.images
    ensures post.images[..] == AfterOcr(old(post.images[..]), count, vision, ocrWrite)
    ensures text == AccumulatedText(old(post.images[..]), count, vision, ocrWrite)
  {
    ghost var initial := post.images[..];
    text := "";
    var i := 0;
    while i < count
      invariant i <= count
      invariant post.images[..] == AfterOcr(initial, i, vision, ocrWrite)
      invariant text == AccumulatedText(initial, i, vision, ocrWrite)
    {
      var img := post.images[i];
      assert img == initial[i];
      AfterOcrStep(initial, i, vision, ocrWrite);
      if img.ocrText != "" {
        text := text + img.ocrText + "\n";
      } else {
        var extracted := vision(i, img.imageUrl);
        if extracted.Some? && extracted.value != "" && ocrWrite(i) {
          post.SetOcrText(i, extracted.value);
          text := text + extracted.value + "\n";
        }
      }
      i := i + 1;
    }
  }

  /** The handler for one round. The event's post number must be the one the
      record was looked up by; `stored` is null when the lookup found none. */
  method Round(event: Event, stored: Post?, vision: Vision, ocrWrite: OcrWrite,
               llm: Llm, parse: Parser, statusWrite: bool) returns (out: RoundResult)
    requires stored != null ==> stored.postId == event.postId
    modifies stored, if stored != null then {stored.images} else {}
    ensures event.postId == 0 ==> out == Failed(InvalidInput)
    ensures event.postId == 0 && stored != null ==>
      stored.images[..] == old(stored.images[..]) && stored.State() == old(stored.State())
    ensures event.postId != 0 && stored == null ==> out == Failed(PostNotFound)
    ensures event.postId == 0 || stored == null ==> out.Failed?
    ensures event.postId != 0 && stored != null ==>
      var total := stored.images.Length;
      var count := WindowCount(event.nextImageCount, total);
      var text := AccumulatedText(old(stored.images[..]), count, vision, ocrWrite);
      var verdict := Classify(llm(text, count, total), parse, count, total);
      && stored.images[..] == AfterOcr(old(stored.images[..]), count, vision, ocrWrite)
      && (verdict.Failure? ==> out == Failed(ClassificationFailed(verdict.error)) && stored.State() == old(stored.State()))
      && (verdict.Success? && !statusWrite ==> out == Failed(StatusWriteFailed) && stored.State() == old(stored.State()))
      && (verdict.Success? && statusWrite ==>
            var (u, next) := Decide(verdict.value, count, total);
            && stored.State() == Applied(old(stored.State()), u)
            && out == (if next.Some? then Continue(event.postId, verdict.value.Status(), verdict.value.reason, next.value)
                       else Finished(event.postId, verdict.value.Status())))
  {
    if event.postId == 0 {
      return Failed(InvalidInput);
    }
    if stored == null {
      return Failed(PostNotFound);
    }
    var total := stored.images.Length;
    var count := ClampWindow(event.nextImageCount, total);
    var text := AccumulateOcr(stored, count, vision, ocrWrite);
    var verdict := Classify(llm(text, count, total), parse, count, total);
    if verdict.Failure? {
      return Failed(ClassificationFailed(verdict.error));
    }
    var v := verdict.value;
    var update: StatusUpdate;
    var next: Option<nat> := None;
    match v {
      case Approved(reason, calendar) =>
        update := StatusUpdate(true, Some(calendar), reason, false);
      case NeedsMoreImages(reason) =>
        if count >= total {
          update := StatusUpdate(false, None, reason, false);
        } else {
          next := Some(NextImageCount(count, total));
          update := StatusUpdate(false, None, reason, true);
        }
      case Rejected(reason) =>
        update := StatusUpdate(false, None, reason, false);
    }
    if !statusWrite {
      return Failed(StatusWriteFailed);
    }
    stored.UpdateVerificationStatus(update);
    if next.Some? {
      out := Continue(event.postId, v.Status(), v.reason, next.value);
    } else {
      out := Finished(event.postId, v.Status());
    }
  }
}
