/** The announcement record shared by the detail crawler, which creates it,
    and the classifier, which fills in OCR text and the verification fields.
    Fields the code never reads or writes in place (the listing's own
    fields) are constants; the verification fields and the image array are
    updated in place. */
module PostRecords {
  import opened Wrappers
  import opened Records

  /** One entry of the record's `images` list. The empty `ocrText` is the
      falsy "not yet extracted" value. */
  datatype Image = Image(imageUrl: string, ocrText: string)

  /** The verification fields; None stands for a field the record does not
      have yet. */
  datatype Verification = Verification(
    approved: Option<bool>,
    calendarData: Option<CalendarData>,
    reason: Option<string>,
    revalidationRequested: Option<bool>)

  const Unverified := Verification(None, None, None, None)

  /** The arguments of `updatePostVerificationStatus` after the postId. */
  datatype StatusUpdate = StatusUpdate(isApproved: bool, calendarData: Option<CalendarData>, reason: string, revalidationRequested: bool)

  /** What the update expression does to the verification fields: approved,
      calendarData (`calendarData || {}`) and reason are always set, and
      revalidationRequested only when the flag is true. */
  function Applied(before: Verification, u: StatusUpdate): (after: Verification)
    ensures after.approved == Some(u.isApproved)
    ensures u.calendarData.None? ==> after.calendarData == Some(EmptyCalendar)
    ensures u.calendarData.Some? ==> after.calendarData == u.calendarData
    ensures after.reason == Some(u.reason)
    ensures after.revalidationRequested ==
      (if u.revalidationRequested then Some(true) else before.revalidationRequested)
  {
    Verification(Some(u.isApproved), Some(u.calendarData.GetOr(EmptyCalendar)), Some(u.reason),
                 if u.revalidationRequested then Some(true) else before.revalidationRequested)
  }

  /** The `images` list the crawler saves: one entry per URL, in order, with
      empty OCR text. */
  function StoredImages(urls: seq<string>): (r: seq<Image>)
    ensures |r| == |urls|
    ensures forall k :: 0 <= k < |r| ==> r[k].imageUrl == urls[k] && r[k].ocrText == ""
  {
    seq(|urls|, k requires 0 <= k < |urls| => Image(urls[k], ""))
  }

  class Post {
    const postId: nat
    const title: string
    const url: string
    const date: string
    const content: string
    const images: array<Image>
    var approved: Option<bool>
    var calendarData: Option<CalendarData>
    var reason: Option<string>
    var revalidationRequested: Option<bool>

    function State(): Verification
      reads this
    {
      Verification(approved, calendarData, reason, revalidationRequested)
    }

    /** The record `savePostToDynamoDB` puts: the listing's fields, the
        details, and the image URLs mapped to entries with empty OCR text; no
        verification field yet. */
    constructor (postId: nat, title: string, url: string, date: string, content: string, imageUrls: seq<string>)
      ensures this.postId == postId && this.title == title && this.url == url
      ensures this.date == date && this.content == content
      ensures fresh(images) && images[..] == StoredImages(imageUrls)
      ensures State() == Unverified
    {
      this.postId := postId;
      this.title := title;
      this.url := url;
      this.date := date;
      this.content := content;
      images := new Image[|imageUrls|](k requires 0 <= k < |imageUrls| => Image(imageUrls[k], ""));
      approved := None;
      calendarData := None;
      reason := None;
      revalidationRequested := None;
    }

    /** `updateOcrTextInDynamoDB` after its check: `images[index].ocrText`
        is set and nothing else changes. */
    method SetOcrText(index: nat, text: string)
      requires index < images.Length && text != ""
      modifies images
      ensures images[..] == old(images[..])[index := Image(old(images[index]).imageUrl, text)]
    {
      images[index] := Image(images[index].imageUrl, text);
    }

    /** `updatePostVerificationStatus` when the write succeeds. */
    method UpdateVerificationStatus(u: StatusUpdate)
      modifies this
      ensures State() == Applied(old(State()), u)
    {
      approved := Some(u.isApproved);
      calendarData := Some(if u.calendarData.Some? then u.calendarData.value else EmptyCalendar);
      reason := Some(u.reason);
      if u.revalidationRequested {
        revalidationRequested := Some(true);
      }
    }
  }

  // ----- properties of the stored verification fields -----

  /** A later update never clears a revalidation request, and an update with
      the flag set always leaves it set. */
  lemma RevalidationNeverCleared(before: Verification, u: StatusUpdate)
    ensures before.revalidationRequested == Some(true) ==> Applied(before, u).revalidationRequested == Some(true)
    ensures Applied(before, u).revalidationRequested != Some(false) || before.revalidationRequested == Some(false)
  {
  }

  /** Nothing guards a decision already stored: an approved record is turned
      back into a rejected one by any later non-approving update. */
  lemma NoTerminalGuard(before: Verification, reason: string)
    requires before.approved == Some(true)
    ensures Applied(before, StatusUpdate(false, None, reason, false)).approved == Some(false)
    ensures Applied(before, StatusUpdate(false, None, reason, false)).calendarData == Some(EmptyCalendar)
  {
  }
}
