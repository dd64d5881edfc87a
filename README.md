# img2cal — a Dafny model of the announcement-to-calendar core

img2cal turns university announcements into subscribable calendars. A
crawler saves each announcement with its image links; a classifier round
reads the text of a growing window of images, asks a language model whether
the announcement is a calendar event, and stores the verdict; a calendar
generator groups the approved announcements by event type, works out one
time window per announcement from its application and activity periods,
and writes one iCalendar file per type.

This project models the decision logic of those three steps and proves
what it promises:

- **Event time resolution** (`date_times.dfy`, `date_parsing.dfy`,
  `event_time.dfy`): `sanitize`, `parseDateTime` with its ordered list of
  formats, and `determineEventTime`, both as written and as evidently
  intended (see Findings).
- **Calendar assembly** (`calendar_assembly.dfy`): the generator's filter,
  per-type grouping, entry building with its defaults and uid, and the
  per-type loop, including how a throw ends the run with status 500.
- **Response validation** (`response_validator.dfy`): code-fence stripping
  and the status checks of the classification reply.
- **The classifier round** (`post_records.dfy`, `controller.dfy`): the
  stored record as a class updated in place, window clamping, the OCR
  accumulation loop over the `images` array, the verdict's status update
  and the next window.
- **Image links** (`detail_crawler.dfy`): the `src` filter, absolutisation,
  the saved record shape and the skip of existing records.

`wrappers.dfy` (Option, Result), `js_strings.dfy` (JavaScript `trim`,
`startsWith`, lower-casing) and `records.dfy` (the calendar payload and
JavaScript's `||` on strings) are shared support.

Outside services are parameters: text detection and the OCR write
(`Controller.Vision`, `Controller.OcrWrite`, both keyed by the image's
position in the window, since every image gets its own request and its own
write), the chat completion
(`ResponseValidator.Completion`, `Controller.Llm`), `JSON.parse`
(`Controller.Parser`, giving the parsed record or None), the status write
and the crawler's page fetch and save. Every outcome of each, failures
included, is covered by the contracts.

Behaviours of the code worth noting:

- A record whose event type is not one of the seven is dropped, not filed
  under "Others": the filter at `ical_generator/index.js:185-190` already
  removes it, so the fallback at 202-203 never runs.
- A non-approved verdict stores `calendarData` as `{}` (the empty payload),
  not null (`classfier/index.js:236`).
- The validator does not re-check that an approved calendar has a usable
  period; any truthy `calendar` passes (`classfier/index.js:136-144`).
- One record can end the whole calendar run: the `const` defect below
  throws inside the per-type loop, the handler answers 500, and the files
  of earlier types stay uploaded.
- An OCR result is stored as soon as it is extracted, so a round that later
  fails still leaves the new OCR text in the record; the verification fields
  are untouched by a failed round.

## Model

| member | source | states |
|---|---|---|
| `JsStrings.Trim` | ical_generator/index.js:40 | the result is the input with only the JavaScript white space and line terminators at its two ends removed, and it starts and ends with other characters |
| `JsStrings.TrimNoOp` | ical_generator/index.js:40 | text with no white space at either end is its own trim |
| `JsStrings.LowerAscii` | ical_generator/index.js:41 | lower-casing maps each character on its own and keeps the length |
| `DateTimes.DaysInMonth` | ical_generator/index.js:52-66 | the validity check: months have 28 to 31 days, February 29 exactly in leap years |
| `DateTimes.WithTime` | ical_generator/index.js:91 | `set({hour, minute})` keeps the date and the seconds and sets only hour and minute |
| `DateTimes.BeforeIsStrictTotalOrder` | ical_generator/index.js:156 | the `>` comparison of instants is a strict total order |
| `DateParsing.Pad` | ical_generator/index.js:56-62 | a numeric field is written with exactly its width in digits |
| `DateParsing.PadRoundTrip` | ical_generator/index.js:56-62 | reading a padded field back gives the number |
| `DateParsing.MatchRender` | ical_generator/index.js:64-67 | matching a string written in a format recovers the fields that format holds |
| `DateParsing.MatchWidth` | ical_generator/index.js:64-67 | a successful match consumes exactly the format's width: parsing is anchored |
| `DateParsing.RenderWidth` | ical_generator/index.js:64-67 | a rendered string has the format's width |
| `DateParsing.MatchLiteral` | ical_generator/index.js:64-67 | a successful match has each literal separator at its position |
| `DateParsing.ParseWithFirstMatch` | ical_generator/index.js:52-67 | the earliest attempt that parses to a valid instant decides the result |
| `DateParsing.ParseWithNone` | ical_generator/index.js:52-69 | null exactly when no attempt parses to a valid instant |
| `DateParsing.ParseDateTime` | ical_generator/index.js:48-49 | null and the empty string give null |
| `DateParsing.Sanitize` | ical_generator/index.js:37-45 | a kept value is the non-empty trim of the input and is not "undefined" in any casing; every other string is kept |
| `DateParsing.NormalizeNullish` | ical_generator/index.js:37-49 | null, blank strings and "undefined" in any casing normalise to null |
| `DateParsing.UndefinedSpellings` | ical_generator/index.js:41 | "Undefined" and "" normalise to null |
| `DateParsing.RoundTripAt` | ical_generator/index.js:52-67 | a clean string whose earlier attempts all fail parses back to the instant the attempt reads |
| `DateParsing.RoundTripIsoDate` | ical_generator/index.js:52-53 | every valid date written as YYYY-MM-DD normalises back to itself at 00:00:00 |
| `DateParsing.RoundTripIsoDateTime` | ical_generator/index.js:52-53 | every valid instant written as YYYY-MM-DDTHH:mm:ss normalises back to itself |
| `DateParsing.RoundTripDashDateTime` | ical_generator/index.js:57 | every valid instant written as yyyy-MM-dd HH:mm:ss normalises back to itself |
| `DateParsing.RoundTripSlashDateMinute` | ical_generator/index.js:58 | every valid instant with zero seconds written as yyyy/MM/dd HH:mm normalises back to itself |
| `DateParsing.RoundTripSlashDate` | ical_generator/index.js:60 | every valid date written as yyyy/MM/dd normalises back to itself |
| `EventTime.OpeningPrecedesDeadline` | ical_generator/index.js:100-113 | a synthesised opening is on the deadline's date and not after it |
| `EventTime.ClosingFollowsStart` | ical_generator/index.js:132-144 | a synthesised closing is on the start's date and not before it |
| `EventTime.ResolvedWindows` | ical_generator/index.js:88-159 | every resolved pair lies within one date with start not after end; the intended version never throws |
| `EventTime.UnresolvableExactly` | ical_generator/index.js:149-159 | no event exactly when there is neither application end nor activity start, or a verbatim same-date pair is out of order |
| `EventTime.ApplicationPrecedence` | ical_generator/index.js:88-117 | once the application end parses, the activity period has no influence, in either version |
| `EventTime.ApplicationWindow` | ical_generator/index.js:88-114 | the window ends at the deadline (00:00 moved to 18:00, seconds kept); a same-date start is kept, otherwise it opens at 00:01 or 09:00 that day |
| `EventTime.ActivityWindow` | ical_generator/index.js:119-145 | the window starts at the activity start and ends at a same-date activity end, otherwise at 23:59 or 18:00 that day |
| `EventTime.AsWrittenDiffersOnlyByThrowing` | ical_generator/index.js:119-122 | the code as written throws exactly for a midnight activity start without an application end, and otherwise agrees with the intended version |
| `EventTime.MidnightActivityStartThrows` | ical_generator/index.js:80-122 | the input that exposes the `const` defect, and its intended window |
| `EventTime.BareDeadlineExample` | ical_generator/index.js:88-113 | a bare deadline date becomes 09:00 to 18:00 that day |
| `EventTime.DifferentDatesExample` | ical_generator/index.js:94-106 | an application start on another date is replaced by 09:00 on the deadline's date |
| `CalendarAssembly.DecimalString` | ical_generator/index.js:240-242 | a post number prints as its decimal numeral: digits only, denoting the number, with no leading zero, a single digit exactly below 10 |
| `CalendarAssembly.BucketSelected` | ical_generator/index.js:185-205 | every grouped record is approved, of its group's type, and has a calendar payload |
| `CalendarAssembly.BucketMembership` | ical_generator/index.js:185-205 | a record is in a type's group exactly when it is approved and has that type, one of the seven |
| `CalendarAssembly.BucketAppend` | ical_generator/index.js:193-205 | groups keep input order |
| `CalendarAssembly.UnknownTypeDropped` | ical_generator/index.js:185-205 | a record of an unknown type is in no group, "Others" included |
| `CalendarAssembly.BucketOfFiltered` | ical_generator/index.js:185-205 | grouping the filtered records equals grouping all of them |
| `CalendarAssembly.DecimalStringInjective` | ical_generator/index.js:240-242 | different post numbers print differently |
| `CalendarAssembly.UidInjective` | ical_generator/index.js:240-242 | records with different non-zero post numbers get different uids |
| `CalendarAssembly.EntriesWellFormed` | ical_generator/index.js:222-253 | each entry comes from a record of the group whose time resolved, carries its uid, its title or "No Title", its description, location and link or "" for each, and spans a well-ordered one-day window |
| `CalendarAssembly.EntriesComplete` | ical_generator/index.js:222-253 | every record whose time resolves gives exactly one entry, in group order, and there are no other entries |
| `CalendarAssembly.EntriesThrowExactly` | ical_generator/index.js:222-229 | a group fails exactly when one of its records throws, and otherwise gives the entries of any resolver the one used agrees with |
| `CalendarAssembly.ResolversCompared` | ical_generator/index.js:73-164 | the intended resolver never throws; both give well-ordered windows; the one as written agrees with it unless it throws |
| `CalendarAssembly.GenerateCompletes` | ical_generator/index.js:208-269 | with a resolver that never throws the run completes, and each file is a listed type with a non-empty group |
| `CalendarAssembly.GenerateStep` | ical_generator/index.js:208-269 | with a resolver that never throws, each listed type adds its `<type>.ics` file, named after the type and holding its group's entries, exactly when its group is not empty |
| `CalendarAssembly.GenerateFileCount` | ical_generator/index.js:208-269 | with a resolver that never throws, there are exactly as many files as listed types with a non-empty group |
| `CalendarAssembly.GenerateFiles` | ical_generator/index.js:208-269 | with a resolver that never throws, every listed type with a non-empty group has its `<type>.ics` file, with the calendar name for the type and the group's entries |
| `CalendarAssembly.GenerateThrowsExactly` | ical_generator/index.js:208-286 | the run completes exactly when no selected record throws, and then matches any agreeing resolver |
| `CalendarAssembly.HandlerOutcomes` | ical_generator/index.js:208-286 | the intended run always completes, with one file per event type with a non-empty group; the run as written completes exactly when no approved record throws, and then uploads the same files |
| `CalendarAssembly.FilteredSelected` | ical_generator/index.js:185-190 | every record the filter keeps is approved with a listed type |
| `CalendarAssembly.SelectItems` | ical_generator/index.js:185-190 | the filter loop keeps exactly the approved records of a listed type, in input order |
| `CalendarAssembly.GroupByType` | ical_generator/index.js:185-205 | the pushes fill one list per listed type, equal to that type's group |
| `CalendarAssembly.BuildEntries` | ical_generator/index.js:222-254 | the inner loop builds the group's entries, or stops at the first throw |
| `CalendarAssembly.GenerateCalendars` | ical_generator/index.js:208-275 | the per-type loop uploads the files `Generate` gives and answers 200, or 500 after a throw |
| `CalendarAssembly.Handler` | ical_generator/index.js:185-286 | the handler answers 200 exactly when no approved record throws, and then uploads the intended files |
| `CalendarAssembly.EntriesPrefixThrows` | ical_generator/index.js:224-229 | once a record throws, the group fails |
| `CalendarAssembly.GenerateStaysAborted` | ical_generator/index.js:277-286 | after a throw no later type changes the outcome |
| `ResponseValidator.DropOpeningFence` | classfier/index.js:119 | removes a leading "```json\n" or "```\n" and nothing else |
| `ResponseValidator.DropClosingFence` | classfier/index.js:120 | removes a trailing "\n```" and nothing else |
| `ResponseValidator.StripFences` | classfier/index.js:117-123 | text not starting with "```" is unchanged; fenced text comes out trimmed |
| `ResponseValidator.FencedBody` | classfier/index.js:117-123 | a body in a plain or json fence comes out as the body, trimmed |
| `ResponseValidator.OtherTagKept` | classfier/index.js:117-123 | any other language tag stays in the text |
| `ResponseValidator.Validate` | classfier/index.js:125-169 | missing status, approved without calendar, unknown status and parse failure all give the one generic error; reason defaults; calendar passed through; needs_more_images without images left becomes rejected with the fixed reason |
| `ResponseValidator.Classify` | classfier/index.js:106-169 | the call's own error and missing content are not the generic error; everything after is; needs_more_images only with images left |
| `PostRecords.Applied` | classfier/index.js:234-260 | approved, calendarData (`{}` for none) and reason are always written; revalidationRequested only as true |
| `PostRecords.StoredImages` | detail_crawler/index.js:113-116 | one image entry per URL, in order, with empty OCR text |
| `PostRecords.Post.constructor` | detail_crawler/index.js:104-117 | the saved record: listing fields, details, image entries, no verification field |
| `PostRecords.Post.SetOcrText` | classfier/index.js:193-208 | only `images[index].ocrText` changes |
| `PostRecords.Post.UpdateVerificationStatus` | classfier/index.js:226-268 | the stored verification fields become the update applied to the old ones |
| `PostRecords.RevalidationNeverCleared` | classfier/index.js:240-243 | a revalidation request is never cleared and never written as false |
| `PostRecords.NoTerminalGuard` | classfier/index.js:358-387 | a later rejection overwrites an approval and its calendar |
| `Controller.WindowCount` | classfier/index.js:316-327 | the window is in [1, total] (0 with no images); a missing, 0 or negative request gives 1; too large a request gives total |
| `Controller.ClampWindow` | classfier/index.js:316-327 | the reassigned local ends at the clamped window |
| `Controller.NextImageCount` | classfier/index.js:372 | the next window is two wider, or every image when fewer remain: wider than the current one and at most total |
| `Controller.WindowsTerminate` | classfier/index.js:366-381 | repeated rounds strictly widen the window and reach every image after (remaining + 1) / 2 further rounds |
| `Controller.Analyze` | classfier/index.js:37-56 | for each image's own request: a failed request gives no text; a missing description gives "No text found"; a present one gives its trim, or "No text found" when it is empty |
| `Controller.Contribution` | classfier/index.js:330-346 | stored text is used as it is; an image without text contributes the extracted text exactly when extraction succeeds, gives non-empty text and the write succeeds |
| `Controller.AfterOcr` | classfier/index.js:330-346 | image URLs never change; images outside the window and images with text are untouched |
| `Controller.StoredTextPrefix` | classfier/index.js:330-346 | the stored text of a window depends only on the window's images |
| `Controller.TextMatchesStore` | classfier/index.js:330-346 | the text sent to the classifier is exactly the window's stored OCR text after the round, in index order |
| `Controller.EvidenceGrows` | classfier/index.js:330-346 | when every image's OCR and write outcome is the same in both rounds, a later, wider round sees the earlier text as a prefix of its own |
| `Controller.StoredTextReused` | classfier/index.js:333-336 | whatever the services do in a later round, an image with stored text contributes exactly that text |
| `Controller.StoredReadBack` | classfier/index.js:330-346 | a window whose images all have stored text reads back exactly that text, whatever the services do |
| `Controller.CompleteWindowKept` | classfier/index.js:330-346 | once every image of a window has text, any later, wider round sees the window's text as a prefix of its own, whatever the services then do |
| `Controller.SameWindowSameText` | classfier/index.js:330-346 | with the same OCR and write outcomes, re-reading an already processed window gives the same text |
| `Controller.FreshRecordOcr` | classfier/index.js:333-345 | on a freshly saved record, an image gets text exactly when extraction gives non-empty text and the write succeeds |
| `Controller.DecideFields` | classfier/index.js:358-387 | approved is true exactly for an approved verdict; others store `{}`; a revalidation request exactly with a next window, which is wider and within total |
| `Controller.ExhaustedBranchUnreachable` | classfier/index.js:366-370 | a validated needs_more_images always has images left, so the handler's "no images left" branch never runs |
| `Controller.AccumulateOcr` | classfier/index.js:330-346 | the loop leaves the images `AfterOcr` gives and returns the text `AccumulatedText` gives |
| `Controller.Round` | classfier/index.js:286-398 | invalid input fails and leaves the looked-up record (images and verification fields) unchanged; a missing post fails; OCR results are stored; a failed classification or status write leaves the verification fields unchanged; otherwise the verdict's update is stored and the next window or a final status is returned |
| `DetailCrawler.Absolutize` | detail_crawler/index.js:71-75 | a relative link gets the origin, an absolute one is kept; the result is an absolute file-download link |
| `DetailCrawler.ExtractImageUrls` | detail_crawler/index.js:60-77 | the loop pushes exactly the kept links, in document order |
| `DetailCrawler.FileUrlsMembership` | detail_crawler/index.js:60-77 | a URL is kept exactly when some `src` is a file-download link giving it; every kept URL is absolute; no more URLs than images |
| `DetailCrawler.FileUrlsAppend` | detail_crawler/index.js:60-77 | document order is kept |
| `DetailCrawler.FileUrlsIdempotent` | detail_crawler/index.js:67-75 | filtering the output again changes nothing |
| `DetailCrawler.PostTable.HandleDetail` | detail_crawler/index.js:19-47 | an existing post number is skipped with no write; a failed fetch or save writes nothing; otherwise exactly one new record, with every image awaiting OCR |

## Left out

- DateParsing.ParseDateTime: luxon's `fromISO` accepts many more shapes (week dates, ordinal dates, fractions, offsets, hour 24, reduced precision); only the two shapes the classifier is told to produce (YYYY-MM-DD and YYYY-MM-DDTHH:mm:ss) are modelled, so the model's parse is weaker than the code's for other ISO strings.
- DateParsing.ParseDateTime: luxon also accepts hour 24 with zero minutes and seconds, as the start of the next day, in every attempted format (so "2024-12-23 24:00:00" parses in the code); the model requires hours 0-23 and gives null for it.
- Controller.EvidenceGrows, Controller.SameWindowSameText: assume each image's OCR and write outcome is the same in both rounds; the code retries a failed image and may then succeed, which can put new text ahead of text seen before, so for differing outcomes only CompleteWindowKept and StoredTextReused are promised.
- Time zones, `toJSDate` and the iCalendar serialisation (`cal.toString()`): instants are local date-time fields and a file is its list of entries.
- The `Date.now()` uid for a record without a post number is nondeterministic; it is the constant `ClockUid`.
- Store and network failures other than those modelled: the table scan and its paging, the S3 upload, the crawler's existence check, and the record lookup (the classifier round takes the looked-up record, or null).
- `JSON.parse`, the chat-completion request and the prompt text it is built from; a truthy non-object `calendar` or a non-string `status`, `reason` or bound is modelled as absent or as its string.
- The handler's branch for a status other than the three (`classfier/index.js:384-387`) has no counterpart: the verdict type has only the three statuses.
- Logging, Step Functions orchestration and concurrency between rounds.
- The update expression text of `updatePostVerificationStatus` is modelled by its effect on the stored record.

## Findings

| source | as written | input that shows it | evidently intended | confidence | as-written member | corrected member |
|---|---|---|---|---|---|---|
| ical_generator/index.js:80 | `actStartDt` is declared `const` and assigned at line 121 when the activity start is at 00:00, which throws a TypeError; the handler then answers 500 for the whole run | an approved record with no application end and activity start "2024-12-23" | move the start to 09:00 and build the window 09:00 to 18:00 | high, not executed | `EventTime.MidnightActivityStartThrows` | `EventTime.ResolvedWindows` |
