/** The calendar generator's handler: approved records with a known event
    type are grouped by type in input order, each non-empty group becomes one
    calendar file named after its type, and every record whose event time
    resolves becomes one entry with defaulted text fields and a uid derived
    from its post number.

    A throw inside the per-type loop (the `const` reassignment of the event
    time resolver as written) ends the handler with status 500; the files
    already uploaded for earlier types stay uploaded. */
module CalendarAssembly {
  import opened Wrappers
  import opened DateTimes
  import opened DateParsing
  import opened Records
  import opened EventTime

  /** The seven event types, in the order their files are produced. */
  const EventTypes: seq<string> := [
    "SeminarLecture",
    "CompetitionContest",
    "RecruitmentCareer",
    "CulturalEvent",
    "VolunteerActivity",
    "WorkshopPractice",
    "Others"
  ]

  const UidDomain := "@jinseok1006.jbnu.ac.kr"

  /** A stored announcement record, as the scan returns it. `postId` 0 is the
      falsy (missing) post number; None stands for null, absent or a value of
      the wrong type. */
  datatype Item = Item(
    postId: nat,
    title: Option<string>,
    url: Option<string>,
    approved: Option<bool>,
    calendarData: Option<CalendarData>)

  /** `calendarData && calendarData.eventType` */
  function EventTypeOf(it: Item): Option<string> {
    if it.calendarData.Some? then it.calendarData.value.eventType else None
  }

  /** The handler's filter: `approved === true` and a listed event type. */
  predicate Selected(it: Item) {
    it.approved == Some(true) && EventTypeOf(it).Some? && EventTypeOf(it).value in EventTypes
  }

  predicate InBucket(it: Item, etype: string) {
    Selected(it) && EventTypeOf(it) == Some(etype)
  }

  /** The records the filter keeps, in input order. */
  function Filtered(items: seq<Item>): seq<Item> {
    if items == [] then []
    else Filtered(items[..|items| - 1]) + (if Selected(items[|items| - 1]) then [items[|items| - 1]] else [])
  }

  /** The records grouped under `etype`, in input order. */
  function Bucket(items: seq<Item>, etype: string): seq<Item> {
    if items == [] then []
    else Bucket(items[..|items| - 1], etype) + (if InBucket(items[|items| - 1], etype) then [items[|items| - 1]] else [])
  }

  /** Decimal digits of a post number, as `${postId}` prints it: the
      shortest numeral of `n`, with no leading zero. */
  function DecimalString(n: nat): (r: string)
    ensures |r| >= 1 && AllDigits(r) && DigitsValue(r) == n
    ensures n < 10 <==> |r| == 1
    ensures n >= 1 ==> r[0] != '0'
  {
    if n < 10 then
      [Digit(n)]
    else
      var prefix := DecimalString(n / 10);
      var r := prefix + [Digit(n % 10)];
      assert r[..|r| - 1] == prefix;
      r
  }

  datatype Uid =
    | PostUid(text: string)
    | ClockUid  // `${Date.now()}@…`, used when the post number is falsy

  function UidOf(postId: nat): Uid {
    if postId == 0 then ClockUid else PostUid(DecimalString(postId) + UidDomain)
  }

  /** The fields passed to `cal.createEvent`. */
  datatype Entry = Entry(
    start: Instant,
    end: Instant,
    summary: string,
    description: string,
    location: string,
    uid: Uid,
    url: string)

  /** One calendar file: its object key, its calendar name and its events. */
  datatype CalendarFile = CalendarFile(key: string, name: string, events: seq<Entry>)

  function KoreanName(etype: string): string {
    match etype
    case "SeminarLecture" => "세미나/강의"
    case "CompetitionContest" => "대회/공모전"
    case "RecruitmentCareer" => "채용/커리어"
    case "CulturalEvent" => "문화 행사"
    case "VolunteerActivity" => "봉사 활동"
    case "WorkshopPractice" => "워크샵/실습"
    case "Others" => "기타"
    case _ => "undefined"
  }

  /** How a record's event time is resolved: `determineEventTime` as written
      (EventTime.DetermineEventTimeAsWritten) or as intended
      (EventTime.DetermineEventTime). */
  type Resolver = CalendarData -> Resolution

  ghost predicate NeverThrows(resolve: Resolver) {
    forall c :: !resolve(c).AssignmentToConstant?
  }

  ghost predicate WellOrdered(resolve: Resolver) {
    forall c :: resolve(c).Resolved? ==> SameDate(resolve(c).start, resolve(c).end) && !Before(resolve(c).end, resolve(c).start)
  }

  /** `resolve` either throws or gives what `reference` gives. */
  ghost predicate AgreesUnlessThrowing(resolve: Resolver, reference: Resolver) {
    forall c :: resolve(c).AssignmentToConstant? || resolve(c) == reference(c)
  }

  function EntryOf(it: Item, cal: CalendarData, start: Instant, end: Instant): Entry {
    Entry(start, end, OrElse(it.title, "No Title"), OrElse(cal.description, ""),
          OrElse(cal.location, ""), UidOf(it.postId), OrElse(it.url, ""))
  }

  predicate AllHaveCalendar(bucket: seq<Item>) {
    forall k :: 0 <= k < |bucket| ==> bucket[k].calendarData.Some?
  }

  /** The entries of one group, or None when resolving one of them throws. */
  function EntriesOf(bucket: seq<Item>, resolve: Resolver): Option<seq<Entry>>
    requires AllHaveCalendar(bucket)
  {
    if bucket == [] then Some([])
    else
      var it := bucket[|bucket| - 1];
      var cal := it.calendarData.value;
      match EntriesOf(bucket[..|bucket| - 1], resolve)
      case None => None
      case Some(prev) =>
        match resolve(cal)
        case AssignmentToConstant => None
        case Unresolvable => Some(prev)
        case Resolved(s, e) => Some(prev + [EntryOf(it, cal, s, e)])
  }

  /** The files produced for `types`, in order, and whether the handler got
      past all of them (false: it threw, and only the files listed were
      uploaded). A type with an empty group produces no file. */
  function Generate(items: seq<Item>, types: seq<string>, resolve: Resolver): (seq<CalendarFile>, bool)
  {
    if types == [] then ([], true)
    else
      var prev := Generate(items, types[..|types| - 1], resolve);
      var etype := types[|types| - 1];
      var bucket := Bucket(items, etype);
      if !prev.1 || bucket == [] then prev
      else
        BucketSelected(items, etype);
        match EntriesOf(bucket, resolve)
        case None => (prev.0, false)
        case Some(es) => (prev.0 + [CalendarFile(etype + ".ics", "JBNU_" + KoreanName(etype), es)], true)
  }

  // ----- grouping -----

  /** Every member of a group has a calendar payload, as the filter ensures. */
  lemma {:induction false} BucketSelected(items: seq<Item>, etype: string)
    ensures AllHaveCalendar(Bucket(items, etype))
    ensures forall k :: 0 <= k < |Bucket(items, etype)| ==> InBucket(Bucket(items, etype)[k], etype)
  {
    if items != [] {
      BucketSelected(items[..|items| - 1], etype);
    }
  }

  /** A record lands in the group for `etype` exactly when it is approved and
      its event type is `etype`, one of the seven. */
  lemma {:induction false} BucketMembership(items: seq<Item>, etype: string, it: Item)
    ensures it in Bucket(items, etype) <==>
      it in items && it.approved == Some(true) && EventTypeOf(it) == Some(etype) && etype in EventTypes
  {
    if items != [] {
      var init := items[..|items| - 1];
      BucketMembership(init, etype, it);
      assert items == init + [items[|items| - 1]];
    }
  }

  /** Groups keep input order: the group of a concatenation is the
      concatenation of the groups. */
  lemma {:induction false} BucketAppend(a: seq<Item>, b: seq<Item>, etype: string)
    ensures Bucket(a + b, etype) == Bucket(a, etype) + Bucket(b, etype)
    decreases |b|
  {
    if b == [] {
      assert a + b == a;
    } else {
      var init := b[..|b| - 1];
      assert (a + b)[..|a + b| - 1] == a + init;
      BucketAppend(a, init, etype);
    }
  }

  /** A record whose type is not one of the seven is dropped: it is in no
      group, "Others" included. */
  lemma UnknownTypeDropped(items: seq<Item>, it: Item, etype: string)
    requires EventTypeOf(it).Some? && EventTypeOf(it).value !in EventTypes
    ensures it !in Bucket(items, etype)
  {
    BucketMembership(items, etype, it);
  }

  /** Grouping the filtered records gives the same groups as grouping all of
      them: the filter keeps every record any group wants. */
  lemma {:induction false} BucketOfFiltered(items: seq<Item>, etype: string)
    ensures Bucket(Filtered(items), etype) == Bucket(items, etype)
  {
    if items != [] {
      var init := items[..|items| - 1];
      var last := items[|items| - 1];
      BucketOfFiltered(init, etype);
      if Selected(last) {
        BucketAppend(Filtered(init), [last], etype);
        assert [last][..0] == [];
        assert Bucket([last], etype) == (if InBucket(last, etype) then [last] else []);
      } else {
        assert Filtered(items) == Filtered(init) + [] == Filtered(init);
        assert Bucket(items, etype) == Bucket(init, etype) + [] == Bucket(init, etype);
      }
    }
  }

  // ----- entries -----

  /** Decimal strings of different numbers differ. */
  lemma DecimalStringInjective(m: nat, n: nat)
    requires DecimalString(m) == DecimalString(n)
    ensures m == n
  {
  }

  /** Two records with different non-zero post numbers get different uids. */
  lemma UidInjective(p: nat, q: nat)
    requires p != 0 && q != 0 && p != q
    ensures UidOf(p) != UidOf(q)
  {
    var sp, sq := DecimalString(p), DecimalString(q);
    assert sp != sq;
    assert (sp + UidDomain)[..|sp|] == sp && (sq + UidDomain)[..|sq|] == sq;
  }

  /** Every entry comes from a record of the group whose event time resolved:
      it carries that record's uid and times, its title or "No Title", and
      its description, location and link or "" for each; with a resolver
      giving well-ordered windows, each entry spans one within a single day.
      Records with no usable time are skipped, so there are at most as many
      entries as records. */
  lemma {:induction false} EntriesWellFormed(bucket: seq<Item>, resolve: Resolver)
    requires AllHaveCalendar(bucket)
    ensures var r := EntriesOf(bucket, resolve);
      r.Some? ==>
        && |r.value| <= |bucket|
        && forall e :: e in r.value ==>
             && e.summary != ""
             && (WellOrdered(resolve) ==> SameDate(e.start, e.end) && !Before(e.end, e.start))
             && (exists it :: it in bucket && resolve(it.calendarData.value) == Resolved(e.start, e.end)
                   && e.uid == UidOf(it.postId)
                   && e.summary == OrElse(it.title, "No Title")
                   && e.description == OrElse(it.calendarData.value.description, "")
                   && e.location == OrElse(it.calendarData.value.location, "")
                   && e.url == OrElse(it.url, ""))
  {
    if bucket != [] {
      var init := bucket[..|bucket| - 1];
      EntriesWellFormed(init, resolve);
      assert forall x :: x in init ==> x in bucket;
    }
  }

  /** The number of records of a group whose event time resolves. */
  function ResolvedCount(bucket: seq<Item>, resolve: Resolver): nat {
    if bucket == [] then 0
    else
      var it := bucket[|bucket| - 1];
      ResolvedCount(bucket[..|bucket| - 1], resolve) +
        (if it.calendarData.Some? && resolve(it.calendarData.value).Resolved? then 1 else 0)
  }

  /** No resolved record is lost: there is one entry per record whose time
      resolves, and the record at position `k` gives the entry after those
      of the resolved records before it, so entries keep the group's order. */
  lemma {:induction false} EntriesComplete(bucket: seq<Item>, resolve: Resolver)
    requires AllHaveCalendar(bucket)
    ensures var r := EntriesOf(bucket, resolve);
      r.Some? ==>
        && |r.value| == ResolvedCount(bucket, resolve)
        && forall k :: 0 <= k < |bucket| && resolve(bucket[k].calendarData.value).Resolved? ==>
             var cal := bucket[k].calendarData.value;
             var p := ResolvedCount(bucket[..k], resolve);
             p < |r.value| && r.value[p] == EntryOf(bucket[k], cal, resolve(cal).start, resolve(cal).end)
  {
    if bucket != [] {
      var init := bucket[..|bucket| - 1];
      EntriesComplete(init, resolve);
      var r := EntriesOf(bucket, resolve);
      if r.Some? {
        var prev := EntriesOf(init, resolve).value;
        forall k | 0 <= k < |bucket| && resolve(bucket[k].calendarData.value).Resolved?
          ensures var cal := bucket[k].calendarData.value;
            var p := ResolvedCount(bucket[..k], resolve);
            p < |r.value| && r.value[p] == EntryOf(bucket[k], cal, resolve(cal).start, resolve(cal).end)
        {
          if k < |init| {
            assert bucket[..k] == init[..k];
            assert init[k] == bucket[k];
          } else {
            assert bucket[..k] == init;
          }
        }
      }
    }
  }

  /** A group fails exactly when resolving one of its records throws, and
      when it does not fail it gives the entries of any resolver the one used
      agrees with. */
  lemma {:induction false} EntriesThrowExactly(bucket: seq<Item>, resolve: Resolver, reference: Resolver)
    requires AllHaveCalendar(bucket)
    ensures EntriesOf(bucket, resolve).None? <==>
      exists k :: 0 <= k < |bucket| && resolve(bucket[k].calendarData.value).AssignmentToConstant?
    ensures AgreesUnlessThrowing(resolve, reference) && EntriesOf(bucket, resolve).Some? ==>
      EntriesOf(bucket, resolve) == EntriesOf(bucket, reference)
  {
    if bucket != [] {
      var init := bucket[..|bucket| - 1];
      EntriesThrowExactly(init, resolve, reference);
      if exists k :: 0 <= k < |init| && resolve(init[k].calendarData.value).AssignmentToConstant? {
        var k :| 0 <= k < |init| && resolve(init[k].calendarData.value).AssignmentToConstant?;
        assert bucket[k] == init[k];
      }
    }
  }

  /** The intended resolver never throws and gives well-ordered windows; the
      one as written gives well-ordered windows and, unless it throws, the
      same result as the intended one. */
  lemma ResolversCompared()
    ensures NeverThrows(DetermineEventTime) && WellOrdered(DetermineEventTime)
    ensures WellOrdered(DetermineEventTimeAsWritten)
    ensures AgreesUnlessThrowing(DetermineEventTimeAsWritten, DetermineEventTime)
  {
    forall cal: CalendarData
      ensures !DetermineEventTime(cal).AssignmentToConstant?
      ensures DetermineEventTime(cal).Resolved? ==>
        SameDate(DetermineEventTime(cal).start, DetermineEventTime(cal).end)
        && !Before(DetermineEventTime(cal).end, DetermineEventTime(cal).start)
      ensures DetermineEventTimeAsWritten(cal).Resolved? ==>
        SameDate(DetermineEventTimeAsWritten(cal).start, DetermineEventTimeAsWritten(cal).end)
        && !Before(DetermineEventTimeAsWritten(cal).end, DetermineEventTimeAsWritten(cal).start)
      ensures DetermineEventTimeAsWritten(cal).AssignmentToConstant?
        || DetermineEventTimeAsWritten(cal) == DetermineEventTime(cal)
    {
      var appStart, appEnd := Normalize(cal.applicationPeriod.startTime), Normalize(cal.applicationPeriod.endTime);
      var actStart, actEnd := Normalize(cal.activityPeriod.startTime), Normalize(cal.activityPeriod.endTime);
      ResolvedWindows(appStart, appEnd, actStart, actEnd);
      AsWrittenDiffersOnlyByThrowing(appStart, appEnd, actStart, actEnd);
    }
  }

  // ----- files -----

  /** With a resolver that never throws the handler always completes, and
      every file is that of a listed type with a non-empty group, in the
      listed order (a group whose records all lack usable times still yields
      a file, with no events). */
  lemma {:induction false} GenerateCompletes(items: seq<Item>, types: seq<string>, resolve: Resolver)
    requires NeverThrows(resolve)
    ensures var (files, completed) := Generate(items, types, resolve);
      && completed
      && |files| <= |types|
      && forall f :: f in files ==>
           exists etype :: etype in types && Bucket(items, etype) != [] && f.key == etype + ".ics"
  {
    if types != [] {
      var init := types[..|types| - 1];
      var etype := types[|types| - 1];
      GenerateCompletes(items, init, resolve);
      BucketSelected(items, etype);
      EntriesThrowExactly(Bucket(items, etype), resolve, resolve);
      assert forall t :: t in init ==> t in types;
    }
  }

  /** How many of the listed types (counted as listed) have a non-empty group. */
  function NonEmptyGroups(items: seq<Item>, types: seq<string>): nat {
    if types == [] then 0
    else NonEmptyGroups(items, types[..|types| - 1]) + (if Bucket(items, types[|types| - 1]) != [] then 1 else 0)
  }

  /** With a resolver that never throws, the last listed type adds its file
      exactly when its group is not empty. */
  lemma GenerateStep(items: seq<Item>, types: seq<string>, resolve: Resolver)
    requires NeverThrows(resolve) && types != []
    ensures var etype := types[|types| - 1];
      && AllHaveCalendar(Bucket(items, etype))
      && EntriesOf(Bucket(items, etype), resolve).Some?
      && Generate(items, types, resolve).0 == Generate(items, types[..|types| - 1], resolve).0 +
           (if Bucket(items, etype) == [] then []
            else [CalendarFile(etype + ".ics", "JBNU_" + KoreanName(etype), EntriesOf(Bucket(items, etype), resolve).value)])
  {
    var etype := types[|types| - 1];
    GenerateCompletes(items, types[..|types| - 1], resolve);
    BucketSelected(items, etype);
    EntriesThrowExactly(Bucket(items, etype), resolve, resolve);
  }

  /** With a resolver that never throws, there is one file per listed type
      with a non-empty group. */
  lemma {:induction false} GenerateFileCount(items: seq<Item>, types: seq<string>, resolve: Resolver)
    requires NeverThrows(resolve)
    ensures |Generate(items, types, resolve).0| == NonEmptyGroups(items, types)
  {
    if types != [] {
      GenerateFileCount(items, types[..|types| - 1], resolve);
      GenerateStep(items, types, resolve);
    }
  }

  /** With a resolver that never throws, every listed type with a non-empty
      group gets its `<type>.ics` file, named after the type and holding the
      group's entries. */
  lemma {:induction false} GenerateFiles(items: seq<Item>, types: seq<string>, resolve: Resolver)
    requires NeverThrows(resolve)
    ensures forall etype :: etype in types && Bucket(items, etype) != [] ==>
      && AllHaveCalendar(Bucket(items, etype))
      && exists f :: f in Generate(items, types, resolve).0
           && f == CalendarFile(etype + ".ics", "JBNU_" + KoreanName(etype), f.events)
           && EntriesOf(Bucket(items, etype), resolve) == Some(f.events)
  {
    if types != [] {
      var init := types[..|types| - 1];
      var etype := types[|types| - 1];
      GenerateFiles(items, init, resolve);
      GenerateStep(items, types, resolve);
      var files := Generate(items, types, resolve).0;
      forall t | t in types && Bucket(items, t) != []
        ensures AllHaveCalendar(Bucket(items, t))
        ensures exists f ::
                  && f in files
                  && f == CalendarFile(t + ".ics", "JBNU_" + KoreanName(t), f.events)
                  && EntriesOf(Bucket(items, t), resolve) == Some(f.events)
      {
        BucketSelected(items, t);
        if t == etype {
          assert files[|files| - 1] in files;
        } else {
          assert t in init;
          var f :| f in Generate(items, init, resolve).0
            && f == CalendarFile(t + ".ics", "JBNU_" + KoreanName(t), f.events)
            && EntriesOf(Bucket(items, t), resolve) == Some(f.events);
          assert f in files;
        }
      }
    }
  }

  /** The handler completes exactly when no selected record of the listed
      types throws; when it does complete, it produces the same files as with
      any resolver the one used agrees with. */
  lemma {:induction false} GenerateThrowsExactly(items: seq<Item>, types: seq<string>, resolve: Resolver, reference: Resolver)
    requires AgreesUnlessThrowing(resolve, reference)
    ensures Generate(items, types, resolve).1 <==>
      forall it :: it in items && Selected(it) && EventTypeOf(it).value in types ==>
        !resolve(it.calendarData.value).AssignmentToConstant?
    ensures Generate(items, types, resolve).1 ==> Generate(items, types, resolve) == Generate(items, types, reference)
  {
    if types != [] {
      var init := types[..|types| - 1];
      var etype := types[|types| - 1];
      GenerateThrowsExactly(items, init, resolve, reference);
      var bucket := Bucket(items, etype);
      BucketSelected(items, etype);
      EntriesThrowExactly(bucket, resolve, reference);
      forall it | it in items && Selected(it) && EventTypeOf(it) == Some(etype)
        ensures it in bucket
      {
        BucketMembership(items, etype, it);
      }
      forall k | 0 <= k < |bucket|
        ensures bucket[k] in items && Selected(bucket[k]) && EventTypeOf(bucket[k]).value in types
      {
        BucketMembership(items, etype, bucket[k]);
      }
      assert forall t :: t in init ==> t in types;
      assert forall t :: t in types ==> t in init || t == etype;
    }
  }

  /** The handler as written returns 200 exactly when no approved record of a
      listed type has a midnight activity start without an application end;
      the intended version always returns 200 with one file per event type
      with a non-empty group, and when both return 200 they upload the same
      files. */
  lemma HandlerOutcomes(items: seq<Item>)
    ensures Generate(items, EventTypes, DetermineEventTime).1
    ensures Generate(items, EventTypes, DetermineEventTimeAsWritten).1 <==>
      forall it :: it in items && Selected(it) ==>
        !DetermineEventTimeAsWritten(it.calendarData.value).AssignmentToConstant?
    ensures Generate(items, EventTypes, DetermineEventTimeAsWritten).1 ==>
      Generate(items, EventTypes, DetermineEventTimeAsWritten) == Generate(items, EventTypes, DetermineEventTime)
    ensures |Generate(items, EventTypes, DetermineEventTime).0| == NonEmptyGroups(items, EventTypes)
  {
    ResolversCompared();
    GenerateCompletes(items, EventTypes, DetermineEventTime);
    GenerateFileCount(items, EventTypes, DetermineEventTime);
    GenerateThrowsExactly(items, EventTypes, DetermineEventTimeAsWritten, DetermineEventTime);
  }

  // ----- the handler's loops -----

  /** Steps 2 and 3 of the handler: filter the records, start an empty list
      for every event type, and push each kept record onto its type's list. */
  method SelectItems(items: seq<Item>) returns (filtered: seq<Item>)
    ensures filtered == Filtered(items)
  {
    filtered := [];
    var i := 0;
    while i < |items|
      invariant i <= |items|
      invariant filtered == Filtered(items[..i])
    {
      if Selected(items[i]) {
        filtered := filtered + [items[i]];
      }
      assert items[..i + 1][..i] == items[..i];
      i := i + 1;
    }
    assert items[..i] == items;
  }

  method GroupByType(items: seq<Item>) returns (groups: map<string, seq<Item>>)
    ensures forall etype :: etype in groups <==> etype in EventTypes
    ensures forall etype :: etype in EventTypes ==> groups[etype] == Bucket(items, etype)
  {
    var filtered := SelectItems(items);
    groups := map[];
    var t := 0;
    while t < |EventTypes|
      invariant t <= |EventTypes|
      invariant forall etype :: etype in groups <==> etype in EventTypes[..t]
      invariant forall etype :: etype in groups ==> groups[etype] == []
    {
      groups := groups[EventTypes[t] := []];
      t := t + 1;
    }

    var j := 0;
    while j < |filtered|
      invariant j <= |filtered|
      invariant forall etype :: etype in groups <==> etype in EventTypes
      invariant forall etype :: etype in EventTypes ==> groups[etype] == Bucket(filtered[..j], etype)
    {
      var it := filtered[j];
      FilteredSelected(items, it);
      var et := OrElse(EventTypeOf(it), "Others");
      assert filtered[..j + 1][..j] == filtered[..j];
      if et in EventTypes {
        groups := groups[et := groups[et] + [it]];
      } else {
        assert false;
      }
      j := j + 1;
    }
    assert filtered[..j] == filtered;
    forall etype | etype in EventTypes
      ensures groups[etype] == Bucket(items, etype)
    {
      BucketOfFiltered(items, etype);
    }
  }

  lemma {:induction false} FilteredSelected(items: seq<Item>, it: Item)
    requires it in Filtered(items)
    ensures Selected(it)
  {
    if items != [] {
      var init := items[..|items| - 1];
      if it in Filtered(init) {
        FilteredSelected(init, it);
      }
    }
  }

  /** Step 4 of the handler: for every event type in order, skip an empty
      list, otherwise build one entry per record with a usable event time and
      upload the file. A throw ends the handler with status 500. */
  method GenerateCalendars(items: seq<Item>, resolve: Resolver) returns (uploaded: seq<CalendarFile>, statusCode: int)
    ensures (uploaded, statusCode == 200) == Generate(items, EventTypes, resolve)
    ensures statusCode == 200 || statusCode == 500
  {
    var groups := GroupByType(items);
    uploaded := [];
    var t := 0;
    while t < |EventTypes|
      invariant t <= |EventTypes|
      invariant Generate(items, EventTypes[..t], resolve) == (uploaded, true)
    {
      var etype := EventTypes[t];
      var eventList := groups[etype];
      assert eventList == Bucket(items, etype);
      ghost var upTo := EventTypes[..t + 1];
      assert upTo[..|upTo| - 1] == EventTypes[..t] && upTo[|upTo| - 1] == etype;
      if |eventList| == 0 {
        t := t + 1;
        continue;
      }
      BucketSelected(items, etype);
      var events := BuildEntries(eventList, resolve);
      if events.None? {
        GenerateStaysAborted(items, EventTypes, t + 1, resolve);
        statusCode := 500;
        return;
      }
      uploaded := uploaded + [CalendarFile(etype + ".ics", "JBNU_" + KoreanName(etype), events.value)];
      t := t + 1;
    }
    assert EventTypes[..t] == EventTypes;
    statusCode := 200;
  }

  /** The calendar generator's handler, with `determineEventTime` as written:
      status 200 exactly when no approved record of a listed type has a
      midnight activity start and no application end, and then the files of
      the intended version. */
  method Handler(items: seq<Item>) returns (uploaded: seq<CalendarFile>, statusCode: int)
    ensures statusCode == 200 <==>
      forall it :: it in items && Selected(it) ==>
        !DetermineEventTimeAsWritten(it.calendarData.value).AssignmentToConstant?
    ensures statusCode == 200 ==> uploaded == Generate(items, EventTypes, DetermineEventTime).0
    ensures statusCode == 500 ==> uploaded == Generate(items, EventTypes, DetermineEventTimeAsWritten).0
  {
    uploaded, statusCode := GenerateCalendars(items, DetermineEventTimeAsWritten);
    HandlerOutcomes(items);
  }

  /** The inner loop of step 4 over one type's list: None when resolving a
      record throws. */
  method BuildEntries(eventList: seq<Item>, resolve: Resolver) returns (events: Option<seq<Entry>>)
    requires AllHaveCalendar(eventList)
    ensures events == EntriesOf(eventList, resolve)
  {
    var acc: seq<Entry> := [];
    var k := 0;
    while k < |eventList|
      invariant k <= |eventList|
      invariant EntriesOf(eventList[..k], resolve) == Some(acc)
    {
      var it := eventList[k];
      var cal := it.calendarData.value;
      assert eventList[..k + 1][..k] == eventList[..k];
      var times := resolve(cal);
      if times.AssignmentToConstant? {
        EntriesPrefixThrows(eventList, k + 1, resolve);
        return None;
      }
      if times.Resolved? {
        acc := acc + [EntryOf(it, cal, times.start, times.end)];
      }
      k := k + 1;
    }
    assert eventList[..k] == eventList;
    events := Some(acc);
  }

  /** Once a prefix of a group throws, the whole group throws. */
  lemma {:induction false} EntriesPrefixThrows(bucket: seq<Item>, n: nat, resolve: Resolver)
    requires n <= |bucket| && AllHaveCalendar(bucket)
    requires EntriesOf(bucket[..n], resolve).None?
    ensures EntriesOf(bucket, resolve).None?
    decreases |bucket| - n
  {
    if n < |bucket| {
      assert bucket[..n + 1][..n] == bucket[..n];
      EntriesPrefixThrows(bucket, n + 1, resolve);
    } else {
      assert bucket[..n] == bucket;
    }
  }

  /** Once the handler has thrown, later types change nothing. */
  lemma {:induction false} GenerateStaysAborted(items: seq<Item>, types: seq<string>, n: nat, resolve: Resolver)
    requires n <= |types|
    requires !Generate(items, types[..n], resolve).1
    ensures Generate(items, types, resolve) == Generate(items, types[..n], resolve)
    decreases |types| - n
  {
    if n < |types| {
      assert types[..n + 1][..n] == types[..n];
      GenerateStaysAborted(items, types, n + 1, resolve);
    } else {
      assert types[..n] == types;
    }
  }
}
