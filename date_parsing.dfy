/** `sanitize` and `parseDateTime` of the calendar generator: a raw field value
    becomes a trimmed string or null, and a string becomes an instant or null.

    A format is a sequence of tokens, as luxon's `fromFormat` reads one: a
    literal character, or a numeric field of a fixed number of ASCII digits
    ("yyyy" is four digits, "MM", "dd", "HH", "mm" and "ss" are two). The
    ISO attempt accepts the two shapes the classifier is told to produce,
    "YYYY-MM-DD" and "YYYY-MM-DDTHH:mm:ss". A parse succeeds when the whole
    string matches and the fields form a valid date and time; fields the
    format does not mention default to January 1st, 00:00:00. */
module DateParsing {
  import opened Wrappers
  import opened JsStrings
  import opened DateTimes

  datatype Field = Year | Month | Day | Hour | Minute | Second
  datatype Token = Lit(c: char) | Num(field: Field, width: nat)
  type Format = seq<Token>

  /** ISO "YYYY-MM-DD", and the fallback "yyyy-MM-dd" (the same tokens). */
  const IsoDate: Format := [Num(Year, 4), Lit('-'), Num(Month, 2), Lit('-'), Num(Day, 2)]
  /** ISO "YYYY-MM-DDTHH:mm:ss". */
  const IsoDateTime: Format :=
    [Num(Year, 4), Lit('-'), Num(Month, 2), Lit('-'), Num(Day, 2),
     Lit('T'), Num(Hour, 2), Lit(':'), Num(Minute, 2), Lit(':'), Num(Second, 2)]
  /** "yyyy-MM-dd HH:mm:ss". */
  const DashDateTime: Format :=
    [Num(Year, 4), Lit('-'), Num(Month, 2), Lit('-'), Num(Day, 2),
     Lit(' '), Num(Hour, 2), Lit(':'), Num(Minute, 2), Lit(':'), Num(Second, 2)]
  /** "yyyy/MM/dd HH:mm". */
  const SlashDateMinute: Format :=
    [Num(Year, 4), Lit('/'), Num(Month, 2), Lit('/'), Num(Day, 2),
     Lit(' '), Num(Hour, 2), Lit(':'), Num(Minute, 2)]
  /** "yyyy/MM/dd". */
  const SlashDate: Format := [Num(Year, 4), Lit('/'), Num(Month, 2), Lit('/'), Num(Day, 2)]

  /** Every attempt `parseDateTime` makes, in order: ISO first, then the four
      fallback formats as listed in the source. */
  const Attempts: seq<Format> := [IsoDate, IsoDateTime, DashDateTime, SlashDateMinute, IsoDate, SlashDate]

  /** The fields before any is read. */
  const Blank := DateTime(0, 1, 1, 0, 0, 0)

  function Get(t: DateTime, f: Field): nat {
    match f
    case Year => t.year
    case Month => t.month
    case Day => t.day
    case Hour => t.hour
    case Minute => t.minute
    case Second => t.second
  }

  function Put(t: DateTime, f: Field, v: nat): DateTime {
    match f
    case Year => t.(year := v)
    case Month => t.(month := v)
    case Day => t.(day := v)
    case Hour => t.(hour := v)
    case Minute => t.(minute := v)
    case Second => t.(second := v)
  }

  // ----- digits -----

  function Pow10(w: nat): (p: nat)
    ensures p >= 1
  {
    if w == 0 then 1 else 10 * Pow10(w - 1)
  }

  predicate AllDigits(s: string) {
    forall k :: 0 <= k < |s| ==> IsDigit(s[k])
  }

  function DigitValue(c: char): nat
    requires IsDigit(c)
  {
    c as int - '0' as int
  }

  function Digit(d: nat): (c: char)
    requires d < 10
    ensures IsDigit(c) && DigitValue(c) == d
  {
    ('0' as int + d) as char
  }

  /** The number a run of decimal digits denotes. */
  function DigitsValue(s: string): nat
    requires AllDigits(s)
  {
    if s == [] then 0 else DigitsValue(s[..|s| - 1]) * 10 + DigitValue(s[|s| - 1])
  }

  /** `n` written with exactly `w` digits, zero-padded on the left. */
  function Pad(n: nat, w: nat): (r: string)
    ensures |r| == w && AllDigits(r)
  {
    if w == 0 then [] else Pad(n / 10, w - 1) + [Digit(n % 10)]
  }

  /** Reading back a padded number gives the number, when it fits the width. */
  lemma {:induction false} PadRoundTrip(n: nat, w: nat)
    requires n < Pow10(w)
    ensures DigitsValue(Pad(n, w)) == n
  {
    if w > 0 {
      PadRoundTrip(n / 10, w - 1);
      var p := Pad(n, w);
      assert p[..|p| - 1] == Pad(n / 10, w - 1);
    }
  }

  // ----- matching and rendering -----

  /** Reads the whole of `s` against `fmt`, storing each numeric field into `acc`. */
  function Match(s: string, fmt: Format, acc: DateTime): Option<DateTime>
    decreases fmt
  {
    if fmt == [] then (if s == [] then Some(acc) else None)
    else match fmt[0]
      case Lit(c) =>
        if |s| > 0 && s[0] == c then Match(s[1..], fmt[1..], acc) else None
      case Num(f, w) =>
        if |s| >= w && AllDigits(s[..w]) then Match(s[w..], fmt[1..], Put(acc, f, DigitsValue(s[..w])))
        else None
  }

  function RenderToken(t: DateTime, tok: Token): string {
    match tok
    case Lit(c) => [c]
    case Num(f, w) => Pad(Get(t, f), w)
  }

  /** Writes `t` in `fmt`, as luxon's `toFormat` would. */
  function Render(t: DateTime, fmt: Format): string
    decreases fmt
  {
    if fmt == [] then [] else RenderToken(t, fmt[0]) + Render(t, fmt[1..])
  }

  /** `acc` with the fields that `fmt` mentions taken from `t`. */
  function Fill(acc: DateTime, t: DateTime, fmt: Format): DateTime
    decreases fmt
  {
    if fmt == [] then acc
    else match fmt[0]
      case Lit(_) => Fill(acc, t, fmt[1..])
      case Num(f, _) => Fill(Put(acc, f, Get(t, f)), t, fmt[1..])
  }

  /** Every field of `t` that `fmt` writes fits in its width. */
  predicate Fits(t: DateTime, fmt: Format) {
    forall k :: 0 <= k < |fmt| && fmt[k].Num? ==> Get(t, fmt[k].field) < Pow10(fmt[k].width)
  }

  /** `t` survives being written in `fmt`: its fields fit, and the fields
      `fmt` leaves out are at their defaults. */
  predicate Representable(t: DateTime, fmt: Format) {
    Fits(t, fmt) && Fill(Blank, t, fmt) == t
  }

  function Width(fmt: Format): nat
    decreases fmt
  {
    if fmt == [] then 0 else (match fmt[0] case Lit(_) => 1 case Num(_, w) => w) + Width(fmt[1..])
  }

  /** Matching what was rendered in the same format recovers the rendered fields. */
  lemma {:induction false} MatchRender(t: DateTime, fmt: Format, acc: DateTime)
    requires Fits(t, fmt)
    ensures Match(Render(t, fmt), fmt, acc) == Some(Fill(acc, t, fmt))
    decreases fmt
  {
    if fmt != [] {
      var s := Render(t, fmt);
      var rest := Render(t, fmt[1..]);
      assert Fits(t, fmt[1..]) by {
        forall k | 0 <= k < |fmt[1..]| && fmt[1..][k].Num?
          ensures Get(t, fmt[1..][k].field) < Pow10(fmt[1..][k].width)
        {
          assert fmt[1..][k] == fmt[k + 1];
        }
      }
      match fmt[0]
      case Lit(c) =>
        assert s == [c] + rest;
        assert s[1..] == rest;
        MatchRender(t, fmt[1..], acc);
      case Num(f, w) =>
        var p := Pad(Get(t, f), w);
        assert s == p + rest;
        assert s[..w] == p && s[w..] == rest;
        assert fmt[0] == fmt[0 := fmt[0]][0];
        assert Get(t, f) < Pow10(w);
        PadRoundTrip(Get(t, f), w);
        MatchRender(t, fmt[1..], Put(acc, f, Get(t, f)));
    }
  }

  /** A successful match consumes exactly the width of the format. */
  lemma {:induction false} MatchWidth(s: string, fmt: Format, acc: DateTime)
    requires Match(s, fmt, acc).Some?
    ensures |s| == Width(fmt)
    decreases fmt
  {
    if fmt != [] {
      match fmt[0]
      case Lit(c) => MatchWidth(s[1..], fmt[1..], acc);
      case Num(f, w) => MatchWidth(s[w..], fmt[1..], Put(acc, f, DigitsValue(s[..w])));
    }
  }

  lemma {:induction false} RenderWidth(t: DateTime, fmt: Format)
    ensures |Render(t, fmt)| == Width(fmt)
    decreases fmt
  {
    if fmt != [] {
      RenderWidth(t, fmt[1..]);
    }
  }

  /** A successful match against a format with the literal `c` after the
      prefix `pre` has `c` at that position. */
  lemma {:induction false} MatchLiteral(s: string, pre: Format, c: char, post: Format, acc: DateTime)
    requires Match(s, pre + [Lit(c)] + post, acc).Some?
    ensures Width(pre) < |s| && s[Width(pre)] == c
    decreases pre
  {
    var fmt := pre + [Lit(c)] + post;
    if pre == [] {
      assert fmt[0] == Lit(c);
    } else {
      assert fmt[0] == pre[0] && fmt[1..] == pre[1..] + [Lit(c)] + post;
      match pre[0]
      case Lit(d) => MatchLiteral(s[1..], pre[1..], c, post, acc);
      case Num(f, w) => MatchLiteral(s[w..], pre[1..], c, post, Put(acc, f, DigitsValue(s[..w])));
    }
  }

  lemma {:induction false} RenderLiteral(t: DateTime, pre: Format, c: char, post: Format)
    ensures Width(pre) < |Render(t, pre + [Lit(c)] + post)|
    ensures Render(t, pre + [Lit(c)] + post)[Width(pre)] == c
    decreases pre
  {
    var fmt := pre + [Lit(c)] + post;
    RenderWidth(t, fmt[1..]);
    if pre == [] {
      assert fmt[0] == Lit(c);
    } else {
      assert fmt[0] == pre[0] && fmt[1..] == pre[1..] + [Lit(c)] + post;
      RenderLiteral(t, pre[1..], c, post);
    }
  }

  // ----- parseDateTime -----

  /** The first attempt in `fmts` that matches `s` and yields a valid instant wins. */
  function ParseWith(s: string, fmts: seq<Format>): Option<Instant>
    decreases fmts
  {
    if fmts == [] then None
    else match Match(s, fmts[0], Blank)
      case Some(d) => if IsValid(d) then Some(d) else ParseWith(s, fmts[1..])
      case None => ParseWith(s, fmts[1..])
  }

  predicate ParsesValid(s: string, fmt: Format) {
    Match(s, fmt, Blank).Some? && IsValid(Match(s, fmt, Blank).value)
  }

  /** First match wins: the result is that of the earliest attempt that
      parses to a valid instant, and null when no attempt does. */
  lemma {:induction false} ParseWithFirstMatch(s: string, fmts: seq<Format>, i: nat)
    requires i < |fmts| && ParsesValid(s, fmts[i])
    requires forall j :: 0 <= j < i ==> !ParsesValid(s, fmts[j])
    ensures ParseWith(s, fmts) == Some(Match(s, fmts[i], Blank).value)
    decreases i
  {
    if i > 0 {
      assert !ParsesValid(s, fmts[0]);
      ParseWithFirstMatch(s, fmts[1..], i - 1);
    }
  }

  lemma {:induction false} ParseWithNone(s: string, fmts: seq<Format>)
    ensures ParseWith(s, fmts).None? <==> forall j :: 0 <= j < |fmts| ==> !ParsesValid(s, fmts[j])
    decreases fmts
  {
    if fmts != [] {
      ParseWithNone(s, fmts[1..]);
      assert forall j :: 1 <= j < |fmts| ==> fmts[j] == fmts[1..][j - 1];
    }
  }

  /** `parseDateTime`: null and the empty string give null; otherwise the
      attempts in order. It is total: no input makes it throw. */
  function ParseDateTime(v: Option<string>): (r: Option<Instant>)
    ensures v.None? || v == Some("") ==> r.None?
  {
    match v
    case None => None
    case Some(s) => if s == "" then None else ParseWith(s, Attempts)
  }

  /** `sanitize`: null and non-strings (None), blank strings and any casing of
      "undefined" become null; anything else is trimmed. */
  function Sanitize(v: Option<string>): (r: Option<string>)
    ensures r.Some? ==> r.value != "" && Trim(r.value) == r.value
    ensures r.Some? ==> v.Some? && r.value == Trim(v.value) && LowerAscii(r.value) != "undefined"
    ensures v.Some? && Trim(v.value) != "" && LowerAscii(Trim(v.value)) != "undefined" ==> r.Some?
  {
    match v
    case None => None
    case Some(s) =>
      var t := Trim(s);
      if t == "" || LowerAscii(t) == "undefined" then None else Some(t)
  }

  /** `parseDateTime(sanitize(value))`, the normaliser applied to every period bound. */
  function Normalize(v: Option<string>): Option<Instant> {
    ParseDateTime(Sanitize(v))
  }

  /** "undefined" in any casing, blank strings and null all normalise to null. */
  lemma NormalizeNullish(s: string)
    requires Trim(s) == "" || LowerAscii(Trim(s)) == "undefined"
    ensures Normalize(Some(s)) == None && Normalize(None) == None
  {
  }

  lemma TrimUndefined()
    ensures Trim("Undefined") == "Undefined"
  {
    TrimNoOp("Undefined");
  }

  lemma UndefinedLowered()
    ensures LowerAscii("Undefined") == "undefined"
  {
  }

  lemma UndefinedSpellings()
    ensures Normalize(Some("Undefined")) == None
    ensures Normalize(Some("")) == None
  {
    TrimUndefined();
    UndefinedLowered();
    NormalizeNullish("Undefined");
    NormalizeNullish("");
  }

  // ----- round trip -----

  lemma {:induction false} RenderAppend(t: DateTime, a: Format, b: Format)
    ensures Render(t, a + b) == Render(t, a) + Render(t, b)
    decreases a
  {
    if a == [] {
      assert a + b == b;
    } else {
      assert (a + b)[0] == a[0] && (a + b)[1..] == a[1..] + b;
      RenderAppend(t, a[1..], b);
    }
  }

  /** A format that starts and ends with a numeric field renders to a string
      that starts and ends with a digit. */
  lemma RenderDigitEnds(t: DateTime, fmt: Format)
    requires |fmt| > 0 && fmt[0].Num? && fmt[0].width > 0
    requires fmt[|fmt| - 1].Num? && fmt[|fmt| - 1].width > 0
    ensures var s := Render(t, fmt); |s| > 0 && IsDigit(s[0]) && IsDigit(s[|s| - 1])
  {
    var last := fmt[|fmt| - 1];
    RenderAppend(t, fmt[..|fmt| - 1], [last]);
    assert fmt[..|fmt| - 1] + [last] == fmt;
    assert Render(t, [last]) == Pad(Get(t, last.field), last.width) + [];
  }

  lemma WidthMismatch(t: DateTime, rendered: Format, tried: Format)
    requires Width(rendered) != Width(tried)
    ensures !ParsesValid(Render(t, rendered), tried)
  {
    RenderWidth(t, rendered);
    if ParsesValid(Render(t, rendered), tried) {
      MatchWidth(Render(t, rendered), tried, Blank);
    }
  }

  lemma LiteralMismatch(t: DateTime, pre: Format, c: char, post: Format, d: char, post': Format)
    requires c != d
    ensures !ParsesValid(Render(t, pre + [Lit(c)] + post), pre + [Lit(d)] + post')
  {
    var s := Render(t, pre + [Lit(c)] + post);
    RenderLiteral(t, pre, c, post);
    if ParsesValid(s, pre + [Lit(d)] + post') {
      MatchLiteral(s, pre, d, post', Blank);
    }
  }

  lemma AttemptWidths()
    ensures Width(IsoDate) == 10 && Width(IsoDateTime) == 19 && Width(DashDateTime) == 19
    ensures Width(SlashDateMinute) == 16 && Width(SlashDate) == 10
  {
    IsoDateWidth();
    IsoDateTimeWidth();
    DashDateTimeWidth();
    SlashDateMinuteWidth();
    SlashDateWidth();
  }

  lemma IsoDateWidth()
    ensures Width(IsoDate) == 10
  {
  }

  lemma IsoDateTimeWidth()
    ensures Width(IsoDateTime) == 19
  {
  }

  lemma DashDateTimeWidth()
    ensures Width(DashDateTime) == 19
  {
  }

  lemma SlashDateMinuteWidth()
    ensures Width(SlashDateMinute) == 16
  {
  }

  lemma SlashDateWidth()
    ensures Width(SlashDate) == 10
  {
  }

  /** An instant rendered in a format that starts and ends with a numeric
      field passes `sanitize` unchanged. */
  lemma SanitizeRendered(t: DateTime, fmt: Format)
    requires |fmt| > 0 && fmt[0].Num? && fmt[0].width > 0
    requires fmt[|fmt| - 1].Num? && fmt[|fmt| - 1].width > 0
    ensures Sanitize(Some(Render(t, fmt))) == Some(Render(t, fmt))
  {
    var s := Render(t, fmt);
    RenderDigitEnds(t, fmt);
    TrimNoOp(s);
    assert LowerAscii(s)[0] != 'u';
  }

  /** The ISO date-time shape and "yyyy-MM-dd HH:mm:ss" differ only in the separator. */
  lemma DateTimeSeparators(t: DateTime)
    ensures !ParsesValid(Render(t, DashDateTime), IsoDateTime)
  {
    var date := [Num(Year, 4), Lit('-'), Num(Month, 2), Lit('-'), Num(Day, 2)];
    var time := [Num(Hour, 2), Lit(':'), Num(Minute, 2), Lit(':'), Num(Second, 2)];
    assert DashDateTime == date + [Lit(' ')] + time && IsoDateTime == date + [Lit('T')] + time;
    LiteralMismatch(t, date, ' ', time, 'T', time);
  }

  /** "yyyy/MM/dd" and "YYYY-MM-DD" differ in the first separator. */
  lemma DateSeparators(t: DateTime)
    ensures !ParsesValid(Render(t, SlashDate), IsoDate)
  {
    var tail := [Num(Month, 2), Lit('/'), Num(Day, 2)];
    var tail' := [Num(Month, 2), Lit('-'), Num(Day, 2)];
    assert SlashDate == [Num(Year, 4)] + [Lit('/')] + tail;
    assert IsoDate == [Num(Year, 4)] + [Lit('-')] + tail';
    LiteralMismatch(t, [Num(Year, 4)], '/', tail, '-', tail');
  }

  /** The round trip through the `i`-th of a list of attempts, when no
      earlier attempt accepts the rendered string. */
  lemma RoundTripAt(t: Instant, s: string, fmts: seq<Format>, i: nat)
    requires i < |fmts| && Representable(t, fmts[i]) && s == Render(t, fmts[i])
    requires |fmts[i]| > 0 && fmts[i][0].Num? && fmts[i][0].width > 0
    requires fmts[i][|fmts[i]| - 1].Num? && fmts[i][|fmts[i]| - 1].width > 0
    requires forall j :: 0 <= j < i ==> !ParsesValid(s, fmts[j])
    ensures Sanitize(Some(s)) == Some(s)
    ensures ParseWith(s, fmts) == Some(t)
  {
    MatchRender(t, fmts[i], Blank);
    SanitizeRendered(t, fmts[i]);
    ParseWithFirstMatch(s, fmts, i);
  }

  /** A string that `sanitize` leaves alone normalises to what the attempts make of it. */
  lemma NormalizeClean(s: string)
    requires Sanitize(Some(s)) == Some(s)
    ensures Normalize(Some(s)) == ParseWith(s, Attempts)
  {
  }

  /** The attempts, position by position. */
  lemma AttemptsListed()
    ensures |Attempts| == 6
    ensures Attempts[0] == IsoDate && Attempts[1] == IsoDateTime && Attempts[2] == DashDateTime
    ensures Attempts[3] == SlashDateMinute && Attempts[4] == IsoDate && Attempts[5] == SlashDate
  {
  }

  /** The round trip through the `i`-th attempt of `parseDateTime`, when no
      earlier attempt accepts the rendered string. */
  lemma RoundTripAttempt(t: Instant, s: string, fmt: Format, i: nat)
    requires i < |Attempts| && Attempts[i] == fmt
    requires Representable(t, fmt) && s == Render(t, fmt)
    requires |fmt| > 0 && fmt[0].Num? && fmt[0].width > 0
    requires fmt[|fmt| - 1].Num? && fmt[|fmt| - 1].width > 0
    requires forall j :: 0 <= j < i ==> !ParsesValid(s, Attempts[j])
    ensures Normalize(Some(s)) == Some(t)
  {
    RoundTripAt(t, s, Attempts, i);
    NormalizeClean(s);
  }

  /** Reading back what was written: an instant written in any format that
      `parseDateTime` attempts normalises to that same instant. The fallback
      "yyyy-MM-dd" is never reached, since the ISO attempt accepts the same
      strings with the same result (RoundTripIsoDate). */
  lemma RoundTripIsoDate(t: Instant, s: string)
    requires Representable(t, IsoDate) && s == Render(t, IsoDate)
    ensures Normalize(Some(s)) == Some(t)
  {
    AttemptsListed();
    RoundTripAttempt(t, s, IsoDate, 0);
  }

  lemma RoundTripIsoDateTime(t: Instant, s: string)
    requires Representable(t, IsoDateTime) && s == Render(t, IsoDateTime)
    ensures Normalize(Some(s)) == Some(t)
  {
    RejectedBeforeIsoDateTime(t, s);
    RejectedUpTo(s, 1);
    RoundTripAttempt(t, s, IsoDateTime, 1);
  }

  lemma RoundTripDashDateTime(t: Instant, s: string)
    requires Representable(t, DashDateTime) && s == Render(t, DashDateTime)
    ensures Normalize(Some(s)) == Some(t)
  {
    RejectedBeforeDashDateTime(t, s);
    RejectedUpTo(s, 2);
    RoundTripAttempt(t, s, DashDateTime, 2);
  }

  lemma RoundTripSlashDateMinute(t: Instant, s: string)
    requires Representable(t, SlashDateMinute) && s == Render(t, SlashDateMinute)
    ensures Normalize(Some(s)) == Some(t)
  {
    RejectedBeforeSlashDateMinute(t, s);
    RejectedUpTo(s, 3);
    RoundTripAttempt(t, s, SlashDateMinute, 3);
  }

  lemma RoundTripSlashDate(t: Instant, s: string)
    requires Representable(t, SlashDate) && s == Render(t, SlashDate)
    ensures Normalize(Some(s)) == Some(t)
  {
    RejectedBeforeSlashDate(t, s);
    RejectedUpTo(s, 5);
    RoundTripAttempt(t, s, SlashDate, 5);
  }

  /** The attempts before the `i`-th, read off by position. */
  lemma RejectedUpTo(s: string, i: nat)
    requires 0 < i <= 5
    requires !ParsesValid(s, IsoDate)
    requires i > 1 ==> !ParsesValid(s, IsoDateTime)
    requires i > 2 ==> !ParsesValid(s, DashDateTime)
    requires i > 3 ==> !ParsesValid(s, SlashDateMinute)
    ensures i < |Attempts| && Attempts[i] == [IsoDate, IsoDateTime, DashDateTime, SlashDateMinute, IsoDate, SlashDate][i]
    ensures forall j :: 0 <= j < i ==> !ParsesValid(s, Attempts[j])
  {
    AttemptsListed();
  }

  // No attempt before a format's own accepts a string rendered in it.

  lemma RejectedBeforeIsoDateTime(t: DateTime, s: string)
    requires s == Render(t, IsoDateTime)
    ensures !ParsesValid(s, IsoDate)
  {
    AttemptWidths();
    WidthMismatch(t, IsoDateTime, IsoDate);
  }

  lemma RejectedBeforeDashDateTime(t: DateTime, s: string)
    requires s == Render(t, DashDateTime)
    ensures !ParsesValid(s, IsoDate) && !ParsesValid(s, IsoDateTime)
  {
    AttemptWidths();
    WidthMismatch(t, DashDateTime, IsoDate);
    DateTimeSeparators(t);
  }

  lemma RejectedBeforeSlashDateMinute(t: DateTime, s: string)
    requires s == Render(t, SlashDateMinute)
    ensures !ParsesValid(s, IsoDate) && !ParsesValid(s, IsoDateTime) && !ParsesValid(s, DashDateTime)
  {
    AttemptWidths();
    WidthMismatch(t, SlashDateMinute, IsoDate);
    WidthMismatch(t, SlashDateMinute, IsoDateTime);
    WidthMismatch(t, SlashDateMinute, DashDateTime);
  }

  lemma RejectedBeforeSlashDate(t: DateTime, s: string)
    requires s == Render(t, SlashDate)
    ensures !ParsesValid(s, IsoDate) && !ParsesValid(s, IsoDateTime) && !ParsesValid(s, DashDateTime)
    ensures !ParsesValid(s, SlashDateMinute)
  {
    AttemptWidths();
    DateSeparators(t);
    WidthMismatch(t, SlashDate, IsoDateTime);
    WidthMismatch(t, SlashDate, DashDateTime);
    WidthMismatch(t, SlashDate, SlashDateMinute);
  }
}
