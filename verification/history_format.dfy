/**
 The text the history screen shows for each stored session (mobile/screens/HistoryScreen.tsx):
 the relative age of its last activity (`formatDate`) and the session, message and
 prompt counts. The clock reading `now` and the locale's date rendering are parameters.
 */
module HistoryFormat {
  import opened Results
  import Decimal
  import SessionTitle
  import SessionTypes

  const MS_PER_MINUTE: int := 60_000
  const MS_PER_HOUR: int := 3_600_000
  const MS_PER_DAY: int := 86_400_000

  /** Ages of a week or more are shown as a calendar date. */
  const DAYS_SHOWN_RELATIVE: int := 7

  /** How `formatDate` describes the time since a timestamp. */
  datatype Age =
    | JustNow
    | MinutesAgo(minutes: nat)
    | HoursAgo(hours: nat)
    | DaysAgo(days: nat)
    | OnDate

  /** The age of `timestamp` at `now`. The elapsed milliseconds are floored to whole
      minutes, hours and days as `Math.floor` does; Dafny's division by a positive
      divisor rounds down too, also for a timestamp in the future. */
  function AgeOf(timestamp: int, now: int): (a: Age)
    ensures a.JustNow? <==> now - timestamp < MS_PER_MINUTE
    ensures a.MinutesAgo? <==> MS_PER_MINUTE <= now - timestamp < MS_PER_HOUR
    ensures a.HoursAgo? <==> MS_PER_HOUR <= now - timestamp < MS_PER_DAY
    ensures a.DaysAgo? <==> MS_PER_DAY <= now - timestamp < DAYS_SHOWN_RELATIVE * MS_PER_DAY
    ensures a.OnDate? <==> DAYS_SHOWN_RELATIVE * MS_PER_DAY <= now - timestamp
    // each count is the number of whole units elapsed
    ensures a.MinutesAgo? ==> (1 <= a.minutes < 60
      && a.minutes * MS_PER_MINUTE <= now - timestamp < (a.minutes + 1) * MS_PER_MINUTE)
    ensures a.HoursAgo? ==> (1 <= a.hours < 24
      && a.hours * MS_PER_HOUR <= now - timestamp < (a.hours + 1) * MS_PER_HOUR)
    ensures a.DaysAgo? ==> (1 <= a.days < DAYS_SHOWN_RELATIVE
      && a.days * MS_PER_DAY <= now - timestamp < (a.days + 1) * MS_PER_DAY)
  {
    var diff := now - timestamp;
    var minutes := diff / MS_PER_MINUTE;
    var hours := diff / MS_PER_HOUR;
    var days := diff / MS_PER_DAY;
    if minutes < 1 then JustNow
    else if minutes < 60 then MinutesAgo(minutes)
    else if hours < 24 then HoursAgo(hours)
    else if days < DAYS_SHOWN_RELATIVE then DaysAgo(days)
    else OnDate
  }

  /** The order of the buckets, from the most recent to the oldest. */
  function Rank(a: Age): nat {
    match a
    case JustNow => 0
    case MinutesAgo(_) => 1
    case HoursAgo(_) => 2
    case DaysAgo(_) => 3
    case OnDate => 4
  }

  /** The count a relative bucket shows; 0 for the others. */
  function Count(a: Age): nat {
    match a
    case MinutesAgo(m) => m
    case HoursAgo(h) => h
    case DaysAgo(d) => d
    case _ => 0
  }

  /** An older timestamp never looks more recent: it falls in the same or a later
      bucket, and within the same bucket it shows at least as large a count. */
  lemma OlderNeverLooksNewer(older: int, newer: int, now: int)
    requires older <= newer
    ensures Rank(AgeOf(older, now)) >= Rank(AgeOf(newer, now))
    ensures Rank(AgeOf(older, now)) == Rank(AgeOf(newer, now))
      ==> Count(AgeOf(older, now)) >= Count(AgeOf(newer, now))
  {
  }

  /** The text of a bucket other than `OnDate`: "Just now", "Nm ago", "Nh ago" or "Nd ago". */
  function RelativeLabel(a: Age): (text: string)
    requires !a.OnDate?
    ensures a.JustNow? <==> text == "Just now"
    ensures !a.JustNow? ==> SessionTitle.StartsWith(text, Decimal.NatToString(Count(a)))
  {
    match a
    case JustNow => "Just now"
    case MinutesAgo(m) => WithUnit(m, "m ago")
    case HoursAgo(h) => WithUnit(h, "h ago")
    case DaysAgo(d) => WithUnit(d, "d ago")
  }

  /** A count and a unit suffix ending in "ago", which "Just now" does not. */
  function WithUnit(n: nat, unit: string): (text: string)
    requires |unit| == 5 && unit[4] == 'o'
    ensures text != "Just now"
    ensures SessionTitle.StartsWith(text, Decimal.NatToString(n))
    ensures |text| == |Decimal.NatToString(n)| + 5
    ensures text[..|text| - 5] == Decimal.NatToString(n) && text[|text| - 5..] == unit
  {
    var text := Decimal.NatToString(n) + unit;
    assert text[|text| - 1] == 'o';
    text
  }

  /** `formatDate`: the relative text of the age, or the locale's rendering of the
      date (`toLocaleDateString`, given as `localeDate`) for an age of a week or more. */
  function FormatDate(timestamp: int, now: int, localeDate: string): (text: string)
    ensures AgeOf(timestamp, now).OnDate? ==> text == localeDate
    ensures !AgeOf(timestamp, now).OnDate? ==> ParseAge(text) == Some(AgeOf(timestamp, now))
    ensures !AgeOf(timestamp, now).OnDate? && !AgeOf(timestamp, now).JustNow?
      ==> SessionTitle.StartsWith(text, Decimal.NatToString(Count(AgeOf(timestamp, now))))
  {
    var a := AgeOf(timestamp, now);
    if a.OnDate? then localeDate
    else
      ParseRelativeLabel(a);
      RelativeLabel(a)
  }

  /** Reads a relative text back: "Just now", or a decimal count without leading
      zeros followed by one of the unit suffixes. */
  function ParseAge(text: string): Option<Age> {
    if text == "Just now" then Some(JustNow)
    else if |text| <= 5 then None
    else
      var digits, unit := text[..|text| - 5], text[|text| - 5..];
      if !Decimal.IsCanonical(digits) then None
      else if unit == "m ago" then Some(MinutesAgo(Decimal.DigitsValue(digits)))
      else if unit == "h ago" then Some(HoursAgo(Decimal.DigitsValue(digits)))
      else if unit == "d ago" then Some(DaysAgo(Decimal.DigitsValue(digits)))
      else None
  }

  /** Every relative text reads back as the age it describes. */
  lemma ParseRelativeLabel(a: Age)
    requires !a.OnDate?
    ensures ParseAge(RelativeLabel(a)) == Some(a)
  {
    if !a.JustNow? {
      var digits := Decimal.NatToString(Count(a));
      var text := RelativeLabel(a);
      assert text[|text| - 1] == 'o';
      assert text[..|text| - 5] == digits;
      Decimal.NatToStringRoundTrip(Count(a));
    }
  }

  /** The only text that reads back as an age is the one `formatDate` writes for it,
      so a `ParseAge` result in a contract pins the text down. */
  lemma ParseAgeIsExact(text: string, a: Age)
    requires ParseAge(text) == Some(a)
    ensures !a.OnDate? && text == RelativeLabel(a)
  {
    if text != "Just now" {
      var digits := text[..|text| - 5];
      Decimal.CanonicalRoundTrip(digits);
      assert text == digits + text[|text| - 5..];
    }
  }

  /** Different recent ages are never shown with the same text. */
  lemma RelativeLabelsDistinct(a: Age, b: Age)
    requires !a.OnDate? && !b.OnDate? && a != b
    ensures RelativeLabel(a) != RelativeLabel(b)
  {
    ParseRelativeLabel(a);
    ParseRelativeLabel(b);
  }

  /** The minute boundaries, one millisecond either side. */
  lemma MinuteEdges(now: int)
    ensures FormatDate(now - 59_999, now, "") == "Just now"
    ensures FormatDate(now - 60_000, now, "") == "1m ago"
    ensures FormatDate(now - 3_599_999, now, "") == "59m ago"
  {
    assert Decimal.NatToString(59) == "59";
  }

  /** The hour, day and week boundaries. */
  lemma HourDayWeekEdges(now: int)
    ensures FormatDate(now - 3_600_000, now, "") == "1h ago"
    ensures FormatDate(now - 86_400_000, now, "") == "1d ago"
    ensures FormatDate(now - 604_799_999, now, "") == "6d ago"
    ensures FormatDate(now - 604_800_000, now, "a date") == "a date"
  {
  }

  /** The cap the heading writes out: " (Max 5)". */
  function MaxSessionsNote(): string {
    " (Max " + Decimal.NatToString(SessionTypes.MAX_SESSIONS) + ")"
  }

  /** The quota a card writes after the prompt count: "/15 prompts". */
  function PromptLimitNote(): string {
    "/" + Decimal.NatToString(SessionTypes.MAX_PROMPTS_PER_WINDOW) + " prompts"
  }

  /** The limits the screen writes out are the store's cap and the limiter's quota. */
  lemma ShownLimitsMatchConstants()
    ensures MaxSessionsNote() == " (Max 5)"
    ensures PromptLimitNote() == "/15 prompts"
  {
    assert Decimal.NatToString(SessionTypes.MAX_PROMPTS_PER_WINDOW) == "15";
  }

  /** The heading over the list: "N Session (Max 5)" or "N Sessions (Max 5)". */
  function SessionCountLabel(n: nat): (text: string)
    ensures Decimal.LeadingCount(text) == n
    ensures |Decimal.NatToString(n)| < |text|
    ensures text[..|Decimal.NatToString(n)|] == Decimal.NatToString(n)
    ensures text[|Decimal.NatToString(n)|..]
      == if n == 1 then " Session (Max 5)" else " Sessions (Max 5)"
    ensures SessionTitle.EndsWith(text, " (Max 5)")
    ensures SessionTitle.EndsWith(text, "Session (Max 5)") <==> n == 1
  {
    var tail := if n == 1 then " Session (Max 5)" else " Sessions (Max 5)";
    var text := Decimal.CountThen(n, tail);
    var k := |Decimal.NatToString(n)|;
    SessionTitle.SuffixThroughTail(text, k, tail, " (Max 5)");
    SessionTitle.SuffixThroughTail(text, k, tail, "Session (Max 5)");
    SessionTails();
    text
  }

  /** The two tails of the heading differ where the singular one ends. */
  lemma SessionTails()
    ensures SessionTitle.EndsWith(" Session (Max 5)", "Session (Max 5)")
    ensures !SessionTitle.EndsWith(" Sessions (Max 5)", "Session (Max 5)")
    ensures SessionTitle.EndsWith(" Session (Max 5)", " (Max 5)")
    ensures SessionTitle.EndsWith(" Sessions (Max 5)", " (Max 5)")
  {
    var t := " Sessions (Max 5)";
    assert t[|t| - 15] == 'e';
  }

  /** A session card's message count: "1 message" or "N messages". */
  function MessageCountLabel(n: nat): (text: string)
    ensures Decimal.LeadingCount(text) == n
    ensures |Decimal.NatToString(n)| < |text|
    ensures text[..|Decimal.NatToString(n)|] == Decimal.NatToString(n)
    ensures text[|Decimal.NatToString(n)|..] == if n == 1 then " message" else " messages"
    ensures SessionTitle.EndsWith(text, " message") <==> n == 1
    ensures SessionTitle.EndsWith(text, " messages") <==> n != 1
  {
    var tail := if n == 1 then " message" else " messages";
    var text := Decimal.CountThen(n, tail);
    var k := |Decimal.NatToString(n)|;
    SessionTitle.SuffixThroughTail(text, k, tail, " message");
    MessageTails();
    if n == 1 then
      assert text[|text| - 1] == tail[|tail| - 1];
      text
    else
      SessionTitle.SuffixThroughTail(text, k, tail, " messages");
      text
  }

  /** The singular tail does not end in the plural, nor the plural in the singular. */
  lemma MessageTails()
    ensures SessionTitle.EndsWith(" message", " message")
    ensures !SessionTitle.EndsWith(" messages", " message")
    ensures SessionTitle.EndsWith(" messages", " messages")
    ensures " message"[|" message"| - 1] != 's'
  {
    var t := " messages";
    assert t[|t| - 1] == 's';
  }

  /** A session card's prompt usage: "N/15 prompts". */
  function PromptCountLabel(promptCount: nat): (text: string)
    ensures Decimal.LeadingCount(text) == promptCount
    ensures |Decimal.NatToString(promptCount)| < |text|
    ensures text[..|Decimal.NatToString(promptCount)|] == Decimal.NatToString(promptCount)
    ensures text[|Decimal.NatToString(promptCount)|..] == "/15 prompts"
    ensures SessionTitle.EndsWith(text, "/15 prompts")
  {
    var tail := "/15 prompts";
    var text := Decimal.CountThen(promptCount, tail);
    SessionTitle.SuffixThroughTail(text, |Decimal.NatToString(promptCount)|, tail, tail);
    text
  }

  /** The cap in the heading is the store's `MAX_SESSIONS`: the heading ends with it. */
  lemma HeadingShowsSessionCap(n: nat)
    ensures SessionTitle.EndsWith(SessionCountLabel(n), MaxSessionsNote())
    ensures SessionCountLabel(n)[|Decimal.NatToString(n)|..]
      == (if n == 1 then " Session" else " Sessions") + MaxSessionsNote()
  {
    ShownLimitsMatchConstants();
  }

  /** The quota on a card is the limiter's `MAX_PROMPTS_PER_WINDOW`: the prompt count is
      followed by exactly it. */
  lemma CardShowsPromptQuota(promptCount: nat)
    ensures PromptCountLabel(promptCount)[|Decimal.NatToString(promptCount)|..]
      == PromptLimitNote()
    ensures SessionTitle.EndsWith(PromptCountLabel(promptCount), PromptLimitNote())
  {
    ShownLimitsMatchConstants();
  }
}
