/**
 * The arithmetic and formatting slice of the date helpers. A `Date` is
 * represented by the fields its getters would return (or by its time value
 * in milliseconds together with its weekday); reading the clock and the
 * host calendar is outside the model.
 */
module DateUtils {
  import opened Wrappers
  import opened Seqs
  import opened Chars
  import opened Decimal
  import opened JsValue

  // ---------------------------------------------------------------------
  // secondsInDays

  /** `secondsInDays(days)`, built from minutes, hours and days. */
  function SecondsInDays(days: int): (s: int)
    ensures s == 86400 * days
  {
    var secondsInMinute := 60;
    var secondsInHour := 60 * secondsInMinute;
    var secondsInDay := 24 * secondsInHour;
    days * secondsInDay
  }

  /** The conversion is additive: the seconds of a + b days are those of a days plus those of b days. */
  lemma SecondsInDaysAdditive(a: int, b: int)
    ensures SecondsInDays(a + b) == SecondsInDays(a) + SecondsInDays(b)
    ensures SecondsInDays(1) == 24 * 60 * 60
    ensures SecondsInDays(0) == 0
  {
  }

  // ---------------------------------------------------------------------
  // timeAgo

  /** The units tried, largest first, with their length in seconds. */
  const Units: seq<(int, string)> := [
    (31536000, "years"), (2592000, "months"), (86400, "days"), (3600, "hours"), (60, "minutes")
  ]

  predicate PositiveUnits(units: seq<(int, string)>) {
    forall k :: 0 <= k < |units| ==> units[k].0 > 0
  }

  /**
   * The first unit whose floored count exceeds 1, with that count. A
   * positive divisor makes Dafny's `/` the floor division of `Math.floor`.
   */
  function Bucket(seconds: int, units: seq<(int, string)>): (r: Option<(int, string)>)
    requires PositiveUnits(units)
    ensures r.None? <==> forall k :: 0 <= k < |units| ==> seconds / units[k].0 <= 1
    ensures r.Some? ==> r.value.0 > 1
    decreases |units|
  {
    if units == [] then None
    else if seconds / units[0].0 > 1 then Some((seconds / units[0].0, units[0].1))
    else
      var r := Bucket(seconds, units[1..]);
      assert forall k :: 1 <= k < |units| ==> units[k] == units[1..][k - 1];
      r
  }

  /** The unit picked is the first one whose count exceeds 1. */
  lemma {:induction false} BucketPicks(seconds: int, units: seq<(int, string)>, k: nat)
    requires PositiveUnits(units) && k < |units|
    requires seconds / units[k].0 > 1
    requires forall j :: 0 <= j < k ==> seconds / units[j].0 <= 1
    ensures Bucket(seconds, units) == Some((seconds / units[k].0, units[k].1))
    decreases k
  {
    if k > 0 {
      assert PositiveUnits(units[1..]) by {
        forall j | 0 <= j < |units[1..]| ensures units[1..][j].0 > 0 { assert units[1..][j] == units[j + 1]; }
      }
      forall j | 0 <= j < k - 1 ensures seconds / units[1..][j].0 <= 1 { assert units[1..][j] == units[j + 1]; }
      BucketPicks(seconds, units[1..], k - 1);
    }
  }

  /** The template `${n} <unit> ago`. */
  function Phrase(n: int, unit: string): string {
    IntToString(n) + " " + unit + " ago"
  }

  /** The text `timeAgo` produces for an elapsed time in seconds. */
  function TimeAgoText(seconds: int): string {
    match Bucket(seconds, Units)
    case Some((n, name)) => Phrase(n, name)
    case None => if seconds < 10 then "just now" else Phrase(seconds, "seconds")
  }

  /** `timeAgo`, given the floored number of seconds elapsed: the cascade of reassignments of `interval`. */
  method TimeAgo(seconds: int) returns (text: string)
    ensures text == TimeAgoText(seconds)
  {
    var interval := seconds / 31536000;
    if interval > 1 {
      BucketPicks(seconds, Units, 0);
      return Phrase(interval, "years");
    }
    interval := seconds / 2592000;
    if interval > 1 {
      BucketPicks(seconds, Units, 1);
      return Phrase(interval, "months");
    }
    interval := seconds / 86400;
    if interval > 1 {
      BucketPicks(seconds, Units, 2);
      return Phrase(interval, "days");
    }
    interval := seconds / 3600;
    if interval > 1 {
      BucketPicks(seconds, Units, 3);
      return Phrase(interval, "hours");
    }
    interval := seconds / 60;
    if interval > 1 {
      BucketPicks(seconds, Units, 4);
      return Phrase(interval, "minutes");
    }
    NoUnit(seconds);
    if seconds < 10 {
      return "just now";
    }
    return Phrase(seconds, "seconds");
  }

  /** No unit is picked when no count exceeds 1. */
  lemma NoUnit(seconds: int)
    requires seconds / 31536000 <= 1 && seconds / 2592000 <= 1 && seconds / 86400 <= 1
    requires seconds / 3600 <= 1 && seconds / 60 <= 1
    ensures Bucket(seconds, Units).None?
  {
  }

  /** Below two minutes no unit is picked. */
  lemma NoUnitBelowTwoMinutes(seconds: int)
    requires seconds < 120
    ensures Bucket(seconds, Units).None?
  {
  }

  /** The answer is "just now" exactly when fewer than ten seconds have passed, negative times included. */
  lemma JustNowIff(seconds: int)
    ensures TimeAgoText(seconds) == "just now" <==> seconds < 10
  {
    var t := TimeAgoText(seconds);
    if seconds < 10 {
      NoUnitBelowTwoMinutes(seconds);
    } else {
      assert t[|t| - 1] == 'o';
      assert "just now"[7] == 'w';
    }
  }

  /** Between ten seconds and two minutes the seconds are reported. */
  lemma SecondsReported(seconds: int)
    requires 10 <= seconds < 120
    ensures TimeAgoText(seconds) == NatToString(seconds) + " seconds ago"
  {
    NoUnitBelowTwoMinutes(seconds);
    assert TimeAgoText(seconds) == Phrase(seconds, "seconds");
    PhraseText(NatToString(seconds), "seconds");
  }

  /** The template's separators, written out once. */
  lemma PhraseText(n: string, unit: string)
    requires unit == "seconds"
    ensures n + " " + unit + " ago" == n + " seconds ago"
  {
    assert " " + unit + " ago" == " seconds ago";
  }

  /** A minute count of exactly one falls through: 90 s reads "90 seconds ago". */
  lemma NinetySeconds()
    ensures TimeAgoText(90) == "90 seconds ago"
  {
    SecondsReported(90);
    assert NatToString(90) == "90" by {
      assert NatToString(9) == "9";
    }
  }

  /** A count of exactly one falls through: one year (365 days) is reported as "12 months ago". */
  lemma OneYearIsTwelveMonths()
    ensures TimeAgoText(31536000) == "12 months ago"
  {
    BucketPicks(31536000, Units, 1);
    assert NatToString(12) == "12";
  }

  /** Each unit is reported with its floored count when it is the largest whose count exceeds 1. */
  lemma LargestUnitWins(seconds: int, k: nat)
    requires k < |Units|
    requires seconds / Units[k].0 > 1
    requires forall j :: 0 <= j < k ==> seconds / Units[j].0 <= 1
    ensures TimeAgoText(seconds) == IntToString(seconds / Units[k].0) + " " + Units[k].1 + " ago"
  {
    BucketPicks(seconds, Units, k);
  }

  // ---------------------------------------------------------------------
  // dateTimeToCron and the parse in cronToDateTime

  /** The UTC fields `dateTimeToCron` reads; `month` is 0-based. */
  datatype UtcFields = UtcFields(minutes: nat, hours: nat, date: nat, month: nat, weekday: nat)

  /** `dateTimeToCron(date)`: minute, hour, day, 1-based month and weekday, separated by spaces. */
  function DateTimeToCron(f: UtcFields): (cron: string)
    ensures Split(cron, SpaceSep()) ==
      [NatToString(f.minutes), NatToString(f.hours), NatToString(f.date),
       NatToString(f.month + 1), NatToString(f.weekday)]
  {
    var cron := NatToString(f.minutes) + " " + NatToString(f.hours) + " " + NatToString(f.date) + " " +
      NatToString(f.month + 1) + " " + NatToString(f.weekday);
    CronSplit(f);
    cron
  }

  function SpaceSep(): char -> bool { c => c == ' ' }

  /** Decimal text contains no space. */
  lemma DigitsNoSpace(n: nat)
    ensures Split(NatToString(n), SpaceSep()) == [NatToString(n)]
  {
    var s := NatToString(n);
    forall c | c in s ensures !SpaceSep()(c) {
      var i :| 0 <= i < |s| && s[i] == c;
      assert IsDigit(s[i]);
    }
    SplitNoSep(s, SpaceSep());
  }

  lemma CronSplit(f: UtcFields)
    ensures Split(NatToString(f.minutes) + " " + NatToString(f.hours) + " " + NatToString(f.date) + " " +
      NatToString(f.month + 1) + " " + NatToString(f.weekday), SpaceSep()) ==
      [NatToString(f.minutes), NatToString(f.hours), NatToString(f.date),
       NatToString(f.month + 1), NatToString(f.weekday)]
  {
    var a, b, c, d, e := NatToString(f.minutes), NatToString(f.hours), NatToString(f.date),
      NatToString(f.month + 1), NatToString(f.weekday);
    DigitsNoSpace(f.minutes); DigitsNoSpace(f.hours); DigitsNoSpace(f.date);
    DigitsNoSpace(f.month + 1); DigitsNoSpace(f.weekday);
    var sp := SpaceSep();
    assert " " == [' '];
    var ab := a + " " + b;
    SplitAtSep(a, ' ', b, sp);
    assert Split(ab, sp) == [a, b];
    var abc := ab + " " + c;
    SplitAtSep(ab, ' ', c, sp);
    assert Split(abc, sp) == [a, b, c];
    var abcd := abc + " " + d;
    SplitAtSep(abc, ' ', d, sp);
    assert Split(abcd, sp) == [a, b, c, d];
    SplitAtSep(abcd, ' ', e, sp);
  }

  /** The numbers `cronToDateTime` passes on: 0-based month, day (`*` reads as 1), hours, minutes and weekday. */
  datatype CronArgs = CronArgs(month: int, day: int, hours: int, minutes: int, weekday: int)

  /** `Number` of the i-th field of the split, NaN (`None`) when the field is missing. */
  function Field(fields: seq<string>, i: nat): Option<int> {
    if i < |fields| then StringToNumber(fields[i]) else None
  }

  /** The parse at the start of `cronToDateTime`; `None` when any number is NaN. */
  function CronArguments(cron: string): (a: Option<CronArgs>)
    ensures a.Some? ==> |Split(cron, SpaceSep())| >= 5
  {
    FieldArguments(Split(cron, SpaceSep()))
  }

  /** `Number` of each of the five split fields, in the order `Date.UTC` takes them. */
  function FieldArguments(fields: seq<string>): (a: Option<CronArgs>)
    ensures a.Some? ==> |fields| >= 5
  {
    var days := if 2 < |fields| && fields[2] == "*" then Some(1) else Field(fields, 2);
    ArgumentsOf(Field(fields, 0), Field(fields, 1), days, Field(fields, 3), Field(fields, 4))
  }

  /** The arguments once every field has been read; NaN in any of them gives `None`. */
  function ArgumentsOf(minutes: Option<int>, hours: Option<int>, days: Option<int>,
                       months: Option<int>, weekday: Option<int>): (a: Option<CronArgs>)
    ensures a.Some? <==> minutes.Some? && hours.Some? && days.Some? && months.Some? && weekday.Some?
  {
    if minutes.Some? && hours.Some? && days.Some? && months.Some? && weekday.Some? then
      Some(CronArgs(months.value - 1, days.value, hours.value, minutes.value, weekday.value))
    else None
  }

  /** Five fields read as numbers give the arguments in `Date.UTC` order, the month made 0-based. */
  lemma FieldsReadBack(fields: seq<string>, mi: int, h: int, d: int, mo: int, w: int)
    requires Field(fields, 0) == Some(mi) && Field(fields, 1) == Some(h)
    requires Field(fields, 2) == Some(d) && 2 < |fields| && fields[2] != "*"
    requires Field(fields, 3) == Some(mo) && Field(fields, 4) == Some(w)
    ensures FieldArguments(fields) == Some(CronArgs(mo - 1, d, h, mi, w))
  {
  }

  /** A field holding decimal text reads as its number, and is not `*`. */
  lemma FieldReadsBack(field: string, n: nat)
    requires field == NatToString(n)
    ensures StringToNumber(field) == Some(n)
    ensures field != "*"
  {
    ReadsBack(n);
    assert IsDigit(NatToString(n)[0]);
  }

  /** Reading back a cron string gives the fields it was made from, month included. */
  lemma CronRoundTrip(f: UtcFields)
    ensures CronArguments(DateTimeToCron(f)) ==
      Some(CronArgs(f.month, f.date, f.hours, f.minutes, f.weekday))
  {
    CronFieldsReadBack(Split(DateTimeToCron(f), SpaceSep()), f);
  }

  /** The five printed fields of a cron string read back as the numbers they print. */
  lemma CronFieldsReadBack(fields: seq<string>, f: UtcFields)
    requires fields == [NatToString(f.minutes), NatToString(f.hours), NatToString(f.date),
                        NatToString(f.month + 1), NatToString(f.weekday)]
    ensures FieldArguments(fields) == Some(CronArgs(f.month, f.date, f.hours, f.minutes, f.weekday))
  {
    FieldsAreNumbers(fields, f.minutes, f.hours, f.date, f.month + 1, f.weekday);
    FieldsReadBack(fields, f.minutes, f.hours, f.date, f.month + 1, f.weekday);
  }

  lemma FieldsAreNumbers(fields: seq<string>, mi: nat, h: nat, d: nat, mo: nat, w: nat)
    requires |fields| == 5 && fields[0] == NatToString(mi) && fields[1] == NatToString(h)
    requires fields[2] == NatToString(d) && fields[3] == NatToString(mo) && fields[4] == NatToString(w)
    ensures Field(fields, 0) == Some(mi) && Field(fields, 1) == Some(h)
    ensures Field(fields, 2) == Some(d) && 2 < |fields| && fields[2] != "*"
    ensures Field(fields, 3) == Some(mo) && Field(fields, 4) == Some(w)
  {
    FieldAt(fields, 0, mi);
    FieldAt(fields, 1, h);
    FieldAt(fields, 2, d);
    FieldAt(fields, 3, mo);
    FieldAt(fields, 4, w);
  }

  /** `Number` reads an exponent field too: a minutes field `1e1` is minute 10. */
  lemma ExponentMinutes(fields: seq<string>, h: nat, d: nat, mo: nat, w: nat)
    requires |fields| == 5 && fields[0] == "1e1" && fields[1] == NatToString(h)
    requires fields[2] == NatToString(d) && fields[3] == NatToString(mo) && fields[4] == NatToString(w)
    ensures FieldArguments(fields) == Some(CronArgs(mo - 1, d, h, 10, w))
  {
    ExponentLiteral();
    FieldAt(fields, 1, h);
    FieldAt(fields, 2, d);
    FieldAt(fields, 3, mo);
    FieldAt(fields, 4, w);
    FieldsReadBack(fields, 10, h, d, mo, w);
  }

  lemma FieldAt(fields: seq<string>, i: nat, n: nat)
    requires i < |fields| && fields[i] == NatToString(n)
    ensures Field(fields, i) == Some(n) && fields[i] != "*"
  {
    FieldReadsBack(fields[i], n);
  }

  /** `Number` reads decimal text back. */
  lemma ReadsBack(n: nat)
    ensures StringToNumber(NatToString(n)) == Some(n)
  {
    StringToNumberOfInt(n);
  }

  // ---------------------------------------------------------------------
  // formatDate

  /** The local fields `formatDate` reads; `month` is 0-based. */
  datatype DateFields = DateFields(year: int, month: nat, day: nat)

  /** `n.toString().padStart(2, '0')`. */
  function Pad2(n: nat): (s: string)
    ensures n < 100 ==> |s| == 2 && AllDigits(s) && ParseDigits(s) == n
    ensures n >= 10 ==> s == NatToString(n)
  {
    var t := NatToString(n);
    var s := if |t| >= 2 then t else "0" + t;
    ParseShow(n);
    if n < 10 then
      assert s[..1] == "0";
      assert ParseDigits(s[..1]) == ParseDigits([]) * 10 + DigitValue('0');
      s
    else
      PadWidth(n);
      s
  }

  /** Two-digit numbers print with two digits. */
  lemma PadWidth(n: nat)
    requires 10 <= n
    ensures |NatToString(n)| >= 2
    ensures n < 100 ==> |NatToString(n)| == 2
  {
  }

  /** `formatDate(date)`: undefined without a date, otherwise year, month and day joined by '-'. */
  function FormatDate(date: Option<DateFields>): (r: Option<string>)
    ensures date.None? <==> r.None?
  {
    match date
    case None => None
    case Some(d) => Some(IntToString(d.year) + "-" + Pad2(d.month + 1) + "-" + Pad2(d.day))
  }

  function DashSep(): char -> bool { c => c == '-' }

  /**
   * For a four-digit year the result is `YYYY-MM-DD`: ten characters, dashes
   * at positions 4 and 7, and the three parts read back as year, 1-based
   * month and day.
   */
  lemma FormatDateShape(d: DateFields)
    requires 1000 <= d.year <= 9999 && d.month < 12 && 1 <= d.day <= 31
    ensures var s := FormatDate(Some(d)).value;
      |s| == 10 && s[4] == '-' && s[7] == '-' &&
      AllDigits(s[..4]) && AllDigits(s[5..7]) && AllDigits(s[8..]) &&
      ParseDigits(s[..4]) == d.year && ParseDigits(s[5..7]) == d.month + 1 && ParseDigits(s[8..]) == d.day
  {
    var y := NatToString(d.year);
    ParseShow(d.year);
    YearWidth(d.year);
    var s := FormatDate(Some(d)).value;
    assert s == y + "-" + Pad2(d.month + 1) + "-" + Pad2(d.day);
    assert s[..4] == y;
    assert s[5..7] == Pad2(d.month + 1);
    assert s[8..] == Pad2(d.day);
  }

  /** Years 1000 to 9999 print with four digits. */
  lemma YearWidth(y: nat)
    requires 1000 <= y <= 9999
    ensures |NatToString(y)| == 4
  {
    var a := y / 10;
    var b := a / 10;
    var c := b / 10;
    assert 100 <= a <= 999 && 10 <= b <= 99 && 1 <= c <= 9;
    assert |NatToString(c)| == 1;
    assert |NatToString(b)| == |NatToString(c)| + 1;
    assert |NatToString(a)| == |NatToString(b)| + 1;
    assert |NatToString(y)| == |NatToString(a)| + 1;
  }

  // ---------------------------------------------------------------------
  // getWeekLastDay, getWeekFirstDay and isWeekday

  const DayMs: int := 86400000

  /** `getWeekLastDay`: the time value moved forward by (6 - weekday) days. */
  function WeekLastDay(ms: int, weekday: int): int {
    ms + (6 - weekday) * DayMs
  }

  /** `getWeekFirstDay`: the time value moved back by (weekday - 1) days. */
  function WeekFirstDay(ms: int, weekday: int): int {
    ms - (weekday - 1) * DayMs
  }

  /** `isWeekday`: `getDay() % 6 !== 0` (the weekday is never negative, so `%` agrees with JavaScript's). */
  predicate IsWeekday(weekday: int) {
    weekday % 6 != 0
  }

  /** The weekday of a time value in a time zone with a fixed offset (1 January 1970 was a Thursday). */
  function WeekdayAt(ms: int, offset: int): (w: int)
    ensures 0 <= w < 7
  {
    ((ms + offset) / DayMs + 4) % 7
  }

  /** The first and last day are five days apart; a Sunday (0) moves forward one day as a first day. */
  lemma WeekSpan(ms: int, weekday: int)
    ensures WeekLastDay(ms, weekday) - WeekFirstDay(ms, weekday) == 5 * DayMs
    ensures WeekFirstDay(ms, 0) == ms + DayMs
    ensures WeekLastDay(ms, 6) == ms && WeekFirstDay(ms, 1) == ms
  {
  }

  /** Moving by whole days moves the weekday by as many days. */
  lemma ShiftDays(ms: int, offset: int, k: int)
    ensures WeekdayAt(ms + k * DayMs, offset) == (WeekdayAt(ms, offset) + k) % 7
  {
    var q := (ms + offset) / DayMs;
    assert (ms + k * DayMs + offset) / DayMs == q + k;
    var w := (q + 4) % 7;
    assert (q + k + 4) % 7 == (w + k) % 7;
  }

  /** Given the weekday of its own date, the last day falls on a Saturday and the first day on a Monday. */
  lemma WeekEnds(ms: int, offset: int)
    ensures WeekdayAt(WeekLastDay(ms, WeekdayAt(ms, offset)), offset) == 6
    ensures WeekdayAt(WeekFirstDay(ms, WeekdayAt(ms, offset)), offset) == 1
  {
    var w := WeekdayAt(ms, offset);
    ShiftDays(ms, offset, 6 - w);
    ShiftDays(ms, offset, 1 - w);
    assert WeekFirstDay(ms, w) == ms + (1 - w) * DayMs;
  }

  /** Among the weekdays 0 (Sunday) to 6 (Saturday), exactly Monday to Friday are weekdays. */
  lemma WeekdayIff(weekday: int)
    requires 0 <= weekday <= 6
    ensures IsWeekday(weekday) <==> 1 <= weekday <= 5
  {
  }
}
