/** The opening-hours evaluator: given a reference instant and a weekly schedule
    such as "Mon-Fri 11:30 am - 9 pm / Sat 5 pm - 11 pm", how many milliseconds a
    restaurant stays open, or the closed sentinel -1.

    JavaScript's `undefined` (an unknown table key, a missing array element) and
    `NaN` (arithmetic on them, `parseInt` of a non-number) are `None`; every
    comparison against them is false, which is how the evaluator treats
    malformed tokens without ever throwing. */
module OpenRestaurants {
  import opened Wrappers
  import opened JsString

  // ---------------------------------------------------------------------------
  // Data
  // ---------------------------------------------------------------------------

  /** `DAYS_OF_WEEK`: day abbreviations to ordinals; the week starts on Sunday. */
  const DaysOfWeek: map<string, int> :=
    map["Sun" := 0, "Mon" := 1, "Tue" := 2, "Wed" := 3, "Thu" := 4, "Fri" := 5, "Sat" := 6]

  /** `AM_PM`: the half of the day each marker selects. */
  const AmPm: map<string, int> := map["am" := 0, "pm" := 1]

  /** The sentinel every evaluator returns for "not open". */
  const Closed: int := -1

  /** The reference instant, as the local-time getters of a JavaScript `Date`
      report it: `getDay`, `getHours`, `getMinutes`, `getSeconds`, `getMilliseconds`. */
  datatype Instant = Instant(weekday: int, hours: int, minutes: int, seconds: int, milliseconds: int)

  /** The ranges those getters return. */
  predicate ValidInstant(d: Instant)
  {
    0 <= d.weekday <= 6 && 0 <= d.hours <= 23 && 0 <= d.minutes <= 59 &&
    0 <= d.seconds <= 59 && 0 <= d.milliseconds <= 999
  }

  /** `openRestaurant`: a restaurant that is open, with the milliseconds until it closes. */
  datatype OpenRestaurant = OpenRestaurant(name: string, closeIn: int)

  /** The one error of a scan: a line without the `","` delimiter, on which
      `openTimes.trim()` throws because `openTimes` is undefined. */
  datatype ScanError = MalformedRecord(line: string)

  /** Property lookup on one of the tables, `undefined` for any other key.
      (Keys inherited from `Object.prototype` yield functions, which compare and
      multiply like `NaN`, so they behave as `undefined` here too.) */
  function Lookup(table: map<string, int>, key: string): (r: Option<int>)
    ensures r.Some? <==> key in table
    ensures r.Some? ==> r.value == table[key]
  {
    if key in table then Some(table[key]) else None
  }

  /** JavaScript `+`, with `None` as `NaN`. */
  function AddNum(a: Option<int>, b: Option<int>): Option<int>
  {
    if a.Some? && b.Some? then Some(a.value + b.value) else None
  }

  /** JavaScript `*` by a constant, with `None` as `NaN`. */
  function MulNum(a: Option<int>, k: int): Option<int>
  {
    if a.Some? then Some(a.value * k) else None
  }

  // ---------------------------------------------------------------------------
  // parseHoursAndMins
  // ---------------------------------------------------------------------------

  /** `parseHoursAndMins(time, am_pm)`: minutes since midnight of an `h[:m]`
      token and a marker, `NaN` when the marker or a number does not parse. */
  function ParseHoursAndMins(time: string, amPm: string): (minutes: Option<int>)
    ensures amPm !in AmPm ==> minutes == None
  {
    HoursAndMins(Split(time, ":"), amPm)
  }

  /** The arithmetic of `parseHoursAndMins` on the `:`-separated parts of the
      token: start from 720 minutes per `AM_PM` step, then add the hours and the
      minutes. */
  function HoursAndMins(parts: seq<string>, amPm: string): (minutes: Option<int>)
    requires |parts| >= 1
    ensures amPm !in AmPm ==> minutes == None
  {
    var parsedTime := MulNum(Lookup(AmPm, amPm), 60 * 12);
    AddMins(AddHours(parsedTime, parts[0]), if |parts| > 1 then Some(parts[1]) else None)
  }

  /** Sixty minutes per hour, unless the hour token is empty or "12". */
  function AddHours(parsedTime: Option<int>, hours: string): Option<int>
  {
    if hours != "" && hours != "12" then AddNum(parsedTime, MulNum(ParseInt(hours), 60)) else parsedTime
  }

  /** The minutes, unless absent or empty. */
  function AddMins(parsedTime: Option<int>, mins: Option<string>): Option<int>
  {
    if mins.Some? && mins.value != "" then AddNum(parsedTime, ParseInt(mins.value)) else parsedTime
  }

  /** The `h` or `h:m` time token. */
  function TimeToken(hours: string, mins: Option<string>): string
  {
    if mins.Some? then hours + ":" + mins.value else hours
  }

  lemma DecimalHasNoColon(s: string)
    requires IsDecimal(s)
    ensures ':' !in s
  {
  }

  /** The time formula: 720 minutes for "pm", sixty per hour unless the hour
      token is literally "12" (so 12 am is midnight and 12 pm is noon), plus the
      minutes, which count 0 when absent. */
  lemma TimeFormula(hours: string, mins: Option<string>, amPm: string)
    requires IsDecimal(hours) && (mins.Some? ==> IsDecimal(mins.value)) && amPm in AmPm
    ensures ParseHoursAndMins(TimeToken(hours, mins), amPm) ==
      Some(720 * AmPm[amPm] + (if hours != "12" then DecimalValue(hours) * 60 else 0) +
           (if mins.Some? then DecimalValue(mins.value) else 0))
  {
    DecimalHasNoColon(hours);
    if mins.Some? {
      DecimalHasNoColon(mins.value);
      SplitAfterPrefix(hours, ":", mins.value);
      SplitWithoutSeparator(mins.value, ":");
    } else {
      SplitWithoutSeparator(hours, ":");
    }
    PartsFormula(hours, mins, amPm);
  }

  /** The time formula for any hour and minute tokens that `parseInt` reads as
      numbers, such as "\t9", "+9" or "0x1e": an empty hour token or "12"
      adds no hours, an absent or empty minute token adds no minutes. */
  lemma ParsedTimeFormula(hours: string, mins: Option<string>, amPm: string)
    requires ':' !in hours && amPm in AmPm
    requires hours == "" || hours == "12" || ParseInt(hours).Some?
    requires mins.Some? ==> ':' !in mins.value && (mins.value == "" || ParseInt(mins.value).Some?)
    ensures ParseHoursAndMins(TimeToken(hours, mins), amPm) ==
      Some(720 * AmPm[amPm] + (if hours != "" && hours != "12" then ParseInt(hours).value * 60 else 0) +
           (if mins.Some? && mins.value != "" then ParseInt(mins.value).value else 0))
  {
    if mins.Some? {
      SplitAfterPrefix(hours, ":", mins.value);
      SplitWithoutSeparator(mins.value, ":");
    } else {
      SplitWithoutSeparator(hours, ":");
    }
    ParsedParts(hours, mins, amPm);
  }

  lemma ParsedParts(hours: string, mins: Option<string>, amPm: string)
    requires amPm in AmPm
    requires hours == "" || hours == "12" || ParseInt(hours).Some?
    requires mins.Some? ==> mins.value == "" || ParseInt(mins.value).Some?
    ensures HoursAndMins(if mins.Some? then [hours, mins.value] else [hours], amPm) ==
      Some(720 * AmPm[amPm] + (if hours != "" && hours != "12" then ParseInt(hours).value * 60 else 0) +
           (if mins.Some? && mins.value != "" then ParseInt(mins.value).value else 0))
  {
    var parsedTime := MulNum(Lookup(AmPm, amPm), 60 * 12);
    assert parsedTime == Some(720 * AmPm[amPm]);
    var withHours := AddHours(parsedTime, hours);
    assert withHours == Some(720 * AmPm[amPm] + if hours != "" && hours != "12" then ParseInt(hours).value * 60 else 0);
  }

  lemma PartsFormula(hours: string, mins: Option<string>, amPm: string)
    requires IsDecimal(hours) && (mins.Some? ==> IsDecimal(mins.value)) && amPm in AmPm
    ensures HoursAndMins(if mins.Some? then [hours, mins.value] else [hours], amPm) ==
      Some(720 * AmPm[amPm] + (if hours != "12" then DecimalValue(hours) * 60 else 0) +
           (if mins.Some? then DecimalValue(mins.value) else 0))
  {
    if mins.Some? {
      HoursAndMinutesParts(hours, mins.value, amPm);
    } else {
      HoursPart(hours, amPm);
    }
  }

  lemma HoursAndMinutesParts(hours: string, mins: string, amPm: string)
    requires IsDecimal(hours) && IsDecimal(mins) && amPm in AmPm
    ensures HoursAndMins([hours, mins], amPm) ==
      Some(720 * AmPm[amPm] + (if hours != "12" then DecimalValue(hours) * 60 else 0) + DecimalValue(mins))
  {
    var withHours := 720 * AmPm[amPm] + if hours != "12" then DecimalValue(hours) * 60 else 0;
    HoursPart(hours, amPm);
    AddDecimalMins(withHours, mins);
    assert HoursAndMins([hours, mins], amPm) == AddMins(Some(withHours), Some(mins));
  }

  lemma HoursPart(hours: string, amPm: string)
    requires IsDecimal(hours) && amPm in AmPm
    ensures AddHours(MulNum(Lookup(AmPm, amPm), 60 * 12), hours) ==
      Some(720 * AmPm[amPm] + if hours != "12" then DecimalValue(hours) * 60 else 0)
  {
    var parsedTime := 720 * AmPm[amPm];
    assert MulNum(Lookup(AmPm, amPm), 60 * 12) == Some(parsedTime);
    AddDecimalHours(parsedTime, hours);
  }

  lemma AddDecimalHours(parsedTime: int, hours: string)
    requires IsDecimal(hours)
    ensures AddHours(Some(parsedTime), hours) == Some(parsedTime + if hours != "12" then DecimalValue(hours) * 60 else 0)
  {
    ParseIntDecimal(hours);
  }

  lemma AddDecimalMins(parsedTime: int, mins: string)
    requires IsDecimal(mins)
    ensures AddMins(Some(parsedTime), Some(mins)) == Some(parsedTime + DecimalValue(mins))
  {
    ParseIntDecimal(mins);
  }

  /** On a 12-hour clock reading (hour 1 to 12 without leading zero issues,
      minutes 0 to 59) the result is a minute of the day. */
  lemma TwelveHourClockInDay(hours: string, mins: Option<string>, amPm: string)
    requires IsDecimal(hours) && (mins.Some? ==> IsDecimal(mins.value)) && amPm in AmPm
    requires hours == "12" || 1 <= DecimalValue(hours) <= 11
    requires mins.Some? ==> DecimalValue(mins.value) <= 59
    ensures var m := ParseHoursAndMins(TimeToken(hours, mins), amPm); m.Some? && 0 <= m.value < 24 * 60
  {
    TimeFormula(hours, mins, amPm);
  }

  // ---------------------------------------------------------------------------
  // isOpenOnDay
  // ---------------------------------------------------------------------------

  /** `isOpenOnDay(day, startDay, endDay)`. A missing or empty end day means a
      single day. For a range, an end ordinal not above the start ordinal is
      shifted by 7, but the weekday itself never is. */
  function IsOpenOnDay(day: Instant, startDay: string, endDay: Option<string>): (open: bool)
    ensures open ==> startDay in DaysOfWeek
  {
    if endDay.None? || |endDay.value| < 1 then
      Lookup(DaysOfWeek, startDay) == Some(day.weekday)
    else
      var startNum := Lookup(DaysOfWeek, startDay);
      var endNum := Lookup(DaysOfWeek, endDay.value);
      if startNum.None? || endNum.None? then false  // comparisons against undefined
      else
        var end := if endNum.value <= startNum.value then endNum.value + 7 else endNum.value;
        startNum.value <= day.weekday && day.weekday <= end
  }

  /** A single day matches exactly its own weekday. */
  lemma SingleDay(day: Instant, startDay: string, endDay: Option<string>)
    requires endDay == None || endDay == Some("")
    ensures IsOpenOnDay(day, startDay, endDay) <==> startDay in DaysOfWeek && day.weekday == DaysOfWeek[startDay]
  {
  }

  /** A forward range matches the weekdays from its start to its end; a range
      whose end is not after its start matches every weekday from the start on,
      and none before it. */
  lemma DayRange(day: Instant, startDay: string, endDay: string)
    requires ValidInstant(day)
    requires startDay in DaysOfWeek && endDay in DaysOfWeek
    ensures DaysOfWeek[endDay] > DaysOfWeek[startDay] ==>
      (IsOpenOnDay(day, startDay, Some(endDay)) <==> DaysOfWeek[startDay] <= day.weekday <= DaysOfWeek[endDay])
    ensures DaysOfWeek[endDay] <= DaysOfWeek[startDay] ==>
      (IsOpenOnDay(day, startDay, Some(endDay)) <==> DaysOfWeek[startDay] <= day.weekday)
  {
    assert |endDay| == 3;
  }

  /** An unknown day name never matches. */
  lemma UnknownDay(day: Instant, startDay: string, endDay: Option<string>)
    requires startDay !in DaysOfWeek || (endDay.Some? && endDay.value != "" && endDay.value !in DaysOfWeek)
    ensures !IsOpenOnDay(day, startDay, endDay)
  {
  }

  /** Because the weekday is not shifted, a range that wraps over the end of the
      week misses the days after the wrap: "Mon-Sun" never matches a Sunday and
      "Fri-Mon" never matches a Sunday or a Monday. */
  lemma WrappedRangeMissesWrappedDays(day: Instant, startDay: string, endDay: string)
    requires ValidInstant(day)
    requires startDay in DaysOfWeek && endDay in DaysOfWeek
    requires DaysOfWeek[endDay] <= DaysOfWeek[startDay] && day.weekday < DaysOfWeek[startDay]
    ensures !IsOpenOnDay(day, startDay, Some(endDay))
  {
    DayRange(day, startDay, endDay);
  }

  // ---------------------------------------------------------------------------
  // openForHelper: the day clause
  // ---------------------------------------------------------------------------

  /** The callback of the day `reduce` for one day token: drop its first comma,
      split it on "-" into a start day and an optional end day. */
  function DayTokenMatches(day: Instant, token: string): (open: bool)
    ensures ',' !in token && '-' !in token ==> (open <==> Lookup(DaysOfWeek, token) == Some(day.weekday))
  {
    assert ',' !in token && '-' !in token ==> Split(token, "-") == [token] by {
      if ',' !in token && '-' !in token { SplitWithoutSeparator(token, "-"); }
    }
    var parts := Split(RemoveFirst(token, ','), "-");
    IsOpenOnDay(day, parts[0], if |parts| > 1 then Some(parts[1]) else None)
  }

  /** `days.reduce((prev, day) => prev || ..., prev)`. */
  function DaysFold(day: Instant, days: seq<string>, prev: bool): (open: bool)
    ensures prev ==> open
  {
    if |days| == 0 then prev else DaysFold(day, days[1..], prev || DayTokenMatches(day, days[0]))
  }

  /** The day clause holds iff some day token matches. */
  lemma {:induction false} DaysFoldAny(day: Instant, days: seq<string>, prev: bool)
    ensures DaysFold(day, days, prev) <==> prev || exists i :: 0 <= i < |days| && DayTokenMatches(day, days[i])
  {
    if |days| > 0 {
      DaysFoldAny(day, days[1..], prev || DayTokenMatches(day, days[0]));
      if exists i :: 0 <= i < |days| && DayTokenMatches(day, days[i]) {
        var i :| 0 <= i < |days| && DayTokenMatches(day, days[i]);
        if i > 0 {
          assert days[1..][i - 1] == days[i];
        }
      }
      if exists i :: 0 <= i < |days[1..]| && DayTokenMatches(day, days[1..][i]) {
        var i :| 0 <= i < |days[1..]| && DayTokenMatches(day, days[1..][i]);
        assert days[i + 1] == days[1..][i];
      }
    }
  }

  /** Removing the first comma of a day name followed by one comma gives the name. */
  lemma RemoveTrailingComma(d: string)
    requires ',' !in d
    ensures RemoveFirst(d + ",", ',') == d
  {
    var s := d + ",";
    var i :| 0 <= i < |s| && s[i] == ',' && ',' !in s[..i] && RemoveFirst(s, ',') == s[..i] + s[i + 1..];
    assert s[..|d|] == d;
  }

  /** The single-day token forms of the grammar: "Mon" and "Mon," name one day. */
  lemma DayNameToken(day: Instant, d: string)
    requires ',' !in d && '-' !in d
    ensures DayTokenMatches(day, d) == IsOpenOnDay(day, d, None)
    ensures DayTokenMatches(day, d + ",") == IsOpenOnDay(day, d, None)
  {
    SplitWithoutSeparator(d, "-");
    RemoveTrailingComma(d);
  }

  /** The range token forms of the grammar: "Mon-Sat" and "Mon-Sat," name a range. */
  lemma DayRangeToken(day: Instant, d: string, e: string)
    requires ',' !in d && '-' !in d && ',' !in e && '-' !in e
    ensures DayTokenMatches(day, d + "-" + e) == IsOpenOnDay(day, d, Some(e))
    ensures DayTokenMatches(day, d + "-" + e + ",") == IsOpenOnDay(day, d, Some(e))
  {
    assert ',' !in d + "-" + e;
    SplitAfterPrefix(d, "-", e);
    SplitWithoutSeparator(e, "-");
    RemoveTrailingComma(d + "-" + e);
  }

  // ---------------------------------------------------------------------------
  // openForHelper
  // ---------------------------------------------------------------------------

  /** The reference instant in milliseconds since midnight. */
  function CheckTime(day: Instant): (t: int)
    ensures ValidInstant(day) ==> 0 <= t < 24 * 60 * 60 * 1000
  {
    day.hours * 1000 * 60 * 60 + day.minutes * 1000 * 60 + day.seconds * 1000 + day.milliseconds
  }

  /** `openForHelper(date, openTimes)`: the space-separated tokens, read from the
      back, are close marker, close time, a separator, open marker, open time, and
      then the day tokens. When a day token matches and the instant lies strictly
      between opening and closing, the milliseconds left; otherwise -1. */
  function OpenForHelper(day: Instant, openTimes: string): (r: int)
    ensures r == Closed || r > 0
  {
    var rev := Reverse(Split(openTimes, " "));
    // [closeAP, closeT, dash, openAP, openT, ...days]
    var days := if |rev| > 5 then rev[5..] else [];
    if !DaysFold(day, days, false) then Closed
    else
      var openTime := MulNum(ParseHoursAndMins(rev[4], rev[3]), 60000);
      var closeTime := MulNum(ParseHoursAndMins(rev[1], rev[0]), 60000);
      var checkTime := CheckTime(day);
      if openTime.Some? && closeTime.Some? && openTime.value < checkTime && checkTime < closeTime.value then
        closeTime.value - checkTime
      else
        Closed
  }

  /** Day token `i` of a segment's token list (the ones before the last five) matches. */
  predicate DayTokenAt(day: Instant, tokens: seq<string>, i: int)
  {
    0 <= i < |tokens| - 5 && DayTokenMatches(day, tokens[i])
  }

  /** The day clause read over the reversed tokens is the day clause over the
      tokens before the last five. */
  lemma DayClause(day: Instant, t: seq<string>)
    requires |t| > 5
    ensures DaysFold(day, Reverse(t)[5..], false) <==> exists i :: DayTokenAt(day, t, i)
  {
    var n := |t|;
    var days := Reverse(t)[5..];
    assert forall k :: 0 <= k < |days| ==> days[k] == t[n - 6 - k];
    DaysFoldAny(day, days, false);
    if exists i :: 0 <= i < |days| && DayTokenMatches(day, days[i]) {
      var i :| 0 <= i < |days| && DayTokenMatches(day, days[i]);
      assert days[i] == t[n - 6 - i];
      assert DayTokenAt(day, t, n - 6 - i);
    }
    if exists i :: DayTokenAt(day, t, i) {
      var i :| DayTokenAt(day, t, i);
      assert days[n - 6 - i] == t[i];
    }
  }

  /** What a segment means, in terms of its tokens in reading order: some day
      token among all but the last five matches, both times parse, and the
      instant lies strictly inside (open, close); then the result is the
      milliseconds left until closing. */
  lemma SegmentMeaning(day: Instant, openTimes: string)
    ensures var t := Split(openTimes, " ");
      var n := |t|;
      var r := OpenForHelper(day, openTimes);
      (r != Closed <==>
        n > 5 && (exists i :: DayTokenAt(day, t, i)) &&
        var open := ParseHoursAndMins(t[n - 5], t[n - 4]);
        var close := ParseHoursAndMins(t[n - 2], t[n - 1]);
        open.Some? && close.Some? && open.value * 60000 < CheckTime(day) < close.value * 60000) &&
      (r != Closed ==> r == ParseHoursAndMins(t[n - 2], t[n - 1]).value * 60000 - CheckTime(day))
  {
    var t := Split(openTimes, " ");
    var n := |t|;
    var rev := Reverse(t);
    if n > 5 {
      DayClause(day, t);
      assert rev[0] == t[n - 1] && rev[1] == t[n - 2] && rev[3] == t[n - 4] && rev[4] == t[n - 5];
      var open := ParseHoursAndMins(t[n - 5], t[n - 4]);
      var close := ParseHoursAndMins(t[n - 2], t[n - 1]);
      assert open == ParseHoursAndMins(rev[4], rev[3]);
      assert close == ParseHoursAndMins(rev[1], rev[0]);
    } else {
      assert |rev| <= 5;
    }
  }

  /** A segment written as space-separated tokens (day tokens, open time and
      marker, a separator, close time and marker): it is open iff a day token
      matches and the instant lies strictly inside the window, and then the
      result is the milliseconds left until closing. */
  lemma SegmentTokens(day: Instant, t: seq<string>)
    requires |t| > 5
    requires forall i :: 0 <= i < |t| ==> ' ' !in t[i]
    ensures var n := |t|;
      var open := ParseHoursAndMins(t[n - 5], t[n - 4]);
      var close := ParseHoursAndMins(t[n - 2], t[n - 1]);
      OpenForHelper(day, Join(t, " ")) ==
        if (exists i :: DayTokenAt(day, t, i)) && open.Some? && close.Some? &&
           open.value * 60000 < CheckTime(day) < close.value * 60000
        then close.value * 60000 - CheckTime(day)
        else Closed
  {
    JoinSplit(t, " ");
    SegmentOfTokens(day, Join(t, " "), t);
  }

  /** `SegmentMeaning` for a segment whose tokens are already known. */
  lemma SegmentOfTokens(day: Instant, s: string, t: seq<string>)
    requires |t| > 5 && Split(s, " ") == t
    ensures var n := |t|;
      var open := ParseHoursAndMins(t[n - 5], t[n - 4]);
      var close := ParseHoursAndMins(t[n - 2], t[n - 1]);
      OpenForHelper(day, s) ==
        if (exists i :: DayTokenAt(day, t, i)) && open.Some? && close.Some? &&
           open.value * 60000 < CheckTime(day) < close.value * 60000
        then close.value * 60000 - CheckTime(day)
        else Closed
  {
    SegmentMeaning(day, s);
  }

  /** "Open at" and "closes at" are both closed, and a window whose close is not
      after its open (one crossing midnight, say) is never open. */
  lemma SegmentBoundariesClosed(day: Instant, openTimes: string)
    ensures var t := Split(openTimes, " ");
      var n := |t|;
      n > 5 ==>
        var open := ParseHoursAndMins(t[n - 5], t[n - 4]);
        var close := ParseHoursAndMins(t[n - 2], t[n - 1]);
        (open.Some? && CheckTime(day) == open.value * 60000 ==> OpenForHelper(day, openTimes) == Closed) &&
        (close.Some? && CheckTime(day) == close.value * 60000 ==> OpenForHelper(day, openTimes) == Closed) &&
        (open.Some? && close.Some? && close.value <= open.value ==> OpenForHelper(day, openTimes) == Closed)
  {
    SegmentMeaning(day, openTimes);
  }

  // ---------------------------------------------------------------------------
  // openFor
  // ---------------------------------------------------------------------------

  /** The `reduce` over the "/"-separated segments: once a segment reported a
      non-negative result, it is kept; otherwise the next trimmed segment is
      evaluated. */
  function SegmentsFold(day: Instant, segments: seq<string>, prev: int): (r: int)
    ensures (prev == Closed || prev > 0) ==> (r == Closed || r > 0)
  {
    if |segments| == 0 then prev
    else SegmentsFold(day, segments[1..], if prev >= 0 then prev else OpenForHelper(day, Trim(segments[0])))
  }

  /** `openFor(date, openTimes)`: milliseconds until close, or -1. */
  function OpenFor(day: Instant, openTimes: string): (r: int)
    ensures r == Closed || r > 0
  {
    SegmentsFold(day, Split(openTimes, "/"), Closed)
  }

  /** The result of segment `i`. */
  function SegmentResult(day: Instant, segments: seq<string>, i: int): int
    requires 0 <= i < |segments|
  {
    OpenForHelper(day, Trim(segments[i]))
  }

  /** Once the fold holds a result, no later segment changes it. */
  lemma {:induction false} FoldKeepsResult(day: Instant, segments: seq<string>, prev: int)
    requires prev >= 0
    ensures SegmentsFold(day, segments, prev) == prev
  {
    if |segments| > 0 {
      FoldKeepsResult(day, segments[1..], prev);
    }
  }

  /** The result of every segment, in order. */
  function SegmentResults(day: Instant, segments: seq<string>): (rs: seq<int>)
    ensures |rs| == |segments|
    ensures forall i :: 0 <= i < |segments| ==> rs[i] == SegmentResult(day, segments, i)
  {
    seq(|segments|, i requires 0 <= i < |segments| => SegmentResult(day, segments, i))
  }

  /** The same `reduce` over segment results computed beforehand. */
  function FirstOpen(rs: seq<int>, prev: int): int
  {
    if |rs| == 0 then prev else FirstOpen(rs[1..], if prev >= 0 then prev else rs[0])
  }

  lemma {:induction false} FoldIsFirstOpen(day: Instant, segments: seq<string>, prev: int)
    ensures SegmentsFold(day, segments, prev) == FirstOpen(SegmentResults(day, segments), prev)
  {
    if |segments| > 0 {
      var rs, tail := SegmentResults(day, segments), segments[1..];
      assert forall i :: 0 <= i < |tail| ==> SegmentResult(day, tail, i) == SegmentResult(day, segments, i + 1);
      assert rs[1..] == SegmentResults(day, tail);
      FoldIsFirstOpen(day, tail, if prev >= 0 then prev else rs[0]);
    }
  }

  lemma {:induction false} FirstOpenOf(rs: seq<int>)
    requires forall i :: 0 <= i < |rs| ==> rs[i] == Closed || rs[i] > 0
    ensures FirstOpen(rs, Closed) == Closed <==> forall i :: 0 <= i < |rs| ==> rs[i] == Closed
    ensures FirstOpen(rs, Closed) != Closed ==>
      exists i :: 0 <= i < |rs| && FirstOpen(rs, Closed) == rs[i] && forall j :: 0 <= j < i ==> rs[j] == Closed
  {
    if |rs| > 0 {
      var tail := rs[1..];
      if rs[0] >= 0 {
        FirstOpenKeeps(tail, rs[0]);
      } else {
        FirstOpenOf(tail);
        if FirstOpen(rs, Closed) != Closed {
          var i :| 0 <= i < |tail| && FirstOpen(tail, Closed) == tail[i] && forall j :: 0 <= j < i ==> tail[j] == Closed;
          assert rs[i + 1] == tail[i];
          assert forall j :: 0 < j < i + 1 ==> rs[j] == tail[j - 1];
        } else {
          assert forall i :: 0 < i < |rs| ==> rs[i] == tail[i - 1];
        }
      }
    }
  }

  lemma {:induction false} FirstOpenKeeps(rs: seq<int>, prev: int)
    requires prev >= 0
    ensures FirstOpen(rs, prev) == prev
  {
    if |rs| > 0 {
      FirstOpenKeeps(rs[1..], prev);
    }
  }

  /** From the closed sentinel, the fold yields -1 iff every segment is closed,
      and otherwise the result of the first segment that is not. */
  lemma FoldFirstOpen(day: Instant, segments: seq<string>)
    ensures SegmentsFold(day, segments, Closed) == Closed <==>
      forall i :: 0 <= i < |segments| ==> SegmentResult(day, segments, i) == Closed
    ensures SegmentsFold(day, segments, Closed) != Closed ==>
      exists i :: 0 <= i < |segments| && SegmentsFold(day, segments, Closed) == SegmentResult(day, segments, i) &&
        forall j :: 0 <= j < i ==> SegmentResult(day, segments, j) == Closed
  {
    var rs := SegmentResults(day, segments);
    FoldIsFirstOpen(day, segments, Closed);
    FirstOpenOf(rs);
    if FirstOpen(rs, Closed) != Closed {
      var i :| 0 <= i < |rs| && FirstOpen(rs, Closed) == rs[i] && forall j :: 0 <= j < i ==> rs[j] == Closed;
      assert SegmentsFold(day, segments, Closed) == SegmentResult(day, segments, i);
    }
  }

  /** First open segment wins: `openFor` is -1 iff every trimmed segment is
      closed, and otherwise the result of the leftmost segment that is open. */
  lemma OpenForFirstOpenSegment(day: Instant, openTimes: string)
    ensures var segments := Split(openTimes, "/");
      (OpenFor(day, openTimes) == Closed <==> forall i :: 0 <= i < |segments| ==> SegmentResult(day, segments, i) == Closed) &&
      (OpenFor(day, openTimes) != Closed ==>
        exists i :: 0 <= i < |segments| && OpenFor(day, openTimes) == SegmentResult(day, segments, i) &&
          forall j :: 0 <= j < i ==> SegmentResult(day, segments, j) == Closed)
  {
    assert OpenFor(day, openTimes) == SegmentsFold(day, Split(openTimes, "/"), Closed);
    FoldFirstOpen(day, Split(openTimes, "/"));
  }

  /** The fold over a concatenation of segment lists runs over the first list,
      then over the second. */
  lemma {:induction false} FoldConcat(day: Instant, a: seq<string>, b: seq<string>, prev: int)
    ensures SegmentsFold(day, a + b, prev) == SegmentsFold(day, b, SegmentsFold(day, a, prev))
  {
    if |a| > 0 {
      assert (a + b)[1..] == a[1..] + b;
      FoldConcat(day, a[1..], b, if prev >= 0 then prev else OpenForHelper(day, Trim(a[0])));
    } else {
      assert a + b == b;
    }
  }

  /** A schedule that is open in its first part is decided by it; later parts
      only matter when it is closed. */
  lemma OpenForConcat(day: Instant, a: string, b: string)
    ensures OpenFor(day, a + "/" + b) == if OpenFor(day, a) != Closed then OpenFor(day, a) else OpenFor(day, b)
  {
    SplitConcat(a, '/', b);
    assert a + "/" + b == a + ['/'] + b;
    FoldConcat(day, Split(a, "/"), Split(b, "/"), Closed);
    if OpenFor(day, a) != Closed {
      FoldKeepsResult(day, Split(b, "/"), OpenFor(day, a));
    }
  }

  /** A schedule of one segment without "/" and without white space at its
      ends is that segment. */
  predicate PlainSegment(s: string)
  {
    |s| > 0 && '/' !in s && !IsWhiteSpace(s[0]) && !IsWhiteSpace(s[|s| - 1])
  }

  lemma OneSegment(day: Instant, s: string)
    requires PlainSegment(s)
    ensures OpenFor(day, s) == OpenForHelper(day, s)
    ensures OpenFor(day, " " + s) == OpenForHelper(day, s)
  {
    SplitWithoutSeparator(s, "/");
    TrimTrimmed(s);
    assert SegmentsFold(day, [s], Closed) == SegmentsFold(day, [], OpenForHelper(day, s));
    PaddedSegment(day, " " + s, s);
  }

  /** One segment with a space at one or both ends. */
  lemma PaddedSegment(day: Instant, p: string, s: string)
    requires PlainSegment(s) && (p == s + " " || p == " " + s || p == " " + s + " ")
    ensures OpenFor(day, p) == OpenForHelper(day, s)
  {
    SplitWithoutSeparator(p, "/");
    TrimPadded(s);
    assert SegmentsFold(day, [p], Closed) == SegmentsFold(day, [], OpenForHelper(day, s));
  }

  /** A schedule "x / rest", with or without a space before `x`: the segment
      `x` decides unless it is closed, and then the rest is a schedule of its own. */
  lemma SegmentThen(day: Instant, x: string, rest: string)
    requires PlainSegment(x)
    ensures var first := OpenForHelper(day, x);
      OpenFor(day, x + " / " + rest) == (if first != Closed then first else OpenFor(day, " " + rest)) &&
      OpenFor(day, " " + x + " / " + rest) == (if first != Closed then first else OpenFor(day, " " + rest))
  {
    assert x + " / " + rest == (x + " ") + "/" + (" " + rest);
    assert " " + x + " / " + rest == (" " + x + " ") + "/" + (" " + rest);
    OpenForConcat(day, x + " ", " " + rest);
    OpenForConcat(day, " " + x + " ", " " + rest);
    PaddedSegment(day, x + " ", x);
    PaddedSegment(day, " " + x + " ", x);
  }

  /** Two segments written "x / y": the first decides unless it is closed. */
  lemma TwoSegments(day: Instant, x: string, y: string)
    requires PlainSegment(x) && PlainSegment(y)
    ensures var first := OpenForHelper(day, x);
      OpenFor(day, x + " / " + y) == if first != Closed then first else OpenForHelper(day, y)
  {
    SegmentThen(day, x, y);
    OneSegment(day, y);
  }

  // ---------------------------------------------------------------------------
  // processRestaurant
  // ---------------------------------------------------------------------------

  /** The field delimiter of a catalog line. */
  const RecordDelimiter: string := "\",\""

  /** `processRestaurant(date, restaurant)`: drop the outer characters, split
      on `","`, evaluate the trimmed second field; the record is kept, with the
      first field as its name, iff the result is positive. `Failure` is the
      exception thrown when there is no second field. */
  function ProcessRestaurant(day: Instant, restaurant: string): (r: Result<Option<OpenRestaurant>, ScanError>)
    ensures r.Success? && r.value.Some? ==> r.value.value.closeIn > 0
  {
    var fields := Split(SliceInner(restaurant), RecordDelimiter);
    if |fields| < 2 then Failure(MalformedRecord(restaurant))
    else
      var remainingOpenTime := OpenFor(day, Trim(fields[1]));
      if remainingOpenTime > 0 then Success(Some(OpenRestaurant(fields[0], remainingOpenTime)))
      else Success(None)
  }

  /** A line fails to parse iff the delimiter does not occur between its
      outer characters. */
  lemma MalformedIffNoDelimiter(day: Instant, restaurant: string)
    ensures ProcessRestaurant(day, restaurant).Failure? <==> !Occurs(SliceInner(restaurant), RecordDelimiter)
  {
    SplitCutsIffOccurs(SliceInner(restaurant), RecordDelimiter);
  }

  /** The catalog line `"name","schedule"`. */
  function RecordLine(name: string, schedule: string): string
  {
    "\"" + name + RecordDelimiter + schedule + "\""
  }

  /** Reading back a catalog line gives its name and evaluates its trimmed
      schedule, provided the delimiter `","` first occurs right after the name
      (no occurrence starts inside the name) and not again in the schedule. */
  lemma ProcessRecordLine(day: Instant, name: string, schedule: string)
    requires !Occurs(name + "\",", RecordDelimiter) && !Occurs(schedule, RecordDelimiter)
    ensures var remaining := OpenFor(day, Trim(schedule));
      ProcessRestaurant(day, RecordLine(name, schedule)) ==
        Success(if remaining > 0 then Some(OpenRestaurant(name, remaining)) else None)
  {
    var line := RecordLine(name, schedule);
    var inner := name + RecordDelimiter + schedule;
    assert line == "\"" + inner + "\"";
    assert SliceInner(line) == inner;
    assert RecordDelimiter[..2] == "\",";
    SplitAtFirstOccurrence(name, RecordDelimiter, schedule);
    SplitWithoutOccurrence(schedule, RecordDelimiter);
  }
}
