/** Values the repository's unit tests check for `parseHoursAndMins`,
    `isOpenOnDay`, `openFor` and `processRestaurant`, derived from the general
    lemmas of the model. Each instant is a test's reference date as its
    local-time getters report it.

    The lemmas named after a test value are the claims. The others, such as
    the `...Join`, `...SpaceFree`, `...Matches` and `...Segment` lemmas and
    `JoinSix`, are proof steps: each settles one fact about one literal, so
    that no single proof has to evaluate a whole schedule line. */
module SourceCases {
  import opened Wrappers
  import opened JsString
  import opened OpenRestaurants

  /** Monday, Dec 20 2021, 1:15 pm. */
  const MondayAfternoon := Instant(1, 13, 15, 0, 0)

  /** Wednesday, Dec 22 2021, 4:26 am. */
  const WednesdayMorning := Instant(3, 4, 26, 0, 0)

  // ---------------------------------------------------------------------------
  // parseHoursAndMins
  // ---------------------------------------------------------------------------

  /** The two `AM_PM` entries. */
  lemma Markers()
    ensures Lookup(AmPm, "am") == Some(0) && AmPm["am"] == 0
    ensures Lookup(AmPm, "pm") == Some(1) && AmPm["pm"] == 1
  {
    assert "am"[0] != "pm"[0];
  }

  lemma TwelveAm()
    ensures ParseHoursAndMins("12", "am") == Some(0)
  {
    Markers();
    assert TimeToken("12", None) == "12";
    TimeFormula("12", None, "am");
  }

  lemma NineAm()
    ensures ParseHoursAndMins("9", "am") == Some(9 * 60)
  {
    Markers();
    assert NumeralValue("9", 10) == 9;
    assert DecimalValue("9") == 9;
    assert TimeToken("9", None) == "9";
    TimeFormula("9", None, "am");
  }

  lemma ElevenThirtyAm()
    ensures ParseHoursAndMins("11:30", "am") == Some(11 * 60 + 30)
  {
    Markers();
    assert NumeralValue("11", 10) == 11 && NumeralValue("30", 10) == 30;
    assert DecimalValue("11") == 11 && DecimalValue("30") == 30;
    assert "11"[1] != "12"[1];
    assert TimeToken("11", Some("30")) == "11:30";
    TimeFormula("11", Some("30"), "am");
  }

  lemma TwelveThirtyAm()
    ensures ParseHoursAndMins("12:30", "am") == Some(30)
  {
    Markers();
    assert NumeralValue("30", 10) == 30;
    assert DecimalValue("30") == 30;
    assert TimeToken("12", Some("30")) == "12:30";
    TimeFormula("12", Some("30"), "am");
  }

  lemma TwelveThirtyPm()
    ensures ParseHoursAndMins("12:30", "pm") == Some(12 * 60 + 30)
  {
    Markers();
    assert NumeralValue("30", 10) == 30;
    assert DecimalValue("30") == 30;
    assert TimeToken("12", Some("30")) == "12:30";
    TimeFormula("12", Some("30"), "pm");
  }

  lemma NinePm()
    ensures ParseHoursAndMins("9", "pm") == Some(21 * 60)
  {
    Markers();
    assert NumeralValue("9", 10) == 9;
    assert DecimalValue("9") == 9;
    assert TimeToken("9", None) == "9";
    TimeFormula("9", None, "pm");
  }

  lemma ElevenThirtyPm()
    ensures ParseHoursAndMins("11:30", "pm") == Some(23 * 60 + 30)
  {
    Markers();
    assert NumeralValue("11", 10) == 11 && NumeralValue("30", 10) == 30;
    assert DecimalValue("11") == 11 && DecimalValue("30") == 30;
    assert "11"[1] != "12"[1];
    assert TimeToken("11", Some("30")) == "11:30";
    TimeFormula("11", Some("30"), "pm");
  }

  // ---------------------------------------------------------------------------
  // isOpenOnDay
  // ---------------------------------------------------------------------------

  lemma DayCases()
    ensures IsOpenOnDay(MondayAfternoon, "Mon", Some(""))
    ensures !IsOpenOnDay(MondayAfternoon, "Sun", Some(""))
    ensures IsOpenOnDay(WednesdayMorning, "Wed", Some(""))
    ensures IsOpenOnDay(MondayAfternoon, "Sun", Some("Mon"))
    ensures IsOpenOnDay(MondayAfternoon, "Mon", Some("Sun"))
    ensures IsOpenOnDay(MondayAfternoon, "Mon", Some("Mon"))
    ensures !IsOpenOnDay(WednesdayMorning, "Thu", Some("Fri"))
    ensures !IsOpenOnDay(WednesdayMorning, "Thu", Some("Tue"))
  {
    SingleDay(MondayAfternoon, "Mon", Some(""));
    SingleDay(MondayAfternoon, "Sun", Some(""));
    SingleDay(WednesdayMorning, "Wed", Some(""));
    DayRange(MondayAfternoon, "Sun", "Mon");
    DayRange(MondayAfternoon, "Mon", "Sun");
    DayRange(MondayAfternoon, "Mon", "Mon");
    DayRange(WednesdayMorning, "Thu", "Fri");
    DayRange(WednesdayMorning, "Thu", "Tue");
  }

  // ---------------------------------------------------------------------------
  // openFor and processRestaurant
  // ---------------------------------------------------------------------------

  /** The `DAYS_OF_WEEK` entries the cases below use. */
  lemma DayKeys()
    ensures Lookup(DaysOfWeek, "Sun") == Some(0) && Lookup(DaysOfWeek, "Mon") == Some(1)
    ensures Lookup(DaysOfWeek, "Tue") == Some(2) && Lookup(DaysOfWeek, "Wed") == Some(3)
    ensures Lookup(DaysOfWeek, "Fri") == Some(5) && Lookup(DaysOfWeek, "Sat") == Some(6)
  {
    assert "Sun" in DaysOfWeek && "Mon" in DaysOfWeek && "Tue" in DaysOfWeek;
    assert "Wed" in DaysOfWeek && "Fri" in DaysOfWeek && "Sat" in DaysOfWeek;
  }

  /** A segment of space-free tokens whose day token `t[k]` matches and whose
      times read `open` and `close` minutes after midnight. */
  lemma OpenDaySegment(day: Instant, s: string, t: seq<string>, k: int, open: int, close: int)
    requires |t| > 5 && (forall i :: 0 <= i < |t| ==> ' ' !in t[i]) && Join(t, " ") == s
    requires DayTokenAt(day, t, k)
    requires ParseHoursAndMins(t[|t| - 5], t[|t| - 4]) == Some(open)
    requires ParseHoursAndMins(t[|t| - 2], t[|t| - 1]) == Some(close)
    ensures OpenForHelper(day, s) ==
      if open * 60000 < CheckTime(day) < close * 60000 then close * 60000 - CheckTime(day) else Closed
  {
    SegmentTokens(day, t);
  }

  /** A segment of space-free tokens none of whose day tokens matches. */
  lemma ClosedDaySegment(day: Instant, s: string, t: seq<string>)
    requires |t| > 5 && (forall i :: 0 <= i < |t| ==> ' ' !in t[i]) && Join(t, " ") == s
    requires forall i :: 0 <= i < |t| - 5 ==> !DayTokenMatches(day, t[i])
    ensures OpenForHelper(day, s) == Closed
  {
    assert !exists i :: DayTokenAt(day, t, i);
    SegmentTokens(day, t);
  }

  lemma FourPm()
    ensures ParseHoursAndMins("4", "pm") == Some(16 * 60)
  {
    Markers();
    assert NumeralValue("4", 10) == 4;
    assert DecimalValue("4") == 4;
    assert TimeToken("4", None) == "4";
    TimeFormula("4", None, "pm");
  }

  lemma OnePm()
    ensures ParseHoursAndMins("1", "pm") == Some(13 * 60)
  {
    Markers();
    assert NumeralValue("1", 10) == 1;
    assert DecimalValue("1") == 1;
    assert TimeToken("1", None) == "1";
    TimeFormula("1", None, "pm");
  }

  lemma ThreeThirtyAm()
    ensures ParseHoursAndMins("3:30", "am") == Some(3 * 60 + 30)
  {
    Markers();
    assert NumeralValue("3", 10) == 3 && NumeralValue("30", 10) == 30;
    assert DecimalValue("3") == 3 && DecimalValue("30") == 30;
    assert TimeToken("3", Some("30")) == "3:30";
    TimeFormula("3", Some("30"), "am");
  }

  lemma NineThirtyPm()
    ensures ParseHoursAndMins("9:30", "pm") == Some(21 * 60 + 30)
  {
    Markers();
    assert NumeralValue("9", 10) == 9 && NumeralValue("30", 10) == 30;
    assert DecimalValue("9") == 9 && DecimalValue("30") == 30;
    assert TimeToken("9", Some("30")) == "9:30";
    TimeFormula("9", Some("30"), "pm");
  }

  // Day tokens, one fact each.

  lemma SundayMissesMonday()
    ensures !DayTokenMatches(MondayAfternoon, "Sun")
  {
    DayKeys();
  }

  lemma FridayMissesMonday()
    ensures !DayTokenMatches(MondayAfternoon, "Fri")
  {
    DayKeys();
  }

  lemma SaturdayMissesMonday()
    ensures !DayTokenMatches(MondayAfternoon, "Sat")
  {
    DayKeys();
  }

  /** A lone "-" splits into two empty day names. */
  lemma DashNamesNoDay()
    ensures !DayTokenMatches(MondayAfternoon, "-")
  {
    assert "" + "-" + "" == "-";
    DayRangeToken(MondayAfternoon, "", "");
    UnknownDay(MondayAfternoon, "", Some(""));
  }

  /** A range from Monday to a later day matches a Monday. */
  lemma MondayRangeMatches(last: string)
    requires last == "Tue" || last == "Sun"
    ensures DayTokenMatches(MondayAfternoon, "Mon-" + last)
  {
    DayKeys();
    assert "Mon" + "-" + last == "Mon-" + last;
    DayRangeToken(MondayAfternoon, "Mon", last);
    DayRange(MondayAfternoon, "Mon", last);
  }

  lemma WednesdayMatches()
    ensures DayTokenMatches(WednesdayMorning, "Wed")
  {
    DayKeys();
  }

  lemma WednesdayToSundayMissesMonday()
    ensures !DayTokenMatches(MondayAfternoon, "Wed-Sun")
  {
    DayKeys();
    assert "Wed" + "-" + "Sun" == "Wed-Sun";
    DayRangeToken(MondayAfternoon, "Wed", "Sun");
    WrappedRangeMissesWrappedDays(MondayAfternoon, "Wed", "Sun");
  }

  // Segments as tokens, one fact each.

  /** The join of six tokens, spelled out. */
  lemma JoinSix(a: string, b: string, c: string, d: string, e: string, f: string)
    ensures Join([a, b, c, d, e, f], " ") == a + " " + b + " " + c + " " + d + " " + e + " " + f
  {
    assert [a, b, c, d, e, f] == [a] + [b, c, d, e, f];
    assert [b, c, d, e, f] == [b] + [c, d, e, f];
    assert [c, d, e, f] == [c] + [d, e, f];
    assert [d, e, f] == [d] + [e, f];
    assert [e, f] == [e] + [f];
    JoinCons(a, [b, c, d, e, f], " ");
    JoinCons(b, [c, d, e, f], " ");
    JoinCons(c, [d, e, f], " ");
    JoinCons(d, [e, f], " ");
    JoinCons(e, [f], " ");
  }

  lemma SundayJoin()
    ensures Join(["Sun", "8:45", "am", "-", "7", "pm"], " ") == "Sun 8:45 am - 7 pm"
  {
    JoinSix("Sun", "8:45", "am", "-", "7", "pm");
  }

  lemma SundaySpaceFree()
    ensures forall i :: 0 <= i < 6 ==> ' ' !in ["Sun", "8:45", "am", "-", "7", "pm"][i]
  {
  }

  lemma FridayJoin()
    ensures Join(["Fri", "-", "Sat", "11:30", "am", "-", "9", "pm"], " ") == "Fri - Sat 11:30 am - 9 pm"
  {
    var tail := ["Sat", "11:30", "am", "-", "9", "pm"];
    SaturdayJoin();
    FridayTokens();
    JoinCons("-", tail, " ");
    JoinCons("Fri", ["-"] + tail, " ");
    FridayText();
  }

  lemma FridayTokens()
    ensures ["Fri", "-", "Sat", "11:30", "am", "-", "9", "pm"] == ["Fri"] + (["-"] + ["Sat", "11:30", "am", "-", "9", "pm"])
  {
  }

  lemma FridayText()
    ensures "Fri" + " " + ("-" + " " + "Sat 11:30 am - 9 pm") == "Fri - Sat 11:30 am - 9 pm"
  {
  }

  lemma SaturdayJoin()
    ensures Join(["Sat", "11:30", "am", "-", "9", "pm"], " ") == "Sat 11:30 am - 9 pm"
  {
    JoinSix("Sat", "11:30", "am", "-", "9", "pm");
  }

  lemma FridaySpaceFree()
    ensures forall i :: 0 <= i < 8 ==> ' ' !in ["Fri", "-", "Sat", "11:30", "am", "-", "9", "pm"][i]
  {
  }

  lemma MondayJoin()
    ensures Join(["Mon-Tue", "11:30", "am", "-", "4", "pm"], " ") == "Mon-Tue 11:30 am - 4 pm"
  {
    JoinSix("Mon-Tue", "11:30", "am", "-", "4", "pm");
  }

  lemma MondaySpaceFree()
    ensures forall i :: 0 <= i < 6 ==> ' ' !in ["Mon-Tue", "11:30", "am", "-", "4", "pm"][i]
  {
  }

  lemma WednesdayJoin()
    ensures Join(["Wed", "3:30", "am", "-", "1", "pm"], " ") == "Wed 3:30 am - 1 pm"
  {
    JoinSix("Wed", "3:30", "am", "-", "1", "pm");
  }

  lemma WednesdaySpaceFree()
    ensures forall i :: 0 <= i < 6 ==> ' ' !in ["Wed", "3:30", "am", "-", "1", "pm"][i]
  {
  }

  lemma MondayToSundayJoin()
    ensures Join(["Mon-Sun", "11:30", "am", "-", "9:30", "pm"], " ") == "Mon-Sun 11:30 am - 9:30 pm"
  {
    JoinSix("Mon-Sun", "11:30", "am", "-", "9:30", "pm");
  }

  lemma MondayToSundaySpaceFree()
    ensures forall i :: 0 <= i < 6 ==> ' ' !in ["Mon-Sun", "11:30", "am", "-", "9:30", "pm"][i]
  {
  }

  lemma WednesdayToSundayJoin()
    ensures Join(["Wed-Sun", "11:30", "am", "-", "9:30", "pm"], " ") == "Wed-Sun 11:30 am - 9:30 pm"
  {
    JoinSix("Wed-Sun", "11:30", "am", "-", "9:30", "pm");
  }

  lemma WednesdayToSundaySpaceFree()
    ensures forall i :: 0 <= i < 6 ==> ' ' !in ["Wed-Sun", "11:30", "am", "-", "9:30", "pm"][i]
  {
  }

  // Segments.

  /** "Sun 8:45 am - 7 pm" on a Monday. */
  lemma SundaySegment()
    ensures OpenForHelper(MondayAfternoon, "Sun 8:45 am - 7 pm") == Closed
  {
    var t := ["Sun", "8:45", "am", "-", "7", "pm"];
    SundayJoin();
    SundaySpaceFree();
    SundayMissesMonday();
    ClosedDaySegment(MondayAfternoon, "Sun 8:45 am - 7 pm", t);
  }

  /** "Fri - Sat 11:30 am - 9 pm" on a Monday; the lone "-" names no day either. */
  lemma FridaySegment()
    ensures OpenForHelper(MondayAfternoon, "Fri - Sat 11:30 am - 9 pm") == Closed
  {
    var t := ["Fri", "-", "Sat", "11:30", "am", "-", "9", "pm"];
    FridayJoin();
    FridaySpaceFree();
    FridayDays();
    ClosedDaySegment(MondayAfternoon, "Fri - Sat 11:30 am - 9 pm", t);
  }

  lemma FridayDays()
    ensures forall i :: 0 <= i < 3 ==> !DayTokenMatches(MondayAfternoon, ["Fri", "-", "Sat", "11:30", "am", "-", "9", "pm"][i])
  {
    var t := ["Fri", "-", "Sat", "11:30", "am", "-", "9", "pm"];
    FridayMissesMonday();
    DashNamesNoDay();
    SaturdayMissesMonday();
    forall i | 0 <= i < 3 ensures !DayTokenMatches(MondayAfternoon, t[i]) {
      assert t[i] == "Fri" || t[i] == "-" || t[i] == "Sat";
    }
  }

  /** "Mon-Tue 11:30 am - 4 pm" on Monday at 1:15 pm: 2 h 45 min left. */
  lemma MondaySegment()
    ensures OpenForHelper(MondayAfternoon, "Mon-Tue 11:30 am - 4 pm") == 9900000
  {
    var t := ["Mon-Tue", "11:30", "am", "-", "4", "pm"];
    MondayJoin();
    MondaySpaceFree();
    MondayRangeMatches("Tue");
    assert "Mon-" + "Tue" == "Mon-Tue";
    assert DayTokenAt(MondayAfternoon, t, 0);
    ElevenThirtyAm();
    FourPm();
    OpenDaySegment(MondayAfternoon, "Mon-Tue 11:30 am - 4 pm", t, 0, 11 * 60 + 30, 16 * 60);
  }

  lemma ThreePlainSegments()
    ensures PlainSegment("Sun 8:45 am - 7 pm") && PlainSegment("Fri - Sat 11:30 am - 9 pm") &&
      PlainSegment("Mon-Tue 11:30 am - 4 pm")
  {
  }

  lemma ThreeSegmentSchedule()
    ensures var x, y, z := "Sun 8:45 am - 7 pm", "Fri - Sat 11:30 am - 9 pm", "Mon-Tue 11:30 am - 4 pm";
      x + " / " + (y + " / " + z) == "Sun 8:45 am - 7 pm / " + "Fri - Sat 11:30 am - 9 pm / " + "Mon-Tue 11:30 am - 4 pm"
  {
  }

  /** The last two of the three segments, after the first cut. */
  lemma LastTwoSegments()
    ensures OpenFor(MondayAfternoon, " " + ("Fri - Sat 11:30 am - 9 pm" + " / " + "Mon-Tue 11:30 am - 4 pm")) == 9900000
  {
    var y, z := "Fri - Sat 11:30 am - 9 pm", "Mon-Tue 11:30 am - 4 pm";
    ThreePlainSegments();
    FridaySegment();
    MondaySegment();
    SegmentThen(MondayAfternoon, y, z);
    OneSegment(MondayAfternoon, z);
  }

  /** `openFor(MONDAY_1_15_PM, ...)` for three segments, of which the last is
      open (the test's schedule, written in three pieces). */
  lemma ThreeSegmentCase()
    ensures OpenFor(MondayAfternoon, "Sun 8:45 am - 7 pm / " + "Fri - Sat 11:30 am - 9 pm / " + "Mon-Tue 11:30 am - 4 pm") == 9900000
  {
    var x, y, z := "Sun 8:45 am - 7 pm", "Fri - Sat 11:30 am - 9 pm", "Mon-Tue 11:30 am - 4 pm";
    ThreeSegmentSchedule();
    ThreePlainSegments();
    SundaySegment();
    LastTwoSegments();
    SegmentThen(MondayAfternoon, x, y + " / " + z);
  }

  /** "Wed 3:30 am - 1 pm" on Wednesday at 4:26 am: 8 h 34 min left. */
  lemma WednesdaySegment()
    ensures OpenForHelper(WednesdayMorning, "Wed 3:30 am - 1 pm") == 30840000
  {
    var t := ["Wed", "3:30", "am", "-", "1", "pm"];
    WednesdayJoin();
    WednesdaySpaceFree();
    WednesdayMatches();
    assert DayTokenAt(WednesdayMorning, t, 0);
    ThreeThirtyAm();
    OnePm();
    OpenDaySegment(WednesdayMorning, "Wed 3:30 am - 1 pm", t, 0, 3 * 60 + 30, 13 * 60);
  }

  lemma TwoPlainSegments()
    ensures PlainSegment("Wed 3:30 am - 1 pm") && PlainSegment("Fri-Sat 2:30 am - 1 pm")
  {
  }

  lemma TwoSegmentSchedule()
    ensures "Wed 3:30 am - 1 pm" + " / " + "Fri-Sat 2:30 am - 1 pm" == "Wed 3:30 am - 1 pm / Fri-Sat 2:30 am - 1 pm"
  {
  }

  /** `openFor(WEDNESDAY_4_26_AM, ...)` for two segments, of which the first is open. */
  lemma TwoSegmentCase()
    ensures OpenFor(WednesdayMorning, "Wed 3:30 am - 1 pm / Fri-Sat 2:30 am - 1 pm") == 30840000
  {
    TwoSegmentSchedule();
    TwoPlainSegments();
    WednesdaySegment();
    TwoSegments(WednesdayMorning, "Wed 3:30 am - 1 pm", "Fri-Sat 2:30 am - 1 pm");
  }

  /** A name without a double quote ends where the delimiter starts. */
  lemma QuoteFreeName(name: string)
    requires '"' !in name
    ensures !Occurs(name + "\",", RecordDelimiter)
  {
    var s := name + "\",";
    forall i | 0 <= i <= |s| - |RecordDelimiter|
      ensures s[i] != RecordDelimiter[0]
    {
      assert s[i] == name[i];
    }
    NoOccurrence(s, RecordDelimiter);
  }

  /** A catalog line whose fields hold no double quote and whose schedule is
      one plain segment. */
  lemma QuoteFreeRecord(day: Instant, name: string, schedule: string)
    requires '"' !in name && '"' !in schedule && PlainSegment(schedule)
    ensures var remaining := OpenForHelper(day, schedule);
      ProcessRestaurant(day, RecordLine(name, schedule)) ==
        Success(if remaining > 0 then Some(OpenRestaurant(name, remaining)) else None)
  {
    QuoteFreeName(name);
    NoOccurrence(schedule, RecordDelimiter);
    ProcessRecordLine(day, name, schedule);
    TrimTrimmed(schedule);
    OneSegment(day, schedule);
  }

  /** "Mon-Sun 11:30 am - 9:30 pm" on a Monday: the range wraps, and Monday is its start. */
  lemma MondayToSundaySegment()
    ensures OpenForHelper(MondayAfternoon, "Mon-Sun 11:30 am - 9:30 pm") == 29700000
  {
    var t := ["Mon-Sun", "11:30", "am", "-", "9:30", "pm"];
    MondayToSundayJoin();
    MondayToSundaySpaceFree();
    MondayRangeMatches("Sun");
    assert "Mon-" + "Sun" == "Mon-Sun";
    assert DayTokenAt(MondayAfternoon, t, 0);
    ElevenThirtyAm();
    NineThirtyPm();
    OpenDaySegment(MondayAfternoon, "Mon-Sun 11:30 am - 9:30 pm", t, 0, 11 * 60 + 30, 21 * 60 + 30);
  }

  /** "Wed-Sun 11:30 am - 9:30 pm" on a Monday: the range wraps, but the weekday
      is not shifted, so Monday is missed. */
  lemma WednesdayToSundaySegment()
    ensures OpenForHelper(MondayAfternoon, "Wed-Sun 11:30 am - 9:30 pm") == Closed
  {
    var t := ["Wed-Sun", "11:30", "am", "-", "9:30", "pm"];
    WednesdayToSundayJoin();
    WednesdayToSundaySpaceFree();
    WednesdayToSundayMissesMonday();
    ClosedDaySegment(MondayAfternoon, "Wed-Sun 11:30 am - 9:30 pm", t);
  }

  /** The record line for "Isobune Sushi" with any schedule. */
  lemma IsobuneLine(schedule: string)
    ensures RecordLine("Isobune Sushi", schedule) == "\"Isobune Sushi\",\"" + (schedule + "\"")
  {
    assert "\"" + "Isobune Sushi" + RecordDelimiter == "\"Isobune Sushi\",\"";
  }

  lemma IsobuneFields()
    ensures '"' !in "Isobune Sushi" && '"' !in "Mon-Sun 11:30 am - 9:30 pm" && '"' !in "Wed-Sun 11:30 am - 9:30 pm"
  {
  }

  lemma IsobuneSchedules()
    ensures PlainSegment("Mon-Sun 11:30 am - 9:30 pm") && PlainSegment("Wed-Sun 11:30 am - 9:30 pm")
  {
  }

  /** `processRestaurant(MONDAY_1_15_PM, ...)` on a line that is open. */
  lemma IsobuneOpen()
    ensures ProcessRestaurant(MondayAfternoon, "\"Isobune Sushi\",\"Mon-Sun 11:30 am - 9:30 pm\"") ==
      Success(Some(OpenRestaurant("Isobune Sushi", 29700000)))
  {
    IsobuneLine("Mon-Sun 11:30 am - 9:30 pm");
    assert "Mon-Sun 11:30 am - 9:30 pm" + "\"" == "Mon-Sun 11:30 am - 9:30 pm\"";
    assert "\"Isobune Sushi\",\"" + "Mon-Sun 11:30 am - 9:30 pm\"" == "\"Isobune Sushi\",\"Mon-Sun 11:30 am - 9:30 pm\"";
    IsobuneFields();
    IsobuneSchedules();
    MondayToSundaySegment();
    QuoteFreeRecord(MondayAfternoon, "Isobune Sushi", "Mon-Sun 11:30 am - 9:30 pm");
  }

  /** `processRestaurant(MONDAY_1_15_PM, ...)` on a line that is closed: `null`. */
  lemma IsobuneClosed()
    ensures ProcessRestaurant(MondayAfternoon, "\"Isobune Sushi\",\"Wed-Sun 11:30 am - 9:30 pm\"") == Success(None)
  {
    IsobuneLine("Wed-Sun 11:30 am - 9:30 pm");
    assert "Wed-Sun 11:30 am - 9:30 pm" + "\"" == "Wed-Sun 11:30 am - 9:30 pm\"";
    assert "\"Isobune Sushi\",\"" + "Wed-Sun 11:30 am - 9:30 pm\"" == "\"Isobune Sushi\",\"Wed-Sun 11:30 am - 9:30 pm\"";
    IsobuneFields();
    IsobuneSchedules();
    WednesdayToSundaySegment();
    QuoteFreeRecord(MondayAfternoon, "Isobune Sushi", "Wed-Sun 11:30 am - 9:30 pm");
  }
}
